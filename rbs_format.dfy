// On-disk layout of a revert snapshot (RBS) generation file and the framing
// rule by which CRevertSnapshot::ErrCaptureRec packs records into segments.
//
// A generation file is a sequence of fixed-size segments. Segment 0 holds the
// two copies of the file header; every later segment starts with a segment
// header (checksum, ordinal, time stamp) followed by records. A record that
// does not fit in the space left in the open segment is split into one
// FragBegin piece and then FragContinue pieces, one per fresh segment; a tail
// too short for a FragBegin header is zero filled, and zero is the NOP type.
module RbsFormat {
  import opened Bytes

  /** The record type that marks unused space. */
  const TypeNop: byte := 0

  /**
   * The sizes and constants whose definitions live in headers that are not
   * part of this model: the segment size, sizeof(RBSSEGHDR), sizeof(RBSFragBegin),
   * sizeof(RBSFragContinue), the segments per write buffer, cRBSSegmentMax and
   * the record type codes.
   */
  datatype Geometry = Geometry(
    cbSegment: nat,
    cbSegHdr: nat,
    cbFragBegin: nat,
    cbFragContinue: nat,
    cSegmentsPerBuffer: nat,
    cSegmentMax: nat,
    typeFragBegin: byte,
    typeFragContinue: byte,
    typeMax: nat)
  {
    /**
     * The header holds at least the checksum (8 bytes), the ordinal (4) and the
     * time stamp (8); the fragment headers hold at least their type and USHORT
     * length (and FragBegin its USHORT total); a segment fits a segment header
     * and a FragBegin header; lengths fit a USHORT.
     */
    predicate Valid()
    {
      && cbSegHdr >= 20
      && cbFragContinue >= 3
      && cbFragBegin >= 5
      && cbFragContinue < cbFragBegin
      && cbSegHdr + cbFragBegin <= cbSegment < 0x1_0000
      && cSegmentsPerBuffer >= 1
      && typeFragBegin != typeFragContinue
      && typeFragBegin != TypeNop && typeFragContinue != TypeNop
    }

    /** Bytes of a segment available to records. */
    function Payload(): nat
    {
      if cbSegHdr <= cbSegment then cbSegment - cbSegHdr else 0
    }

    /** cbRBSBufferSize. */
    function BufferSize(): nat
    {
      cSegmentsPerBuffer * cbSegment
    }
  }

  /** The checksum of a segment, from its ordinal and its bytes after the checksum field. */
  type Checksum = (nat, seq<byte>) -> nat

  /** The stored form of the segment checksum (an XECHECKSUM, 64 bits). */
  function ChecksumField(ck: Checksum, ordinal: nat, body: seq<byte>): (f: seq<byte>)
    ensures |f| == 8
  {
    LE(ck(U32(ordinal), body) % 0x1_0000_0000_0000_0000, 8)
  }

  /** A segment whose checksum matches, as ChecksumAndPossiblyFixPage decides it. */
  predicate ChecksumOk(ck: Checksum, s: seq<byte>, ordinal: nat)
    requires |s| >= 8
  {
    U64At(s, 0) == ck(U32(ordinal), s[8..]) % 0x1_0000_0000_0000_0000
  }

  /** A segment whose header ordinal (le_iSegment, a ULONG) is the expected one. */
  predicate OrdinalOk(s: seq<byte>, ordinal: nat)
    requires |s| >= 12
  {
    U32At(s, 8) == U32(ordinal)
  }

  /** A finished segment as the writer leaves it: correct checksum and ordinal. */
  predicate SegmentOk(g: Geometry, ck: Checksum, s: seq<byte>, ordinal: nat)
  {
    |s| == g.cbSegment && |s| >= 20 && ChecksumOk(ck, s, ordinal) && OrdinalOk(s, ordinal)
  }

  /** The record area of a segment. */
  function PayloadOf(g: Geometry, s: seq<byte>): seq<byte>
    requires g.cbSegHdr <= |s|
  {
    s[g.cbSegHdr..]
  }

  /**
   * Sealing a segment: the ordinal and the time stamp go in the header, then the
   * checksum over everything after the checksum field. The result is a finished
   * segment with the given record area and reserved header bytes.
   */
  function Seal(g: Geometry, ck: Checksum, ordinal: nat, logtime: seq<byte>, reserved: seq<byte>, payload: seq<byte>): (s: seq<byte>)
    requires g.Valid() && |logtime| == 8 && |reserved| == g.cbSegHdr - 20 && |payload| == g.Payload()
    ensures SegmentOk(g, ck, s, ordinal) && PayloadOf(g, s) == payload
  {
    var body := LE(U32(ordinal), 4) + logtime + reserved + payload;
    var s := ChecksumField(ck, ordinal, body) + body;
    Pow256Widths();
    UnLELE(U32(ordinal), 4);
    UnLELE(ck(U32(ordinal), body) % 0x1_0000_0000_0000_0000, 8);
    assert s[0..8] == ChecksumField(ck, ordinal, body) && s[8..] == body;
    assert s[8..12] == LE(U32(ordinal), 4);
    U64AtUnLE(s, 0);
    U32AtUnLE(s, 8);
    s
  }

  /** The header of a FragBegin piece: type, USHORT length of the piece, USHORT total length. */
  function FragBeginHeader(g: Geometry, recLen: nat, total: nat): (h: seq<byte>)
    requires g.Valid()
    ensures |h| == g.cbFragBegin
  {
    [g.typeFragBegin] + LE(recLen, 2) + LE(total, 2) + Zeros(g.cbFragBegin - 5)
  }

  /** The header of a FragContinue piece: type and USHORT length of the piece. */
  function FragContinueHeader(g: Geometry, recLen: nat): (h: seq<byte>)
    requires g.Valid()
    ensures |h| == g.cbFragContinue
  {
    [g.typeFragContinue] + LE(recLen, 2) + Zeros(g.cbFragContinue - 3)
  }

  function Min(a: nat, b: nat): nat
  {
    if a <= b then a else b
  }

  /**
   * The record areas produced by packing: the segments closed along the way, in
   * order, and what the open segment holds afterwards.
   */
  datatype Packed = Packed(closed: seq<seq<byte>>, open: seq<byte>)

  /**
   * Whether the open segment holding c can take another record: a segment with
   * fewer than sizeof(RBSFragBegin) bytes left is closed at once.
   */
  predicate OpenOk(g: Geometry, c: seq<byte>)
  {
    |c| + g.cbFragBegin <= g.Payload()
  }

  /** Close the open segment when less than a FragBegin header is left, zero filling the tail. */
  function CloseIfShort(g: Geometry, c: seq<byte>): (p: Packed)
    requires g.Valid() && |c| <= g.Payload()
    ensures forall i :: 0 <= i < |p.closed| ==> |p.closed[i]| == g.Payload()
    ensures OpenOk(g, p.open)
    ensures p.closed == [] ==> p.open == c
    ensures p.closed != [] ==> p.open == [] && p.closed == [c + Zeros(g.Payload() - |c|)]
  {
    if g.Payload() - |c| < g.cbFragBegin then Packed([c + Zeros(g.Payload() - |c|)], []) else Packed([], c)
  }

  /** A record is a non-empty byte string whose length fits the USHORT total of a FragBegin. */
  predicate Packable(g: Geometry, r: seq<byte>)
  {
    0 < |r| < 0x1_0000
  }

  /**
   * How ErrCaptureRec lays out record r after the open segment content cur:
   * in place when it fits, otherwise a FragBegin piece filling the segment and
   * FragContinue pieces in fresh segments.
   */
  function PackRecord(g: Geometry, cur: seq<byte>, r: seq<byte>): Packed
    requires g.Valid() && OpenOk(g, cur) && Packable(g, r)
  {
    var space := g.Payload() - |cur|;
    if space >= |r| then CloseIfShort(g, cur + r)
    else
      var n := space - g.cbFragBegin;
      var rest := PackContinue(g, r, n);
      Packed([cur + FragBeginHeader(g, space, |r|) + r[..n]] + rest.closed, rest.open)
  }

  /** How many bytes of r[done..] the next FragContinue piece carries. */
  function ContinueData(g: Geometry, r: seq<byte>, done: nat): (n: nat)
    requires g.Valid() && done < |r|
    ensures 0 < n <= |r| - done && g.cbFragContinue + n <= g.Payload()
  {
    Min(|r| - done, g.Payload() - g.cbFragContinue)
  }

  /**
   * The FragContinue piece for r[done..]: a header whose length is
   * min(header + bytes still owed, segment payload), then the bytes it carries.
   */
  function ContinuePiece(g: Geometry, r: seq<byte>, done: nat): (piece: seq<byte>)
    requires g.Valid() && done < |r|
    ensures |piece| == g.cbFragContinue + ContinueData(g, r, done)
  {
    FragContinueHeader(g, Min(g.cbFragContinue + |r| - done, g.Payload())) + r[done..done + ContinueData(g, r, done)]
  }

  /** The FragContinue pieces that carry r[done..], each at the start of a fresh segment. */
  function PackContinue(g: Geometry, r: seq<byte>, done: nat): Packed
    requires g.Valid() && done < |r|
    decreases |r| - done
  {
    var n := ContinueData(g, r, done);
    if done + n == |r| then CloseIfShort(g, ContinuePiece(g, r, done))
    else
      var rest := PackContinue(g, r, done + n);
      Packed([ContinuePiece(g, r, done)] + rest.closed, rest.open)
  }

  /** Packing a sequence of records one after another. */
  function PackAll(g: Geometry, cur: seq<byte>, rs: seq<seq<byte>>): (p: Packed)
    requires g.Valid() && OpenOk(g, cur)
    requires forall i :: 0 <= i < |rs| ==> Packable(g, rs[i])
    ensures OpenOk(g, p.open)
    ensures forall i :: 0 <= i < |p.closed| ==> |p.closed[i]| == g.Payload()
    decreases |rs|
  {
    if rs == [] then Packed([], cur)
    else
      var p := PackRecord(g, cur, rs[0]);
      PackedShape(g, cur, rs[0]);
      var q := PackAll(g, p.open, rs[1..]);
      Packed(p.closed + q.closed, q.open)
  }

  /**
   * What ErrFlushAll does to the open segment: close it (zero filling the tail)
   * unless nothing has been written to it.
   */
  function CloseOpen(g: Geometry, cur: seq<byte>): (closed: seq<seq<byte>>)
    requires g.Valid() && |cur| <= g.Payload()
  {
    if cur == [] then [] else [cur + Zeros(g.Payload() - |cur|)]
  }

  /**
   * Shape of a packing: every closed segment is full, the open segment keeps
   * room for a FragBegin header (so every iteration of the capture loop starts
   * with at least that much space), and the open segment is empty exactly when
   * the record's last piece closed its segment.
   */
  lemma PackedShape(g: Geometry, cur: seq<byte>, r: seq<byte>)
    requires g.Valid() && OpenOk(g, cur) && Packable(g, r)
    ensures var p := PackRecord(g, cur, r);
      && (forall i :: 0 <= i < |p.closed| ==> |p.closed[i]| == g.Payload())
      && OpenOk(g, p.open)
      && (p.closed == [] ==> p.open == cur + r)
      && (p.open == [] ==> p.closed != [])
  {
    var space := g.Payload() - |cur|;
    if space < |r| {
      PackContinueShape(g, r, space - g.cbFragBegin);
    }
  }

  lemma {:induction false} PackContinueShape(g: Geometry, r: seq<byte>, done: nat)
    requires g.Valid() && done < |r|
    ensures var p := PackContinue(g, r, done);
      && (forall i :: 0 <= i < |p.closed| ==> |p.closed[i]| == g.Payload())
      && OpenOk(g, p.open)
      && p.closed + [p.open] != []
      && (p.open == [] ==> p.closed != [])
    decreases |r| - done
  {
    var n := ContinueData(g, r, done);
    if done + n < |r| {
      PackContinueShape(g, r, done + n);
    }
  }
}
