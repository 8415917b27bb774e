// What the writer leaves behind, read back: successive ErrCaptureRec calls
// lay out exactly RbsFormat.PackAll of the captured records, and once
// ErrFlushAll has sealed the open segment and flushed, the segments of the
// file below the header's logical size are read back by ErrGetNextRecord as
// the captured records, in order, then JET_wrnNoMoreRecords.
module RbsWriterReadBack {
  import opened Bytes
  import opened RbsFormat
  import opened RbsRead
  import opened RbsRoundTrip
  import opened RbsWriterState

  /**
   * Packing rs + [r] is packing rs, then r after what rs left open: a
   * capture of r (RbsWriter.SnapshotWriter.CaptureRec, which adds
   * PackRecord's areas and leaves its open area) after the captures of rs
   * leaves the areas of PackAll(rs + [r]).
   */
  lemma {:induction false} PackAllSnoc(g: Geometry, cur: seq<byte>, rs: seq<seq<byte>>, r: seq<byte>)
    requires g.Valid() && OpenOk(g, cur) && Packable(g, r)
    requires forall i :: 0 <= i < |rs| ==> Packable(g, rs[i])
    ensures forall i :: 0 <= i < |rs + [r]| ==> Packable(g, (rs + [r])[i])
    ensures var p := PackAll(g, cur, rs); var q := PackRecord(g, p.open, r);
      PackAll(g, cur, rs + [r]) == Packed(p.closed + q.closed, q.open)
    decreases |rs|
  {
    var all := rs + [r];
    assert forall i :: 0 <= i < |all| ==> Packable(g, all[i]) by {
      forall i | 0 <= i < |all| ensures Packable(g, all[i]) {
        if i < |rs| {
          assert all[i] == rs[i];
        }
      }
    }
    if rs == [] {
      assert all == [r] && all[1..] == [];
      var q := PackRecord(g, cur, r);
      PackedShape(g, cur, r);
      assert PackAll(g, q.open, all[1..]) == Packed([], q.open);
      assert q.closed + [] == q.closed;
    } else {
      var p := PackRecord(g, cur, rs[0]);
      PackedShape(g, cur, rs[0]);
      assert all[0] == rs[0] && all[1..] == rs[1..] + [r];
      PackAllSnoc(g, p.open, rs[1..], r);
      var tail := PackAll(g, p.open, rs[1..]);
      var q := PackRecord(g, tail.open, r);
      assert PackAll(g, cur, rs) == Packed(p.closed + tail.closed, tail.open);
      assert PackAll(g, cur, all) == Packed(p.closed + (tail.closed + q.closed), q.open);
      assert p.closed + (tail.closed + q.closed) == (p.closed + tail.closed) + q.closed;
    }
  }

  /**
   * The file as the reader loads it: segment 0 is the file header region,
   * then the file's segments 1 .. upTo - 1.
   */
  function FileImage(g: Geometry, header: seq<byte>, file: map<nat, seq<byte>>, upTo: nat): (segs: seq<seq<byte>>)
    requires upTo >= 1 && forall k :: 1 <= k < upTo ==> k in file
    ensures |segs| == upTo && segs[0] == header
    ensures forall k :: 1 <= k < upTo ==> segs[k] == file[k]
  {
    [header] + seq(upTo - 1, i requires 0 <= i < upTo - 1 => file[i + 1])
  }

  /** Segment k of a file that holds its area, as the reader sees it. */
  lemma FileCarries(g: Geometry, ck: Checksum, header: seq<byte>, file: map<nat, seq<byte>>, upTo: nat,
                    areas: seq<seq<byte>>, k: nat)
    requires g.Valid() && 1 <= k < upTo && FileSegmentHolds(g, ck, file, 1, areas, k)
    requires forall k :: 1 <= k < upTo ==> k in file
    ensures var segs := FileImage(g, header, file, upTo);
      |segs[k]| == g.cbSegment && Carries(g, ck, segs, k, areas[k - 1])
  {
    var segs := FileImage(g, header, file, upTo);
    assert segs[k] == file[k];
  }

  /**
   * A file whose segments 1 .. upTo - 1 are sealed and carry the areas that
   * packing rs and closing the open segment produce, loaded behind any header
   * segment: read from the first segment, it yields rs in order, then
   * NoMoreRecords.
   */
  lemma FileReadsBack(g: Geometry, ck: Checksum, file: map<nat, seq<byte>>, upTo: nat, header: seq<byte>, rs: seq<seq<byte>>)
    requires g.Valid() && OpenOk(g, []) && |header| == g.cbSegment
    requires forall i :: 0 <= i < |rs| ==> RecordOk(g, rs[i]) && Packable(g, rs[i])
    requires FileHolds(g, ck, file, 1, upTo, Areas(g, [], rs)) && upTo - 1 == |Areas(g, [], rs)|
    ensures forall k :: 1 <= k < upTo ==> k in file
    ensures var segs := FileImage(g, header, file, upTo);
      && Image(g, segs)
      && ReadsBack(ReadMany(g, ck, segs, Cursor(1, 0), |rs| + 1), rs)
  {
    var f := Areas(g, [], rs);
    forall k | 1 <= k < upTo ensures k in file {
      assert FileSegmentHolds(g, ck, file, 1, f, k);
    }
    var segs := FileImage(g, header, file, upTo);
    forall k | 1 <= k < upTo ensures |segs[k]| == g.cbSegment && Carries(g, ck, segs, k, f[k - 1]) {
      FileCarries(g, ck, header, file, upTo, f, k);
    }
    assert Image(g, segs);
    assert Holds(g, ck, segs, 1, Packed(f, [])) by {
      forall j | 0 <= j < |f| ensures CarriesAt(g, ck, segs, 1, f, j) {
        assert Carries(g, ck, segs, 1 + j, f[1 + j - 1]);
      }
    }
    assert Meets(g, segs, Cursor(1, 0), WriterCursor(g, 1, []));
    ReadAllBack(g, ck, segs, 1, [], rs, Cursor(1, 0));
  }

  /**
   * A fresh generation (the writer's first segment is segment 1) after the
   * records rs were captured and ErrFlushAll ran: nothing is open or queued
   * and everything is flushed. The header's logical size then ends at the
   * flush watermark, and the segments below it are read back as rs in
   * order, then NoMoreRecords.
   */
  lemma FlushedReadsBack(g: Geometry, ck: Checksum, s: WriterState, header: seq<byte>, rs: seq<seq<byte>>)
    requires WriterOk(g, ck, 1, s) && s.cur == [] && s.sealed == 0 && s.nextFlush == s.nextActive
    requires |header| == g.cbSegment && forall i :: 0 <= i < |rs| ==> RecordOk(g, rs[i]) && Packable(g, rs[i])
    requires s.areas == Areas(g, [], rs)
    ensures s.logicalSize / g.cbSegment == s.nextFlush >= 1
    ensures forall k :: 1 <= k < s.nextFlush ==> k in s.file
    ensures var segs := FileImage(g, header, s.file, s.nextFlush);
      && Image(g, segs)
      && ReadsBack(ReadMany(g, ck, segs, Cursor(1, 0), |rs| + 1), rs)
  {
    OffsetInSegment(g, s.nextFlush, s.logicalSize);
    FileReadsBack(g, ck, s.file, s.nextFlush, header, rs);
  }
}
