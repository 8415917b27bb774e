// The bit-packed state bitmaps of a flush map data page (IbitGetBitInPage_,
// IGetStateFromBitmap_, SetStateOnBitmap_ and their flush-type and runtime
// wrappers in flushmap.cxx).
//
// A bitmap gives each database page a slot of cbit bits (1, 2, 4 or 8), after
// a header of cbHeader bytes. Within a byte the first slot is the most
// significant one: the state of a slot at bit offset ib of its byte is
// (byte & (mask >> ib)) >> (8 - cbit - ib), where mask holds the top cbit bits.
module FmBitmap {
  import opened FmLayout
  import opened Jet

  predicate CbitOk(cbit: bv8)
  {
    cbit == 1 || cbit == 2 || cbit == 4 || cbit == 8
  }

  /** The top cbit bits of a byte: the mask of the first slot of a byte. */
  function TopMask(cbit: bv8): bv8
    requires CbitOk(cbit)
  {
    0xFF << (8 - cbit)
  }

  /** The largest state a slot can hold, 2^cbit - 1. */
  function StateMax(cbit: bv8): (m: bv8)
    requires CbitOk(cbit)
    ensures cbit == 1 ==> m == 1
    ensures cbit == 2 ==> m == 3
  {
    TopMask(cbit) >> (8 - cbit)
  }

  /** A slot position inside a byte: a multiple of cbit that leaves room for cbit bits. */
  predicate SlotOk(cbit: bv8, ib: bv8)
  {
    CbitOk(cbit) && ib <= 8 - cbit && ib % cbit == 0
  }

  /** The state stored at bit offset ib of byte b. */
  function GetByte(b: bv8, ib: bv8, cbit: bv8): (s: bv8)
    requires SlotOk(cbit, ib)
    ensures s <= StateMax(cbit)
  {
    (b & (TopMask(cbit) >> ib)) >> (8 - cbit - ib)
  }

  /** Byte b with the slot at bit offset ib replaced by state s. */
  function SetByte(b: bv8, s: bv8, ib: bv8, cbit: bv8): (r: bv8)
    requires SlotOk(cbit, ib)
  {
    (b & !(TopMask(cbit) >> ib)) | (s << (8 - cbit - ib))
  }

  /** Writing a state that fits and reading it back gives the state. */
  lemma GetSetByte(b: bv8, s: bv8, ib: bv8, cbit: bv8)
    requires SlotOk(cbit, ib) && s <= StateMax(cbit)
    ensures GetByte(SetByte(b, s, ib, cbit), ib, cbit) == s
    ensures SetByte(b, s, ib, cbit) & !(TopMask(cbit) >> ib) == b & !(TopMask(cbit) >> ib)
  {
  }

  /** Writing one slot leaves every other slot of the byte as it was. */
  lemma GetSetOtherSlot(b: bv8, s: bv8, ib: bv8, ib2: bv8, cbit: bv8)
    requires SlotOk(cbit, ib) && SlotOk(cbit, ib2) && ib != ib2 && s <= StateMax(cbit)
    ensures GetByte(SetByte(b, s, ib, cbit), ib2, cbit) == GetByte(b, ib2, cbit)
  {
  }

  /** The shape of one bitmap: header bytes, bits per state, database pages covered. */
  datatype Layout = Layout(cbHeader: nat, cbit: bv8, cPages: nat)
  {
    predicate Valid()
    {
      CbitOk(cbit) && cPages > 0
    }

    /** A bitmap of cb bytes has room for every slot. */
    predicate Fits(cb: nat)
    {
      8 * cbHeader + cPages * cbit as nat <= 8 * cb
    }
  }

  /** IbitGetBitInPage_: the bit offset of pgno's slot in its map page. */
  function IbitInPage(l: Layout, pgno: nat): (ibit: nat)
    requires l.Valid()
    ensures ibit + l.cbit as nat <= 8 * l.cbHeader + l.cPages * l.cbit as nat
  {
    SlotBound(l, pgno % l.cPages);
    8 * l.cbHeader + (pgno % l.cPages) * l.cbit as nat
  }

  lemma SlotBound(l: Layout, j: nat)
    requires l.Valid() && j < l.cPages
    ensures 8 * l.cbHeader + j * l.cbit as nat + l.cbit as nat <= 8 * l.cbHeader + l.cPages * l.cbit as nat
  {
    MulMono(j + 1, l.cPages, l.cbit as nat);
  }

  /** The byte holding pgno's slot, and the slot's bit offset within that byte. */
  function ByteOf(l: Layout, pgno: nat): nat
    requires l.Valid()
  {
    IbitInPage(l, pgno) / 8
  }

  function BitInByte(l: Layout, pgno: nat): (ib: bv8)
    requires l.Valid()
    ensures SlotOk(l.cbit, ib)
  {
    SlotAligned(l, pgno);
    (IbitInPage(l, pgno) % 8) as bv8
  }

  /** Slots start at multiples of cbit, and cbit divides 8, so no slot straddles a byte. */
  lemma SlotAligned(l: Layout, pgno: nat)
    requires l.Valid()
    ensures SlotOk(l.cbit, (IbitInPage(l, pgno) % 8) as bv8)
  {
    SlotOffsetAligned(l.cbHeader, pgno % l.cPages, l.cbit);
  }

  /** The offset 8 * h + j * cbit lies on a slot boundary of its byte. */
  lemma SlotOffsetAligned(h: nat, j: nat, cbit: bv8)
    requires CbitOk(cbit)
    ensures SlotOk(cbit, ((8 * h + j * cbit as nat) % 8) as bv8)
  {
    var c := cbit as nat;
    OffsetInByte(h, j, c);
    ByteSlot(cbit, (8 * h + j * c) % 8);
  }

  /** For c dividing 8, the offset 8 * h + j * c is a multiple of c within its byte. */
  lemma OffsetInByte(h: nat, j: nat, c: nat)
    requires c == 1 || c == 2 || c == 4 || c == 8
    ensures ((8 * h + j * c) % 8) % c == 0
  {
    var x := 8 * h + j * c;
    if c == 2 {
      assert x % 8 == 2 * (4 * h + j - 4 * (x / 8));
    } else if c == 4 {
      assert x % 8 == 4 * (2 * h + j - 2 * (x / 8));
    } else if c == 8 {
      assert x % 8 == 0;
    }
  }

  lemma ByteSlot(cbit: bv8, ib: nat)
    requires CbitOk(cbit) && ib < 8 && ib % cbit as nat == 0
    ensures SlotOk(cbit, ib as bv8)
  {
    if ib == 0 {
    } else if ib == 1 {
    } else if ib == 2 {
    } else if ib == 3 {
    } else if ib == 4 {
    } else if ib == 5 {
    } else if ib == 6 {
    } else {
    }
  }

  lemma ByteInRange(l: Layout, cb: nat, pgno: nat)
    requires l.Valid() && l.Fits(cb)
    ensures ByteOf(l, pgno) < cb
  {
  }

  /** IGetStateFromBitmap_: the state of pgno's slot; it always fits in cbit bits. */
  function GetState(l: Layout, bitmap: seq<bv8>, pgno: nat): (s: bv8)
    requires l.Valid() && l.Fits(|bitmap|)
    ensures s <= StateMax(l.cbit)
  {
    ByteInRange(l, |bitmap|, pgno);
    GetByte(bitmap[ByteOf(l, pgno)], BitInByte(l, pgno), l.cbit)
  }

  /**
   * SetStateOnBitmap_ as a value: pgno's slot now reads state, every other
   * slot reads as before, and no bit outside the slot changes.
   */
  function SetState(l: Layout, bitmap: seq<bv8>, pgno: nat, state: bv8): (r: seq<bv8>)
    requires l.Valid() && l.Fits(|bitmap|) && state <= StateMax(l.cbit)
    ensures |r| == |bitmap|
    ensures GetState(l, r, pgno) == state
    ensures forall q: nat :: q % l.cPages != pgno % l.cPages ==> GetState(l, r, q) == GetState(l, bitmap, q)
    ensures forall i :: 0 <= i < |r| && i != ByteOf(l, pgno) ==> r[i] == bitmap[i]
    ensures var i, m := ByteOf(l, pgno), !(TopMask(l.cbit) >> BitInByte(l, pgno));
      r[i] & m == bitmap[i] & m
  {
    ByteInRange(l, |bitmap|, pgno);
    var i := ByteOf(l, pgno);
    var ib := BitInByte(l, pgno);
    var r := bitmap[i := SetByte(bitmap[i], state, ib, l.cbit)];
    GetSetByte(bitmap[i], state, ib, l.cbit);
    OtherSlots(l, bitmap, pgno, state);
    r
  }

  lemma OtherSlots(l: Layout, bitmap: seq<bv8>, pgno: nat, state: bv8)
    requires l.Valid() && l.Fits(|bitmap|) && state <= StateMax(l.cbit)
    ensures ByteOf(l, pgno) < |bitmap|
    ensures var i := ByteOf(l, pgno);
      var r := bitmap[i := SetByte(bitmap[i], state, BitInByte(l, pgno), l.cbit)];
      forall q: nat :: q % l.cPages != pgno % l.cPages ==> GetState(l, r, q) == GetState(l, bitmap, q)
  {
    ByteInRange(l, |bitmap|, pgno);
    var i := ByteOf(l, pgno);
    var r := bitmap[i := SetByte(bitmap[i], state, BitInByte(l, pgno), l.cbit)];
    forall q: nat | q % l.cPages != pgno % l.cPages
      ensures GetState(l, r, q) == GetState(l, bitmap, q)
    {
      ByteInRange(l, |bitmap|, q);
      if ByteOf(l, q) == i {
        DistinctSlots(l, pgno, q);
        GetSetOtherSlot(bitmap[i], state, BitInByte(l, pgno), BitInByte(l, q), l.cbit);
      }
    }
  }

  /** Two pages with different slots in the same byte sit at different bit offsets. */
  lemma DistinctSlots(l: Layout, p: nat, q: nat)
    requires l.Valid() && p % l.cPages != q % l.cPages && ByteOf(l, p) == ByteOf(l, q)
    ensures BitInByte(l, p) != BitInByte(l, q)
  {
    var a, b := IbitInPage(l, p), IbitInPage(l, q);
    assert a != b by {
      if a == b {
        MulCancel(p % l.cPages, q % l.cPages, l.cbit as nat);
      }
    }
    DistinctRemainders(a, b);
  }

  /** Two different numbers with the same quotient by 8 have different remainders. */
  lemma DistinctRemainders(a: nat, b: nat)
    requires a != b && a / 8 == b / 8
    ensures a % 8 != b % 8
  {
    assert a == 8 * (a / 8) + a % 8 && b == 8 * (b / 8) + b % 8;
  }

  lemma MulCancel(x: nat, y: nat, c: nat)
    requires c > 0 && x * c == y * c
    ensures x == y
  {
    MulDiv(x, c);
    MulDiv(y, c);
  }

  /** SetStateOnBitmap_: the in-place update of one byte of the bitmap (sequentially, without the retry loop). */
  method SetStateOnBitmap(bitmap: array<bv8>, l: Layout, pgno: nat, state: bv8)
    requires l.Valid() && l.Fits(bitmap.Length) && state <= StateMax(l.cbit)
    modifies bitmap
    ensures bitmap[..] == SetState(l, old(bitmap[..]), pgno, state)
  {
    ByteInRange(l, bitmap.Length, pgno);
    var i := ByteOf(l, pgno);
    bitmap[i] := SetByte(bitmap[i], state, BitInByte(l, pgno), l.cbit);
  }

  /** The flush-type bitmap of a data page: after the page header, s_cbitFlushType bits per page. */
  function FlushTypeLayout(g: FmGeometry): (l: Layout)
    requires g.Valid()
    ensures l.Valid() && l.Fits(g.cbPage)
  {
    SlotsFit(g);
    Layout(g.cbDataHdr, g.cbitFlushType, g.PagesPerFmPage())
  }

  /**
   * The runtime bitmap (rgbitRuntime): no header and one bit per page, in a
   * buffer of roundupdiv(pages, 8) bytes rounded up to the commit granularity.
   */
  function RuntimeLayout(g: FmGeometry): (l: Layout)
    requires g.Valid()
    ensures l.Valid() && l.cbit == 1 && TopMask(l.cbit) == 0x80
  {
    Layout(0, 1, g.PagesPerFmPage())
  }

  function RuntimeBitmapSize(g: FmGeometry, cbGranularity: nat): (cb: nat)
    requires g.Valid() && cbGranularity >= 1
    ensures RuntimeLayout(g).Fits(cb)
  {
    var cb := RoundUp(RoundUpDiv(g.PagesPerFmPage(), 8), cbGranularity);
    DivBounds(g.PagesPerFmPage(), 8);
    cb
  }

  /** A buffer of n copies of byte b (memset). */
  function Fill(n: nat, b: bv8): (r: seq<bv8>)
    ensures |r| == n && forall i :: 0 <= i < n ==> r[i] == b
  {
    seq(n, _ => b)
  }

  /** Every slot of a zeroed bitmap reads 0, and every slot of an all-ones one-bit bitmap reads 1. */
  lemma FilledStates(l: Layout, n: nat)
    requires l.Valid() && l.Fits(n)
    ensures forall q: nat :: GetState(l, Fill(n, 0), q) == 0
    ensures l.cbit == 1 ==> forall q: nat :: GetState(l, Fill(n, 0xFF), q) == 1
  {
    forall q: nat
      ensures GetState(l, Fill(n, 0), q) == 0
      ensures l.cbit == 1 ==> GetState(l, Fill(n, 0xFF), q) == 1
    {
      ByteInRange(l, n, q);
      OnesReadOne(BitInByte(l, q), l.cbit);
    }
  }

  lemma OnesReadOne(ib: bv8, cbit: bv8)
    requires SlotOk(cbit, ib)
    ensures GetByte(0, ib, cbit) == 0
    ensures cbit == 1 ==> GetByte(0xFF, ib, cbit) == 1
  {
  }

  /** The page flush types (CPAGE::PageFlushType); pgftUnknown is the state of a zeroed slot. */
  const PgftUnknown: bv8 := 0

  /** PgftGetFlushType_: the flush type of pgno recorded in its map page. */
  function FlushTypeOf(g: FmGeometry, page: seq<bv8>, pgno: nat): (pgft: bv8)
    requires g.Valid() && |page| == g.cbPage
    ensures pgft <= StateMax(g.cbitFlushType)
  {
    GetState(FlushTypeLayout(g), page, pgno)
  }

  /** SetFlushType_. */
  function WithFlushType(g: FmGeometry, page: seq<bv8>, pgno: nat, pgft: bv8): (r: seq<bv8>)
    requires g.Valid() && |page| == g.cbPage && pgft <= StateMax(g.cbitFlushType)
    ensures |r| == g.cbPage && FlushTypeOf(g, r, pgno) == pgft
    ensures forall q: nat :: q % g.PagesPerFmPage() != pgno % g.PagesPerFmPage() ==> FlushTypeOf(g, r, q) == FlushTypeOf(g, page, q)
  {
    SetState(FlushTypeLayout(g), page, pgno, pgft)
  }

  /** FGetFlushTypeRuntime_: a page without a runtime bitmap reads as set. */
  function RuntimeOf(g: FmGeometry, runtime: Option<seq<bv8>>, pgno: nat): bool
    requires g.Valid() && (runtime.Some? ==> RuntimeLayout(g).Fits(|runtime.value|))
  {
    match runtime
    case None => true
    case Some(bits) => GetState(RuntimeLayout(g), bits, pgno) == 1
  }

  /** SetFlushTypeRuntimeState_: a page without a runtime bitmap is left alone. */
  function WithRuntime(g: FmGeometry, runtime: Option<seq<bv8>>, pgno: nat, fRuntime: bool): (r: Option<seq<bv8>>)
    requires g.Valid() && (runtime.Some? ==> RuntimeLayout(g).Fits(|runtime.value|))
    ensures r.Some? == runtime.Some? && (r.Some? ==> |r.value| == |runtime.value|)
    ensures RuntimeOf(g, r, pgno) == (fRuntime || runtime.None?)
    ensures forall q: nat :: q % g.PagesPerFmPage() != pgno % g.PagesPerFmPage() ==> RuntimeOf(g, r, q) == RuntimeOf(g, runtime, q)
  {
    match runtime
    case None => None
    case Some(bits) => Some(SetState(RuntimeLayout(g), bits, pgno, if fRuntime then 1 else 0))
  }
}
