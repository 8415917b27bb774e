// Sizing arithmetic of the flush map file (CFlushMap in flushmap.cxx).
//
// The file is a header page followed by data pages, all s_cbFlushMapPageOnDisk
// bytes long. Each data page holds a FlushMapDataPageHdr and then a bitmap with
// s_cbitFlushType bits per database page, so one map page covers
// m_cDbPagesPerFlushMapPage consecutive database pages. Map pages are numbered
// by FMPGNO: the header is -1, the data pages 0, 1, ...
module FmLayout {

  /** The highest database page number (pgnoSysMax). */
  const PgnoSysMax: nat := 0x7fef_ffff

  /** The FMPGNO of the header page (s_fmpgnoHdr): the page at file offset 0. */
  const FmPgnoHdr: int := -1

  /**
   * The on-disk sizes, whose definitions are not part of this model:
   * s_cbFlushMapPageOnDisk, sizeof(FlushMapDataPageHdr) and s_cbitFlushType.
   */
  datatype FmGeometry = FmGeometry(cbPage: nat, cbDataHdr: nat, cbitFlushType: bv8)
  {
    predicate Valid()
    {
      && cbDataHdr < cbPage
      && (cbitFlushType == 1 || cbitFlushType == 2 || cbitFlushType == 4 || cbitFlushType == 8)
      && PagesPerFmPage() > 0
    }

    /**
     * m_cDbPagesPerFlushMapPage: the bits after the data page header divided
     * among the database pages, truncated to a USHORT.
     */
    function PagesPerFmPage(): nat
    {
      if cbDataHdr < cbPage && cbitFlushType != 0 then
        (8 * (cbPage - cbDataHdr) / cbitFlushType as nat) % 0x1_0000
      else 0
    }
  }

  /** The bitmap slots of every page a map page covers fit after its header. */
  lemma SlotsFit(g: FmGeometry)
    requires g.Valid()
    ensures 8 * g.cbDataHdr + g.PagesPerFmPage() * g.cbitFlushType as nat <= 8 * g.cbPage
  {
    var c := g.cbitFlushType as nat;
    var q := 8 * (g.cbPage - g.cbDataHdr) / c;
    assert q * c <= 8 * (g.cbPage - g.cbDataHdr);
    assert g.PagesPerFmPage() <= q;
    assert g.PagesPerFmPage() * c <= q * c by {
      MulMono(g.PagesPerFmPage(), q, c);
    }
  }

  lemma MulMono(a: nat, b: nat, c: nat)
    requires a <= b
    ensures a * c <= b * c
  {
  }

  /** OffsetOfFmPgno_: map page n starts n + 1 pages into the file, the header at offset 0. */
  function OffsetOfFmPgno(g: FmGeometry, fmpgno: int): (ib: nat)
    requires g.Valid() && fmpgno >= FmPgnoHdr
    ensures ib % g.cbPage == 0
    ensures ib == 0 <==> fmpgno == FmPgnoHdr
  {
    MulDiv(fmpgno + 1, g.cbPage);
    (fmpgno + 1) * g.cbPage
  }

  lemma {:induction false} MulDiv(n: nat, p: nat)
    requires p > 0
    ensures n * p / p == n && n * p % p == 0
  {
    if n > 0 {
      MulDiv(n - 1, p);
      assert n * p == (n - 1) * p + p;
    }
  }

  /** FmPgnoOfOffset_: the map page that starts at a page-aligned offset. */
  function FmPgnoOfOffset(g: FmGeometry, ib: nat): (fmpgno: int)
    requires g.Valid() && ib % g.cbPage == 0
    ensures fmpgno >= FmPgnoHdr && OffsetOfFmPgno(g, fmpgno) == ib
  {
    ib / g.cbPage - 1
  }

  /** Going from a map page to its offset and back gives the page. */
  lemma OffsetRoundTrip(g: FmGeometry, fmpgno: int)
    requires g.Valid() && fmpgno >= FmPgnoHdr
    ensures FmPgnoOfOffset(g, OffsetOfFmPgno(g, fmpgno)) == fmpgno
  {
    MulDiv(fmpgno + 1, g.cbPage);
  }

  function RoundUpDiv(a: nat, b: nat): nat
    requires b > 0
  {
    (a + b - 1) / b
  }

  /**
   * CfmpgGetRequiredFmDataPageCount_: the number of data pages needed to
   * cover database pages 0 .. pgno, the smallest count whose pages reach past pgno.
   */
  function RequiredCount(g: FmGeometry, pgno: nat): (c: nat)
    requires g.Valid()
    ensures c >= 1
    ensures (c - 1) * g.PagesPerFmPage() <= pgno < c * g.PagesPerFmPage()
  {
    var k := g.PagesPerFmPage();
    var c := RoundUpDiv(pgno + 1, k);
    DivBounds(pgno + 1, k);
    c
  }

  lemma DivBounds(a: nat, k: nat)
    requires a >= 1 && k > 0
    ensures var c := (a + k - 1) / k; c >= 1 && (c - 1) * k < a <= c * k
  {
    var c := (a + k - 1) / k;
    var r := (a + k - 1) % k;
    assert a + k - 1 == c * k + r;
  }

  /** More pages never need fewer map pages. */
  lemma RequiredMonotone(g: FmGeometry, a: nat, b: nat)
    requires g.Valid() && a <= b
    ensures RequiredCount(g, a) <= RequiredCount(g, b)
  {
    var k := g.PagesPerFmPage();
    var ca, cb := RequiredCount(g, a), RequiredCount(g, b);
    if ca > cb {
      MulMono(cb, ca - 1, k);
    }
  }

  /** FmpgnoGetFmPgnoFromDbPgno: the map page whose bitmap holds page pgno. */
  function FmPgnoOfDbPgno(g: FmGeometry, pgno: nat): (fmpgno: nat)
    requires g.Valid()
    ensures fmpgno * g.PagesPerFmPage() <= pgno < (fmpgno + 1) * g.PagesPerFmPage()
    ensures fmpgno + 1 == RequiredCount(g, pgno)
  {
    FmPgnoIsRequiredMinusOne(g, pgno);
    pgno / g.PagesPerFmPage()
  }

  lemma FmPgnoIsRequiredMinusOne(g: FmGeometry, pgno: nat)
    requires g.Valid()
    ensures var k := g.PagesPerFmPage(); var n := pgno / k;
      n * k <= pgno < (n + 1) * k && n + 1 == RequiredCount(g, pgno)
  {
    var k := g.PagesPerFmPage();
    var n := pgno / k;
    assert pgno == n * k + pgno % k;
    var c := RequiredCount(g, pgno);
    if c - 1 < n {
      MulMono(c, n, k);
    } else if c - 1 > n {
      MulMono(n + 1, c - 1, k);
    }
  }

  /** Later database pages never lie on an earlier map page. */
  lemma FmPgnoMonotone(g: FmGeometry, p: nat, q: nat)
    requires g.Valid() && p <= q
    ensures FmPgnoOfDbPgno(g, p) <= FmPgnoOfDbPgno(g, q)
  {
    RequiredMonotone(g, p, q);
  }

  /** Consecutive database pages lie on the same map page or on the next one. */
  lemma FmPgnoStep(g: FmGeometry, p: nat)
    requires g.Valid()
    ensures FmPgnoOfDbPgno(g, p + 1) == FmPgnoOfDbPgno(g, p) || FmPgnoOfDbPgno(g, p + 1) == FmPgnoOfDbPgno(g, p) + 1
  {
    NeighbourQuotients(FmPgnoOfDbPgno(g, p), FmPgnoOfDbPgno(g, p + 1), g.PagesPerFmPage(), p);
  }

  /** The quotients by k of p and p + 1 differ by at most one. */
  lemma NeighbourQuotients(a: nat, b: nat, k: nat, p: nat)
    requires a * k <= p < (a + 1) * k && b * k <= p + 1 < (b + 1) * k
    ensures b == a || b == a + 1
  {
    if b >= a + 2 {
      assert (a + 2) * k == (a + 1) * k + k;
      MulMono(a + 2, b, k);
    } else if b < a {
      MulMono(b + 1, a, k);
    }
  }

  /** Two different database pages on the same map page have different slots. */
  lemma SameFmPageDistinctSlots(g: FmGeometry, p: nat, q: nat)
    requires g.Valid() && p != q && FmPgnoOfDbPgno(g, p) == FmPgnoOfDbPgno(g, q)
    ensures p % g.PagesPerFmPage() != q % g.PagesPerFmPage()
  {
    var k := g.PagesPerFmPage();
    assert p == (p / k) * k + p % k && q == (q / k) * k + q % k;
  }

  /** CbGetRequiredFmFileSize_: the file ends where the page after the last needed data page would start. */
  function RequiredFileSize(g: FmGeometry, cfmpgData: nat): (cb: nat)
    requires g.Valid()
    ensures cb % g.cbPage == 0 && FmPgnoOfOffset(g, cb) == cfmpgData
  {
    OffsetRoundTrip(g, cfmpgData);
    (cfmpgData + 1) * g.cbPage
  }

  /** cfmpgWriteMax of the preferred size: the pages in one coalesced write, rounded up. */
  function WriteMax(g: FmGeometry, cbMaxCoalesceWrite: nat): (w: nat)
    requires g.Valid() && cbMaxCoalesceWrite >= 1
    ensures w >= 1
  {
    RoundUpDiv(cbMaxCoalesceWrite, g.cbPage)
  }

  function RoundUp(x: nat, w: nat): (r: nat)
    requires w >= 1
    ensures x <= r < x + w
  {
    RoundUpDiv(x, w) * w
  }

  function RoundDown(x: nat, w: nat): (r: nat)
    requires w >= 1
    ensures r <= x
  {
    x / w * w
  }

  function Max(a: nat, b: nat): nat { if a >= b then a else b }
  function Min(a: nat, b: nat): nat { if a <= b then a else b }

  /**
   * CfmpgGetPreferredFmDataPageCount_: how many data pages to provision for
   * database page pgno. A persisted map with a non-zero extension size plans
   * ahead: for a small database, to ten extensions; otherwise to twice the
   * current size, in whole coalesced writes. The excess is then capped, and
   * the result never goes past what pgnoSysMax requires.
   *
   * Unlike the preferred count, it is the required count that the first
   * branch rounds up to a whole number of writes.
   */
  function PreferredCount(g: FmGeometry, persisted: bool, cpgDbExtension: nat, cbMaxCoalesceWrite: nat, pgno: nat): (c: nat)
    requires g.Valid() && cbMaxCoalesceWrite >= 1 && pgno <= PgnoSysMax
    ensures RequiredCount(g, pgno) <= c <= RequiredCount(g, PgnoSysMax)
    ensures !persisted || cpgDbExtension == 0 ==> c == RequiredCount(g, pgno)
    ensures c <= RequiredCount(g, pgno) + 4 * WriteMax(g, cbMaxCoalesceWrite)
  {
    var required := RequiredCount(g, pgno);
    var w := WriteMax(g, cbMaxCoalesceWrite);
    var preferred: nat :=
      if !persisted || cpgDbExtension == 0 then required
      else if 10 * cpgDbExtension > pgno + 1 then
        var p := RequiredCount(g, 10 * cpgDbExtension - 1);
        if p >= 2 then RoundUp(required, w) else p
      else
        var p := RequiredCount(g, 2 * (pgno + 1) - 1);
        if p >= w then Max(RoundDown(p, w), required) else p;
    PlanIsNoSmaller(g, cpgDbExtension, pgno);
    var capped := if preferred > required && preferred - required > 4 * w then required + 4 * w - 1 else preferred;
    Min(capped, RequiredCount(g, PgnoSysMax))
  }

  lemma PlanIsNoSmaller(g: FmGeometry, cpgDbExtension: nat, pgno: nat)
    requires g.Valid() && pgno <= PgnoSysMax
    ensures RequiredCount(g, pgno) <= RequiredCount(g, PgnoSysMax)
    ensures 10 * cpgDbExtension > pgno + 1 ==> RequiredCount(g, pgno) <= RequiredCount(g, 10 * cpgDbExtension - 1)
    ensures RequiredCount(g, pgno) <= RequiredCount(g, 2 * (pgno + 1) - 1)
  {
    RequiredMonotone(g, pgno, PgnoSysMax);
    if 10 * cpgDbExtension > pgno + 1 {
      RequiredMonotone(g, pgno, 10 * cpgDbExtension - 1);
    }
    RequiredMonotone(g, pgno, 2 * (pgno + 1) - 1);
  }

  /**
   * The cap lets an excess of exactly four writes through: with one page per
   * write and a database of exactly four map pages, planning for twice the
   * size gives four extra pages.
   */
  lemma PreferredReachesFourWrites()
    ensures var g := FmGeometry(8192, 32, 2);
      && g.Valid()
      && PreferredCount(g, true, 1, 8192, 4 * 32640 - 1) == RequiredCount(g, 4 * 32640 - 1) + 4 * WriteMax(g, 8192)
  {
    var g := FmGeometry(8192, 32, 2);
    assert g.PagesPerFmPage() == 32640;
    assert RequiredCount(g, 4 * 32640 - 1) == 4;
    assert RequiredCount(g, 8 * 32640 - 1) == 8;
    assert WriteMax(g, 8192) == 1;
  }
}
