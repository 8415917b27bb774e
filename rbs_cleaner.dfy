// The retention cleaner of the revert snapshot (RBSCleaner): it decides which
// generation is the first one still usable for a revert, and on each pass it
// removes the lowest generations while they are invalid, unreadable, missing,
// too old, or while the disk is low and the snapshots use too much of it. The
// I/O operator it is given is modelled by a map from generation number to what
// the operator reports for that generation's directory.
module RbsCleaner {
  import opened Jet

  /** QWORD arithmetic wraps modulo 2^64. */
  const Qword: nat := 0x1_0000_0000_0000_0000

  /**
   * One generation directory as the I/O operator reports it: what reading its
   * header returns, the creation and previous-generation times the header
   * holds, and the size of the directory.
   */
  datatype GenDir = GenDir(hdrErr: Code, tmCreate: LogTime, tmPrevGen: LogTime, cbSize: nat)

  /** A generation with no directory: its header cannot be opened. */
  const Missing := GenDir(FileNotFound, LogTime(0), LogTime(0), 0)

  function HeaderOf(dirs: map<int, GenDir>, g: int): (d: GenDir)
    ensures g !in dirs ==> d.hdrErr == FileNotFound
  {
    if g in dirs then dirs[g] else Missing
  }

  lemma HasElement(s: set<int>)
    requires s != {}
    ensures exists x :: x in s
  {
    if forall x :: x !in s {
      assert false;
    }
  }

  ghost function MinKey(s: set<int>): (m: int)
    requires s != {}
    ensures m in s && forall k :: k in s ==> m <= k
  {
    HasElement(s);
    var x :| x in s;
    if s == {x} then x
    else
      assert forall k :: k in s ==> k == x || k in s - {x};
      var r := MinKey(s - {x});
      if x < r then x else r
  }

  ghost function MaxKey(s: set<int>): (m: int)
    requires s != {}
    ensures m in s && forall k :: k in s ==> k <= m
  {
    HasElement(s);
    var x :| x in s;
    if s == {x} then x
    else
      assert forall k :: k in s ==> k == x || k in s - {x};
      var r := MaxKey(s - {x});
      if x > r then x else r
  }

  /** The lowest and highest generation on disk, both 0 when there is none. */
  ghost function Low(dirs: map<int, GenDir>): int
  {
    if dirs == map[] then 0 else MinKey(dirs.Keys)
  }

  ghost function High(dirs: map<int, GenDir>): int
  {
    if dirs == map[] then 0 else MaxKey(dirs.Keys)
  }

  /** Generation numbers on disk are positive (they are parsed from directory names). */
  predicate PositiveGens(dirs: map<int, GenDir>)
  {
    forall k :: k in dirs ==> k >= 1
  }

  /**
   * ErrRBSGetLowestAndHighestGen_: a walk over the generation directories
   * keeping the smallest and largest number, where 0 stands for "none yet".
   */
  method LowestAndHighestGen(dirs: map<int, GenDir>) returns (lo: int, hi: int)
    requires PositiveGens(dirs)
    ensures lo == Low(dirs) && hi == High(dirs)
    ensures dirs == map[] <==> hi == 0
    ensures dirs != map[] ==> lo in dirs && hi in dirs && lo <= hi
  {
    lo, hi := 0, 0;
    var rest := dirs.Keys;
    while rest != {}
      invariant rest <= dirs.Keys
      invariant rest == dirs.Keys ==> lo == 0 && hi == 0
      invariant rest != dirs.Keys ==> lo in dirs && hi in dirs && forall k :: k in dirs && k !in rest ==> lo <= k <= hi
      decreases rest
    {
      HasElement(rest);
      var g :| g in rest;
      if g < lo || lo == 0 {
        lo := g;
      }
      if g > hi || hi == 0 {
        hi := g;
      }
      rest := rest - {g};
    }
    if dirs != map[] {
      var m, x := MinKey(dirs.Keys), MaxKey(dirs.Keys);
      assert lo <= m && m <= lo;
      assert hi <= x && x <= hi;
    }
  }

  /**
   * Generation g + 1 was rolled over from generation g: both headers read,
   * and g + 1 records g's creation time as its predecessor's.
   */
  predicate Linked(dirs: map<int, GenDir>, g: int)
  {
    var a, b := HeaderOf(dirs, g), HeaderOf(dirs, g + 1);
    a.hdrErr == Success && b.hdrErr == Success && b.tmPrevGen.IsSet() && a.tmCreate == b.tmPrevGen
  }

  /** The generations in [from, to] all read, each after from has a predecessor, and consecutive ones are linked. */
  predicate ChainFrom(dirs: map<int, GenDir>, from: int, to: int)
  {
    && (forall h :: from <= h <= to ==> HeaderOf(dirs, h).hdrErr == Success)
    && (forall h :: from < h <= to ==> HeaderOf(dirs, h).tmPrevGen.IsSet())
    && (forall h :: from <= h < to ==> Linked(dirs, h))
  }

  /**
   * The walk of ComputeFirstValidRBSGen as the source writes it, from
   * generation g down to lo with tmPrev the predecessor time read from g + 1:
   * it stops on an unreadable header, and names g itself both when g has no
   * predecessor and when g's creation time is not the one g + 1 recorded.
   */
  function FirstValidAsWritten(dirs: map<int, GenDir>, g: int, lo: int, tmPrev: LogTime): (r: Option<int>)
    ensures r.Some? ==> lo <= r.value <= g && HeaderOf(dirs, r.value).hdrErr == Success
    decreases g - lo + 1
  {
    if g < lo then None
    else
      var d := HeaderOf(dirs, g);
      if d.hdrErr != Success then None
      else if tmPrev.IsSet() && d.tmCreate != tmPrev then Some(g)
      else if !d.tmPrevGen.IsSet() then Some(g)
      else FirstValidAsWritten(dirs, g - 1, lo, d.tmPrevGen)
  }

  /**
   * Three generations where the third does not follow the second: the walk
   * as written declares the second valid although it is not linked to the
   * newest one.
   */
  lemma FirstValidAsWrittenKeepsUnlinked()
    ensures var dirs := map[1 := GenDir(Success, LogTime(10), LogTime(0), 1),
                            2 := GenDir(Success, LogTime(20), LogTime(10), 1),
                            3 := GenDir(Success, LogTime(30), LogTime(15), 1)];
      FirstValidAsWritten(dirs, 3, 1, LogTime(0)) == Some(2) && !Linked(dirs, 2)
  {
    var dirs := map[1 := GenDir(Success, LogTime(10), LogTime(0), 1),
                    2 := GenDir(Success, LogTime(20), LogTime(10), 1),
                    3 := GenDir(Success, LogTime(30), LogTime(15), 1)];
    assert HeaderOf(dirs, 3).tmPrevGen == LogTime(15);
    assert FirstValidAsWritten(dirs, 3, 1, LogTime(0)) == FirstValidAsWritten(dirs, 2, 1, LogTime(15));
  }

  /** The total size of the generations gs, as the map reports them. */
  function SumSizes(dirs: map<int, GenDir>, gs: seq<int>): nat
  {
    if gs == [] then 0 else HeaderOf(dirs, gs[0]).cbSize + SumSizes(dirs, gs[1..])
  }

  /** Reducing a QWORD counter before or after adding to it gives the same QWORD. */
  lemma WrapAdd(a: int, d: int)
    ensures (a % Qword + d) % Qword == (a + d) % Qword
  {
  }

  /** Adding to a QWORD counter c that is a reduced: the result is a plus the amount, reduced. */
  lemma WrapAddStep(c: int, a: int, d: int)
    requires c == a % Qword
    ensures (c + d) % Qword == (a + d) % Qword
  {
    WrapAdd(a, d);
  }

  /** Subtracting from a QWORD counter c that is a reduced: the result is a minus the amount, reduced. */
  lemma WrapSubStep(c: int, a: int, d: int)
    requires c == a % Qword
    ensures (c - d) % Qword == (a - d) % Qword
  {
    WrapAdd(a, -d);
  }

  // ---------------------------------------------------------------------
  // ComputeFirstValidRBSGen
  // ---------------------------------------------------------------------

  /**
   * The walk of ComputeFirstValidRBSGen from generation max down to lo, with
   * the chain break corrected: the first generation met with no predecessor
   * is the first valid one, and so is the generation just above a broken
   * link. A generation it names starts a chain of readable, linked
   * generations up to max, and is the lowest such: it has no predecessor or
   * its predecessor does not link to it. When it names none, a header in the
   * range could not be read or the whole range is linked.
   */
  method ScanFirstValid(dirs: map<int, GenDir>, lo: int, max: int) returns (r: Option<int>)
    ensures r.Some? ==> lo <= r.value <= max && ChainFrom(dirs, r.value, max)
    ensures r.Some? ==>
      !HeaderOf(dirs, r.value).tmPrevGen.IsSet() ||
      (HeaderOf(dirs, r.value - 1).hdrErr == Success && !Linked(dirs, r.value - 1))
    ensures r.None? ==>
      (exists h :: lo <= h <= max && HeaderOf(dirs, h).hdrErr != Success) || ChainFrom(dirs, lo, max)
  {
    var tmPrev := LogTime(0);
    var g := max;
    while g >= lo
      invariant g <= max
      invariant ChainFrom(dirs, g + 1, max)
      invariant g < max ==> HeaderOf(dirs, g + 1).tmPrevGen.IsSet()
      invariant tmPrev == if g < max then HeaderOf(dirs, g + 1).tmPrevGen else LogTime(0)
      decreases g - lo
    {
      var d := HeaderOf(dirs, g);
      if d.hdrErr != Success {
        return None;
      }
      if tmPrev.IsSet() && d.tmCreate != tmPrev {
        return Some(g + 1);
      }
      tmPrev := d.tmPrevGen;
      if !tmPrev.IsSet() {
        return Some(g);
      }
      g := g - 1;
    }
    return None;
  }

  // ---------------------------------------------------------------------
  // ErrDoOneCleanupPass
  // ---------------------------------------------------------------------

  /** The cleaner's configuration and clock: RBS enabled, the two disk-space limits, the maximum age and the time now, in seconds. */
  datatype Config = Config(enableRBS: bool, cbLowDiskSpace: nat, cbMaxRBSSpaceLowDiskSpace: nat, csecMaxTimeSpan: int, now: int)

  /** What the pass makes of the lowest generation on its own, before the disk-space test. */
  datatype Verdict = Remove | Keep | Stop(err: Code)

  /**
   * The lowest generation goes when it is below the first valid generation,
   * when its header is corrupt or missing, or when it was created more than
   * the maximum age ago; any other header error ends the pass.
   */
  function OwnVerdict(g: int, d: GenDir, firstValid: int, cfg: Config): (v: Verdict)
    ensures v.Stop? ==> v.err != Success && v.err != FileNotFound && v.err != ReadVerifyFailure
    ensures v == Keep ==> g >= firstValid && d.hdrErr == Success
  {
    if g < firstValid then Remove
    else if d.hdrErr == ReadVerifyFailure || d.hdrErr == FileNotFound then Remove
    else if d.hdrErr != Success then Stop(d.hdrErr)
    else if cfg.now - d.tmCreate.ticks > cfg.csecMaxTimeSpan then Remove
    else Keep
  }

  /**
   * Disk space is low and the snapshots use more than they may then; the two
   * counters are compared as the QWORDs they are, that is modulo 2^64.
   */
  predicate LowDisk(cbFree: int, cbTotal: int, cfg: Config)
  {
    cbFree % Qword < cfg.cbLowDiskSpace && cbTotal % Qword > cfg.cbMaxRBSSpaceLowDiskSpace
  }

  /** Where the removal loop of a pass ends: its status, what is left, the two counters, whether the cleaner was stopped, and what was removed in order. */
  datatype PassEnd = PassEnd(err: Code, dirs: map<int, GenDir>, cbFree: int, cbTotal: int, stopped: bool, removed: seq<int>)

  /**
   * The state the removal loop carries from one round to the next. The two
   * counters are kept here without reducing them modulo 2^64 after each
   * removal: LowDisk reduces them where they are compared, which gives the
   * same answers as the source's wrapping QWORD arithmetic (CleanupLoop wraps
   * at each step and is proved to agree).
   */
  datatype PassState = PassState(stop: bool, dirs: map<int, GenDir>, cbFree: int, cbTotal: int)

  /** One round of the loop: the pass is over, or generation lo was removed and the loop goes on from s. */
  datatype Round = Done(e: PassEnd) | Next(lo: int, s: PassState)

  lemma RemoveOneKey(dirs: map<int, GenDir>, g: int)
    requires g in dirs
    ensures |dirs - {g}| < |dirs|
  {
    assert (dirs - {g}).Keys == dirs.Keys - {g};
  }

  /**
   * One round of the removal loop of ErrDoOneCleanupPass. With RBS off and
   * nothing on disk the cleaner is stopped; with one generation or none the
   * pass is over; otherwise the lowest generation is removed when it is
   * eligible on its own or the disk is low (crediting its size to the free
   * space and taking it off the total), and the pass ends at a
   * lowest generation that stays, a header error or a failed removal.
   */
  ghost function PassRound(s: PassState, firstValid: int, cfg: Config, removeErr: int -> Code): (r: Round)
    ensures r.Done? ==> r.e.dirs == s.dirs && r.e.removed == [] && r.e.cbFree == s.cbFree && r.e.cbTotal == s.cbTotal
    ensures r.Done? ==> (r.e.stopped <==> s.stop || (!cfg.enableRBS && s.dirs == map[]))
    ensures r.Done? && r.e.err == Success && !r.e.stopped ==>
      Low(s.dirs) == High(s.dirs) ||
      (OwnVerdict(Low(s.dirs), s.dirs[Low(s.dirs)], firstValid, cfg) == Keep && !LowDisk(s.cbFree, s.cbTotal, cfg))
    ensures r.Done? && r.e.err != Success ==>
      !s.stop && Low(s.dirs) in s.dirs &&
      (OwnVerdict(Low(s.dirs), s.dirs[Low(s.dirs)], firstValid, cfg) == Stop(r.e.err) || r.e.err == removeErr(Low(s.dirs)))
    ensures r.Next? ==>
      && !s.stop && r.lo == Low(s.dirs) && r.lo in s.dirs && r.lo != High(s.dirs)
      && (OwnVerdict(r.lo, s.dirs[r.lo], firstValid, cfg) == Remove ||
          (OwnVerdict(r.lo, s.dirs[r.lo], firstValid, cfg) == Keep && LowDisk(s.cbFree, s.cbTotal, cfg)))
      && r.s == PassState(false, s.dirs - {r.lo}, s.cbFree + s.dirs[r.lo].cbSize, s.cbTotal - s.dirs[r.lo].cbSize)
  {
    if s.stop then Done(PassEnd(Success, s.dirs, s.cbFree, s.cbTotal, true, []))
    else if s.dirs == map[] then Done(PassEnd(Success, s.dirs, s.cbFree, s.cbTotal, !cfg.enableRBS, []))
    else
      var lo, hi := Low(s.dirs), High(s.dirs);
      if lo == hi then Done(PassEnd(Success, s.dirs, s.cbFree, s.cbTotal, false, []))
      else
        var v := OwnVerdict(lo, s.dirs[lo], firstValid, cfg);
        if v.Stop? then Done(PassEnd(v.err, s.dirs, s.cbFree, s.cbTotal, false, []))
        else if v == Remove || LowDisk(s.cbFree, s.cbTotal, cfg) then
          if removeErr(lo) != Success then Done(PassEnd(removeErr(lo), s.dirs, s.cbFree, s.cbTotal, false, []))
          else
            var size := s.dirs[lo].cbSize;
            Next(lo, PassState(false, s.dirs - {lo}, s.cbFree + size, s.cbTotal - size))
        else Done(PassEnd(Success, s.dirs, s.cbFree, s.cbTotal, false, []))
  }

  /** The whole removal loop: rounds until one ends the pass, collecting the generations removed. */
  ghost function Pass(s: PassState, firstValid: int, cfg: Config, removeErr: int -> Code): PassEnd
    decreases |s.dirs|
  {
    match PassRound(s, firstValid, cfg, removeErr)
    case Done(e) => e
    case Next(lo, s') =>
      RemoveOneKey(s.dirs, lo);
      var r := Pass(s', firstValid, cfg, removeErr);
      r.(removed := [lo] + r.removed)
  }

  /** A pass's end with its two counters reduced to QWORDs. */
  function Wrapped(e: PassEnd): (w: PassEnd)
    ensures 0 <= w.cbFree < Qword && 0 <= w.cbTotal < Qword
    ensures w.cbFree % Qword == e.cbFree % Qword && w.cbTotal % Qword == e.cbTotal % Qword
    ensures w.(cbFree := e.cbFree, cbTotal := e.cbTotal) == e
  {
    e.(cbFree := e.cbFree % Qword, cbTotal := e.cbTotal % Qword)
  }

  /** A pass's end with the generations pre removed before it. */
  function Prepend(pre: seq<int>, e: PassEnd): (r: PassEnd)
    ensures |r.removed| == |pre| + |e.removed| && r.removed[..|pre|] == pre && r.removed[|pre|..] == e.removed && r.(removed := e.removed) == e
  {
    e.(removed := pre + e.removed)
  }

  lemma PrependTwice(a: seq<int>, b: seq<int>, e: PassEnd)
    ensures Prepend(a, Prepend(b, e)) == Prepend(a + b, e)
  {
    assert a + (b + e.removed) == (a + b) + e.removed;
  }

  /** Pass takes one round, then goes on from where it left off. */
  lemma PassStep(s: PassState, firstValid: int, cfg: Config, removeErr: int -> Code)
    ensures PassRound(s, firstValid, cfg, removeErr).Done? ==>
      Pass(s, firstValid, cfg, removeErr) == PassRound(s, firstValid, cfg, removeErr).e
    ensures PassRound(s, firstValid, cfg, removeErr).Next? ==>
      |PassRound(s, firstValid, cfg, removeErr).s.dirs| < |s.dirs| &&
      var r := PassRound(s, firstValid, cfg, removeErr);
      Pass(s, firstValid, cfg, removeErr) == Prepend([r.lo], Pass(r.s, firstValid, cfg, removeErr))
  {
    var r := PassRound(s, firstValid, cfg, removeErr);
    if r.Next? {
      RemoveOneKey(s.dirs, r.lo);
    }
  }

  /** A round with its counters reduced to QWORDs. */
  function WrappedRound(r: Round): (w: Round)
    ensures w.Done? == r.Done? && (w.Next? ==> w.lo == r.lo && w.s.dirs == r.s.dirs)
  {
    match r
    case Done(e) => Done(Wrapped(e))
    case Next(lo, s) => Next(lo, s.(cbFree := s.cbFree % Qword, cbTotal := s.cbTotal % Qword))
  }

  /**
   * One round of the removal loop, as the source writes its body: it asks
   * the I/O operator again for the lowest and highest generation and wraps
   * the two QWORD counters at a removal. free and total are the counters
   * before they are reduced.
   */
  method CleanupRound(dirs: map<int, GenDir>, firstValid: int, cfg: Config, cbFree: int, cbTotal: int,
                      removeErr: int -> Code, ghost free: int, ghost total: int) returns (r: Round)
    requires PositiveGens(dirs) && cbFree == free % Qword && cbTotal == total % Qword
    ensures r == WrappedRound(PassRound(PassState(false, dirs, free, total), firstValid, cfg, removeErr))
  {
    ghost var spec := PassRound(PassState(false, dirs, free, total), firstValid, cfg, removeErr);
    var lo, hi := LowestAndHighestGen(dirs);
    if hi == 0 && !cfg.enableRBS {
      return Done(PassEnd(Success, dirs, cbFree, cbTotal, true, []));
    }
    if lo == hi {
      return Done(PassEnd(Success, dirs, cbFree, cbTotal, false, []));
    }
    var d := dirs[lo];
    var cleanup := lo < firstValid;
    if !cleanup {
      var err := d.hdrErr;
      if err != FileNotFound && err != Success && err != ReadVerifyFailure {
        return Done(PassEnd(err, dirs, cbFree, cbTotal, false, []));
      }
      if err == Success || err == ReadVerifyFailure {
        if err == ReadVerifyFailure {
          cleanup := true;
        } else if cfg.now - d.tmCreate.ticks > cfg.csecMaxTimeSpan {
          cleanup := true;
        }
      } else {
        cleanup := true;
      }
    }
    assert cleanup <==> OwnVerdict(lo, d, firstValid, cfg) == Remove;
    assert (cbFree < cfg.cbLowDiskSpace && cbTotal > cfg.cbMaxRBSSpaceLowDiskSpace) <==> LowDisk(free, total, cfg);
    if cleanup || (cbFree < cfg.cbLowDiskSpace && cbTotal > cfg.cbMaxRBSSpaceLowDiskSpace) {
      var size := d.cbSize;
      var err := removeErr(lo);
      if err != Success {
        return Done(PassEnd(err, dirs, cbFree, cbTotal, false, []));
      }
      WrapAddStep(cbFree, free, size);
      WrapSubStep(cbTotal, total, size);
      assert spec == Next(lo, PassState(false, dirs - {lo}, free + size, total - size));
      return Next(lo, PassState(false, dirs - {lo}, (cbFree + size) % Qword, (cbTotal - size) % Qword));
    }
    return Done(PassEnd(Success, dirs, cbFree, cbTotal, false, []));
  }

  /**
   * The removal loop of ErrDoOneCleanupPass: rounds until the cleaner is
   * stopped or a round ends the pass, collecting the generations removed.
   */
  method CleanupLoop(stop: bool, dirs0: map<int, GenDir>, firstValid: int, cfg: Config,
                     cbFree0: nat, cbTotal0: nat, removeErr: int -> Code) returns (e: PassEnd)
    requires PositiveGens(dirs0) && cbFree0 < Qword && cbTotal0 < Qword
    ensures e == Wrapped(Pass(PassState(stop, dirs0, cbFree0, cbTotal0), firstValid, cfg, removeErr))
  {
    var dirs, cbFree, cbTotal := dirs0, cbFree0, cbTotal0;
    var removed: seq<int> := [];
    ghost var free, total := cbFree0, cbTotal0;
    ghost var s0 := PassState(stop, dirs0, cbFree0, cbTotal0);
    while !stop
      invariant PositiveGens(dirs)
      invariant cbFree == free % Qword && cbTotal == total % Qword
      invariant Pass(s0, firstValid, cfg, removeErr) == Prepend(removed, Pass(PassState(stop, dirs, free, total), firstValid, cfg, removeErr))
      decreases |dirs|
    {
      ghost var cur := PassState(false, dirs, free, total);
      var r := CleanupRound(dirs, firstValid, cfg, cbFree, cbTotal, removeErr, free, total);
      PassStep(cur, firstValid, cfg, removeErr);
      if r.Done? {
        return r.e.(removed := removed);
      }
      ghost var next := PassRound(cur, firstValid, cfg, removeErr).s;
      PrependTwice(removed, [r.lo], Pass(next, firstValid, cfg, removeErr));
      dirs, cbFree, cbTotal := r.s.dirs, r.s.cbFree, r.s.cbTotal;
      free, total := next.cbFree, next.cbTotal;
      removed := removed + [r.lo];
    }
    return PassEnd(Success, dirs, cbFree, cbTotal, true, removed);
  }

  /**
   * A pass removes only the lowest generations, in increasing order, keeps the
   * others as they were, and never removes the highest.
   */
  lemma {:induction false} PassRemovesLowest(s: PassState, firstValid: int, cfg: Config, removeErr: int -> Code)
    ensures RemovesLowest(s.dirs, Pass(s, firstValid, cfg, removeErr))
    decreases |s.dirs|
  {
    match PassRound(s, firstValid, cfg, removeErr)
    case Done(e) =>
      assert Pass(s, firstValid, cfg, removeErr) == e;
    case Next(lo, s') =>
      RemoveOneKey(s.dirs, lo);
      PassRemovesLowest(s', firstValid, cfg, removeErr);
      HighAfterRemove(s.dirs, lo);
      var r := Pass(s', firstValid, cfg, removeErr);
      assert Pass(s, firstValid, cfg, removeErr) == r.(removed := [lo] + r.removed);
      LowestStep(s.dirs, lo, r);
  }

  /**
   * What is left after a pass over dirs: the generations not removed, as
   * they were; those removed were on disk, each below everything left, in
   * increasing order; and the highest generation stays.
   */
  ghost predicate RemovesLowest(dirs: map<int, GenDir>, e: PassEnd)
  {
    && (forall k :: k in e.dirs <==> k in dirs && k !in e.removed)
    && (forall k :: k in e.dirs ==> e.dirs[k] == dirs[k])
    && (forall i :: 0 <= i < |e.removed| ==> e.removed[i] in dirs && forall k :: k in e.dirs ==> e.removed[i] < k)
    && (forall i, j :: 0 <= i < j < |e.removed| ==> e.removed[i] < e.removed[j])
    && (dirs != map[] ==> High(dirs) in e.dirs)
  }

  /** Removing the lowest generation first, then what a pass over the rest removes, removes the lowest. */
  lemma LowestStep(dirs: map<int, GenDir>, lo: int, r: PassEnd)
    requires lo in dirs && lo == Low(dirs) && lo != High(dirs)
    requires dirs - {lo} != map[] && High(dirs - {lo}) == High(dirs)
    requires RemovesLowest(dirs - {lo}, r)
    ensures RemovesLowest(dirs, r.(removed := [lo] + r.removed))
  {
    LowestStepKeys(dirs, lo, r.dirs, r.removed);
    LowestStepBelow(dirs, lo, r.dirs, r.removed);
    LowestStepOrder(dirs, lo, r.removed);
  }

  lemma LowestStepKeys(dirs: map<int, GenDir>, lo: int, left: map<int, GenDir>, removed: seq<int>)
    requires forall k :: k in left <==> k in dirs - {lo} && k !in removed
    ensures forall k :: k in left <==> k in dirs && k !in [lo] + removed
  {
    forall k
      ensures k in left <==> k in dirs && k !in [lo] + removed
    {
      assert k in [lo] + removed <==> k == lo || k in removed;
    }
  }

  lemma LowestStepBelow(dirs: map<int, GenDir>, lo: int, left: map<int, GenDir>, removed: seq<int>)
    requires lo in dirs && lo == Low(dirs)
    requires forall k :: k in left ==> k in dirs - {lo}
    requires forall i :: 0 <= i < |removed| ==> removed[i] in dirs - {lo} && forall k :: k in left ==> removed[i] < k
    ensures forall i :: 0 <= i < |[lo] + removed| ==> ([lo] + removed)[i] in dirs && forall k :: k in left ==> ([lo] + removed)[i] < k
  {
    var all := [lo] + removed;
    forall i | 0 <= i < |all|
      ensures all[i] in dirs && forall k :: k in left ==> all[i] < k
    {
      if i > 0 {
        assert all[i] == removed[i - 1];
      }
    }
  }

  lemma LowestStepOrder(dirs: map<int, GenDir>, lo: int, removed: seq<int>)
    requires lo in dirs && lo == Low(dirs)
    requires forall i :: 0 <= i < |removed| ==> removed[i] in dirs - {lo}
    requires forall i, j :: 0 <= i < j < |removed| ==> removed[i] < removed[j]
    ensures forall i, j :: 0 <= i < j < |[lo] + removed| ==> ([lo] + removed)[i] < ([lo] + removed)[j]
  {
    var all := [lo] + removed;
    forall i, j | 0 <= i < j < |all|
      ensures all[i] < all[j]
    {
      assert all[j] == removed[j - 1];
      if i > 0 {
        assert all[i] == removed[i - 1];
      }
    }
  }

  /** Removing a generation other than the highest leaves the highest in place. */
  lemma HighAfterRemove(dirs: map<int, GenDir>, g: int)
    requires g in dirs && g != High(dirs)
    ensures dirs - {g} != map[] && High(dirs - {g}) == High(dirs)
  {
    var rest := dirs - {g};
    assert rest.Keys == dirs.Keys - {g};
    assert High(dirs) in rest;
    var m := MaxKey(rest.Keys);
    assert m in dirs;
  }

  /** The two counters: the sizes removed are credited to the free space and taken off the total. */
  lemma {:induction false} PassAccounting(s: PassState, firstValid: int, cfg: Config, removeErr: int -> Code)
    ensures var e := Pass(s, firstValid, cfg, removeErr);
      && e.cbFree == s.cbFree + SumSizes(s.dirs, e.removed)
      && e.cbTotal == s.cbTotal - SumSizes(s.dirs, e.removed)
    decreases |s.dirs|
  {
    match PassRound(s, firstValid, cfg, removeErr)
    case Done(e) =>
      assert Pass(s, firstValid, cfg, removeErr) == e;
    case Next(lo, s') =>
      RemoveOneKey(s.dirs, lo);
      PassAccounting(s', firstValid, cfg, removeErr);
      PassRemovesLowest(s', firstValid, cfg, removeErr);
      var r := Pass(s', firstValid, cfg, removeErr);
      assert ([lo] + r.removed)[1..] == r.removed;
      SumSizesSame(s.dirs, s'.dirs, r.removed);
  }

  /** Sizes summed over generations that two maps agree on are the same. */
  lemma {:induction false} SumSizesSame(big: map<int, GenDir>, small: map<int, GenDir>, gs: seq<int>)
    requires forall i :: 0 <= i < |gs| ==> gs[i] in small && gs[i] in big && small[gs[i]] == big[gs[i]]
    ensures SumSizes(small, gs) == SumSizes(big, gs)
  {
    if gs != [] {
      SumSizesSame(big, small, gs[1..]);
    }
  }

  /** The counters just before the i-th removal of a pass that started at s. */
  predicate RemovedFor(s: PassState, removed: seq<int>, i: int, firstValid: int, cfg: Config)
    requires 0 <= i < |removed| && removed[i] in s.dirs
  {
    var v := OwnVerdict(removed[i], s.dirs[removed[i]], firstValid, cfg);
    v == Remove ||
    (v == Keep && LowDisk(s.cbFree + SumSizes(s.dirs, removed[..i]), s.cbTotal - SumSizes(s.dirs, removed[..i]), cfg))
  }

  /**
   * Why each generation went: it was eligible on its own, or it was kept on
   * its own merits but the disk was low, with the counters as they stood
   * just before it was removed.
   */
  lemma {:induction false} PassReasons(s: PassState, firstValid: int, cfg: Config, removeErr: int -> Code)
    ensures AllRemovedFor(s, Pass(s, firstValid, cfg, removeErr).removed, firstValid, cfg)
    decreases |s.dirs|
  {
    match PassRound(s, firstValid, cfg, removeErr)
    case Done(e) =>
      assert Pass(s, firstValid, cfg, removeErr) == e;
    case Next(lo, s') =>
      RemoveOneKey(s.dirs, lo);
      PassReasons(s', firstValid, cfg, removeErr);
      var r := Pass(s', firstValid, cfg, removeErr);
      assert Pass(s, firstValid, cfg, removeErr).removed == [lo] + r.removed;
      ReasonsStep(s, s', lo, r.removed, firstValid, cfg);
  }

  /** Every generation in removed was on disk at the start and went for the reason RemovedFor gives. */
  ghost predicate AllRemovedFor(s: PassState, removed: seq<int>, firstValid: int, cfg: Config)
  {
    forall i :: 0 <= i < |removed| ==> removed[i] in s.dirs && RemovedFor(s, removed, i, firstValid, cfg)
  }

  /** A first removal for its own reason, followed by removals for theirs, are all removals for their reasons. */
  lemma ReasonsStep(s: PassState, s': PassState, lo: int, rest: seq<int>, firstValid: int, cfg: Config)
    requires lo in s.dirs
    requires OwnVerdict(lo, s.dirs[lo], firstValid, cfg) == Remove ||
             (OwnVerdict(lo, s.dirs[lo], firstValid, cfg) == Keep && LowDisk(s.cbFree, s.cbTotal, cfg))
    requires s' == PassState(false, s.dirs - {lo}, s.cbFree + s.dirs[lo].cbSize, s.cbTotal - s.dirs[lo].cbSize)
    requires AllRemovedFor(s', rest, firstValid, cfg)
    ensures AllRemovedFor(s, [lo] + rest, firstValid, cfg)
  {
    var all := [lo] + rest;
    forall i | 0 <= i < |all|
      ensures all[i] in s.dirs && RemovedFor(s, all, i, firstValid, cfg)
    {
      if i > 0 {
        ReasonShift(s, s', lo, rest, i, firstValid, cfg);
      } else {
        assert all[..0] == [];
      }
    }
  }

  /** The i-th removal of a pass is the (i-1)-th of the pass that starts after removing lo. */
  lemma ReasonShift(s: PassState, s': PassState, lo: int, rest: seq<int>, i: int, firstValid: int, cfg: Config)
    requires lo in s.dirs
    requires s' == PassState(false, s.dirs - {lo}, s.cbFree + s.dirs[lo].cbSize, s.cbTotal - s.dirs[lo].cbSize)
    requires 0 < i <= |rest|
    requires forall j :: 0 <= j < |rest| ==> rest[j] in s'.dirs
    requires rest[i - 1] in s'.dirs && RemovedFor(s', rest, i - 1, firstValid, cfg)
    ensures ([lo] + rest)[i] in s.dirs && RemovedFor(s, [lo] + rest, i, firstValid, cfg)
  {
    var all := [lo] + rest;
    var pre := rest[..i - 1];
    assert all[..i] == [lo] + pre;
    assert all[..i][1..] == pre;
    assert all[i] == rest[i - 1];
    SumSizesSame(s.dirs, s'.dirs, pre);
  }

  /**
   * How a pass ends: a successful pass that did not stop the cleaner leaves
   * one generation (or none), or a lowest generation that stays on its own
   * and with the disk not low; a failed one leaves the lowest generation in
   * place, its header error or its removal error being the status; and it
   * stops the cleaner only when RBS is off and nothing is on disk.
   */
  lemma {:induction false} PassEnds(s: PassState, firstValid: int, cfg: Config, removeErr: int -> Code)
    ensures var e := Pass(s, firstValid, cfg, removeErr);
      && (e.err == Success && !e.stopped ==>
            Low(e.dirs) == High(e.dirs) ||
            (OwnVerdict(Low(e.dirs), e.dirs[Low(e.dirs)], firstValid, cfg) == Keep && !LowDisk(e.cbFree, e.cbTotal, cfg)))
      && (e.err != Success ==>
            Low(e.dirs) in e.dirs &&
            (OwnVerdict(Low(e.dirs), e.dirs[Low(e.dirs)], firstValid, cfg) == Stop(e.err) || e.err == removeErr(Low(e.dirs))))
      && (e.stopped <==> s.stop || (!cfg.enableRBS && s.dirs == map[]))
    decreases |s.dirs|
  {
    match PassRound(s, firstValid, cfg, removeErr)
    case Done(e) =>
      assert Pass(s, firstValid, cfg, removeErr) == e;
    case Next(lo, s') =>
      RemoveOneKey(s.dirs, lo);
      PassEnds(s', firstValid, cfg, removeErr);
      assert s'.dirs != map[] by {
        assert High(s.dirs) in s'.dirs;
      }
  }

  class Cleaner {
    /** m_lFirstValidRBSGen. */
    var firstValid: int
    /** m_fValidRBSGenSet. */
    var validSet: bool
    /** m_msigRBSCleanerStop. */
    var stop: bool
    /** What the I/O operator sees on disk. */
    var dirs: map<int, GenDir>

    predicate Valid()
      reads this
    {
      PositiveGens(dirs)
    }

    /** RBSCleaner(): the first valid generation starts at 1, not yet computed. */
    constructor(dirs0: map<int, GenDir>)
      requires PositiveGens(dirs0)
      ensures Valid() && firstValid == 1 && !validSet && !stop && dirs == dirs0
    {
      firstValid := 1;
      validSet := false;
      stop := false;
      dirs := dirs0;
    }

    /** FGenValid: a generation at or above the first valid one. */
    predicate FGenValid(g: int)
      reads this
    {
      g >= firstValid
    }

    /** SetFirstValidGen: records the first valid generation and that it is known. */
    method SetFirstValidGen(g: int)
      modifies this
      ensures firstValid == g && validSet && FGenValid(g) && !FGenValid(g - 1)
      ensures stop == old(stop) && dirs == old(dirs)
    {
      firstValid := g;
      validSet := true;
    }

    /** The newest generation that ComputeFirstValidRBSGen inspects: with RBS on, the newest is the one being written. */
    ghost function TopGen(enableRBS: bool): int
      reads this
    {
      if enableRBS then High(dirs) - 1 else High(dirs)
    }

    /**
     * ComputeFirstValidRBSGen, with the chain break corrected (see
     * ScanFirstValid): once known, the first valid generation is not
     * recomputed; otherwise it is set when the walk names one.
     */
    method ComputeFirstValidRBSGen(enableRBS: bool)
      requires Valid()
      modifies this
      ensures Valid() && dirs == old(dirs) && stop == old(stop)
      ensures old(validSet) ==> validSet && firstValid == old(firstValid)
      ensures !validSet ==> firstValid == old(firstValid)
      ensures validSet && !old(validSet) ==>
        && Low(dirs) <= firstValid <= TopGen(enableRBS)
        && ChainFrom(dirs, firstValid, TopGen(enableRBS))
        && (!HeaderOf(dirs, firstValid).tmPrevGen.IsSet() ||
            (HeaderOf(dirs, firstValid - 1).hdrErr == Success && !Linked(dirs, firstValid - 1)))
      ensures !validSet ==>
        || (exists h :: Low(dirs) <= h <= TopGen(enableRBS) && HeaderOf(dirs, h).hdrErr != Success)
        || ChainFrom(dirs, Low(dirs), TopGen(enableRBS))
    {
      if validSet {
        return;
      }
      var lo, hi := LowestAndHighestGen(dirs);
      var max := if enableRBS then hi - 1 else hi;
      var r := ScanFirstValid(dirs, lo, max);
      if r.Some? {
        SetFirstValidGen(r.value);
      }
    }

    /**
     * ErrDoOneCleanupPass. The free disk space and the snapshots' total size
     * are read first (diskErr, cbFreeDisk, sizeErr, cbRootSize); then the
     * removal loop runs (Pass), each removal returning removeErr(g); at the
     * end a FileNotFound status with RBS off stops the cleaner too.
     */
    method DoOneCleanupPass(cfg: Config, diskErr: Code, cbFreeDisk: nat, sizeErr: Code, cbRootSize: nat, removeErr: int -> Code)
      returns (err: Code, ghost removed: seq<int>)
      requires Valid() && cbFreeDisk < Qword && cbRootSize < Qword
      modifies this
      ensures Valid() && firstValid == old(firstValid) && validSet == old(validSet)
      ensures diskErr != Success ==> err == diskErr && dirs == old(dirs) && removed == []
      ensures diskErr == Success && sizeErr != Success ==> err == sizeErr && dirs == old(dirs) && removed == []
      ensures diskErr == Success && sizeErr == Success ==>
        var e := Pass(PassState(old(stop), old(dirs), cbFreeDisk, cbRootSize), firstValid, cfg, removeErr);
        err == e.err && dirs == e.dirs && removed == e.removed &&
        stop == (e.stopped || (err == FileNotFound && !cfg.enableRBS))
      ensures diskErr != Success || sizeErr != Success ==> stop == (old(stop) || (err == FileNotFound && !cfg.enableRBS))
    {
      removed := [];
      if diskErr != Success {
        err := diskErr;
      } else if sizeErr != Success {
        err := sizeErr;
      } else {
        var e := CleanupLoop(stop, dirs, firstValid, cfg, cbFreeDisk, cbRootSize, removeErr);
        PassRemovesLowest(PassState(stop, dirs, cbFreeDisk, cbRootSize), firstValid, cfg, removeErr);
        err, dirs, stop, removed := e.err, e.dirs, e.stopped, e.removed;
      }
      if err == FileNotFound && !cfg.enableRBS {
        stop := true;
      }
    }
  }
}
