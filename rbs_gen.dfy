// Generation-level helpers of the revert snapshot (RBS): the hexadecimal
// generation id in file and directory names, the database/snapshot signature
// check, record positions, the checks a generation header must pass when it
// is loaded, the log range the attached databases still need, the attach
// table kept in the generation header, the logs-copied flags and the
// init-or-roll decision of ErrRBSInit.
module RbsGen {
  import opened Jet

  // ---------------------------------------------------------------------
  // RBSSzIdAppend
  // ---------------------------------------------------------------------

  /** rgwchRBSFileDigits: the digit table, whose size is the base (lRBSFileBase). */
  const FileDigits: seq<char> := ['0', '1', '2', '3', '4', '5', '6', '7', '8', '9', 'A', 'B', 'C', 'D', 'E', 'F']

  /** cchRBSDigits. */
  const CchDigits: nat := 8

  function Pow16(n: nat): (p: nat)
    ensures p >= 1
  {
    if n == 0 then 1 else 16 * Pow16(n - 1)
  }

  /** The n lowest base-16 digits of v, most significant first. */
  function HexId(v: nat, n: nat): (s: seq<char>)
    ensures |s| == n
    ensures forall i :: 0 <= i < n ==> s[i] in FileDigits
  {
    if n == 0 then [] else HexId(v / 16, n - 1) + [FileDigits[v % 16]]
  }

  /** The value of a digit of the table (its index). */
  function DigitValue(c: char): (d: nat)
    ensures d < 16
    ensures c in FileDigits ==> FileDigits[d] == c
  {
    if c == '0' then 0 else if c == '1' then 1 else if c == '2' then 2 else if c == '3' then 3
    else if c == '4' then 4 else if c == '5' then 5 else if c == '6' then 6 else if c == '7' then 7
    else if c == '8' then 8 else if c == '9' then 9 else if c == 'A' then 10 else if c == 'B' then 11
    else if c == 'C' then 12 else if c == 'D' then 13 else if c == 'E' then 14 else if c == 'F' then 15
    else 0
  }

  /** Reading a digit string back in base 16. */
  function ParseHex(s: seq<char>): nat
  {
    if s == [] then 0 else 16 * ParseHex(s[..|s| - 1]) + DigitValue(s[|s| - 1])
  }

  lemma DigitRoundTrip(d: nat)
    requires d < 16
    ensures DigitValue(FileDigits[d]) == d
  {
  }

  /** Reading back the n digits HexId writes yields v modulo 16^n. */
  lemma {:induction false} ParseHexId(v: nat, n: nat)
    ensures ParseHex(HexId(v, n)) == v % Pow16(n)
  {
    if n > 0 {
      var s := HexId(v, n);
      assert s[..|s| - 1] == HexId(v / 16, n - 1);
      ParseHexId(v / 16, n - 1);
      DigitRoundTrip(v % 16);
      ModSplit(v, Pow16(n - 1));
    }
  }

  /** v mod 16k, from the last digit and the rest. */
  lemma ModSplit(v: nat, k: nat)
    requires k >= 1
    ensures v % (16 * k) == 16 * ((v / 16) % k) + v % 16
  {
    var q := v / 16;
    assert v == 16 * q + v % 16;
    assert q == k * (q / k) + q % k;
    assert v == (16 * k) * (q / k) + (16 * (q % k) + v % 16);
    DivModUnique(v, 16 * k, q / k, 16 * (q % k) + v % 16);
  }

  lemma DivModUnique(v: nat, m: nat, q: nat, r: nat)
    requires m > 0 && r < m && v == m * q + r
    ensures v / m == q && v % m == r
  {
    var q', r' := v / m, v % m;
    assert v == m * q' + r';
    if q' > q {
      assert m * q' >= m * (q + 1) by { MulMono(q + 1, q', m); }
    } else if q' < q {
      assert m * q >= m * (q' + 1) by { MulMono(q' + 1, q, m); }
    }
  }

  lemma MulMono(a: nat, b: nat, m: nat)
    requires a <= b
    ensures m * a <= m * b
  {
  }

  /** A generation below 16^8 is written in full and reads back unchanged. */
  lemma HexIdRoundTrip(gen: nat)
    requires gen < Pow16(CchDigits)
    ensures |HexId(gen, CchDigits)| == CchDigits
    ensures ParseHex(HexId(gen, CchDigits)) == gen
  {
    ParseHexId(gen, CchDigits);
    DivModUnique(gen, Pow16(CchDigits), 0, gen);
  }

  /** wcslen: the position of the first NUL, or the buffer length when there is none. */
  function Wcslen(s: seq<char>): (n: nat)
    ensures n <= |s|
    ensures n < |s| ==> s[n] == '\0'
    ensures forall i :: 0 <= i < n ==> s[i] != '\0'
  {
    if s == [] || s[0] == '\0' then 0 else 1 + Wcslen(s[1..])
  }

  /** Ending the digits written over b0 after its first base characters with a NUL. */
  lemma NulAfterDigits(pre: seq<char>, b0: seq<char>, base: nat, digits: seq<char>)
    requires |digits| == CchDigits && base + CchDigits < |pre| == |b0|
    requires pre[..base] == b0[..base] && pre[base..base + CchDigits] == digits
    requires pre[base + CchDigits..] == b0[base + CchDigits..]
    ensures pre[base + CchDigits := '\0'] == b0[..base] + digits + ['\0'] + b0[base + CchDigits + 1..]
  {
    var r := b0[..base] + digits + ['\0'] + b0[base + CchDigits + 1..];
    forall i | 0 <= i < |pre|
      ensures pre[base + CchDigits := '\0'][i] == r[i]
    {
      if i < base {
        assert pre[..base][i] == b0[..base][i];
      } else if i < base + CchDigits {
        assert pre[base..base + CchDigits][i - base] == digits[i - base];
      } else if i > base + CchDigits {
        assert pre[base + CchDigits..][i - base - CchDigits] == b0[base + CchDigits..][i - base - CchDigits];
      }
    }
  }

  /**
   * RBSSzIdAppend: when the cbFName-byte buffer has room for eight more
   * characters and a NUL after the string it holds, the low eight base-16
   * digits of the generation are written after the string, most significant
   * first, followed by a NUL; everything before them and after the NUL is left
   * as it was. Otherwise nothing is written.
   */
  method SzIdAppend(buf: array<char>, cbFName: nat, gen: nat)
    requires cbFName <= 2 * buf.Length
    modifies buf
    ensures var base := Wcslen(old(buf[..]));
      if 2 * (CchDigits + base + 1) > cbFName then buf[..] == old(buf[..])
      else buf[..] == old(buf[..base]) + HexId(gen, CchDigits) + ['\0'] + old(buf[base + CchDigits + 1..])
  {
    var base := Wcslen(buf[..]);
    if 2 * (CchDigits + base + 1) > cbFName {
      return;
    }
    ghost var b0 := buf[..];
    var ich := CchDigits + base;
    var rest := gen;
    while ich > base
      invariant base <= ich <= base + CchDigits
      invariant HexId(gen, CchDigits) == HexId(rest, ich - base) + buf[ich..base + CchDigits]
      invariant buf[..ich] == b0[..ich]
      invariant buf[base + CchDigits..] == b0[base + CchDigits..]
      decreases ich
    {
      ghost var digits := buf[ich..base + CchDigits];
      ich := ich - 1;
      buf[ich] := FileDigits[rest % 16];
      assert buf[ich..base + CchDigits] == [FileDigits[rest % 16]] + digits;
      rest := rest / 16;
    }
    ghost var pre := buf[..];
    buf[base + CchDigits] := '\0';
    NulAfterDigits(pre, b0, base, HexId(gen, CchDigits));
  }

  // ---------------------------------------------------------------------
  // FRBSCheckForDbConsistency, CmpRbspos
  // ---------------------------------------------------------------------

  /**
   * FRBSCheckForDbConsistency: a database belongs with a snapshot when the
   * database-header flush signature it holds is set and equals the snapshot's
   * copy of it, or the snapshot-header flush signature it holds is set and
   * equals the snapshot's own.
   */
  predicate CheckForDbConsistency(
    signDbHdrFlushFromDb: Signature, signRBSHdrFlushFromDb: Signature,
    signDbHdrFlushFromRBS: Signature, signRBSHdrFlushFromRBS: Signature)
  {
    || (signDbHdrFlushFromDb.IsSet() && signDbHdrFlushFromDb == signDbHdrFlushFromRBS)
    || (signRBSHdrFlushFromDb.IsSet() && signRBSHdrFlushFromDb == signRBSHdrFlushFromRBS)
  }

  /**
   * The four cases of the unit test: two fresh signatures d and r; nothing
   * matches while the database's copies are unset or point elsewhere, and
   * one set, equal pair is enough.
   */
  lemma ConsistencyUnitCases(d: Signature, r: Signature)
    requires d.IsSet() && r.IsSet() && d != r
    ensures !CheckForDbConsistency(NullSignature, NullSignature, NullSignature, NullSignature)
    ensures !CheckForDbConsistency(d, NullSignature, NullSignature, r)
    ensures CheckForDbConsistency(d, r, NullSignature, r)
    ensures CheckForDbConsistency(d, NullSignature, d, r)
  {
  }

  /** A match needs a set signature on the database side that the snapshot carries too. */
  lemma ConsistencyNeedsSetMatch(a: Signature, b: Signature, c: Signature, e: Signature)
    ensures CheckForDbConsistency(a, b, c, e) <==> (a.IsSet() && a == c) || (b.IsSet() && b == e)
    ensures !a.IsSet() && !b.IsSet() ==> !CheckForDbConsistency(a, b, c, e)
  {
  }

  /** RBS_POS, declared { iSegment, lGeneration }. */
  datatype RbsPos = RbsPos(iSegment: nat, lGeneration: int)

  /** CmpRbspos: positions ordered by generation, then by segment. */
  function CmpRbspos(a: RbsPos, b: RbsPos): (c: int)
    ensures c == 0 <==> a == b
    ensures c < 0 <==> a.lGeneration < b.lGeneration || (a.lGeneration == b.lGeneration && a.iSegment < b.iSegment)
    ensures -1 <= c <= 1
  {
    if a.lGeneration != b.lGeneration then (if a.lGeneration < b.lGeneration then -1 else 1)
    else if a.iSegment != b.iSegment then (if a.iSegment < b.iSegment then -1 else 1)
    else 0
  }

  /** The comparison is a total order: antisymmetric and transitive. */
  lemma CmpRbsposOrder(a: RbsPos, b: RbsPos, c: RbsPos)
    ensures CmpRbspos(a, b) == -CmpRbspos(b, a)
    ensures CmpRbspos(a, b) <= 0 && CmpRbspos(b, c) <= 0 ==> CmpRbspos(a, c) <= 0
    ensures CmpRbspos(a, b) < 0 && CmpRbspos(b, c) <= 0 ==> CmpRbspos(a, c) < 0
  {
  }

  /** The unit test: { segment, generation } pairs, where the generation decides first. */
  lemma CmpRbsposUnitCases()
    ensures var p1, p2, p3, p4 := RbsPos(10, 10), RbsPos(20, 10), RbsPos(10, 20), RbsPos(30, 20);
      && CmpRbspos(p1, p1) == 0
      && CmpRbspos(p1, p2) < 0 && CmpRbspos(p2, p1) > 0
      && CmpRbspos(p2, p3) < 0 && CmpRbspos(p3, p2) > 0
      && CmpRbspos(p1, p3) < 0 && CmpRbspos(p3, p1) > 0
      && CmpRbspos(p1, p4) < 0 && CmpRbspos(p4, p1) > 0
  {
  }

  // ---------------------------------------------------------------------
  // The generation header and ErrRBSLoadRbsGen
  // ---------------------------------------------------------------------

  /** One slot of the attach table in the generation header (RBSATTACHINFO). */
  datatype AttachInfo = AttachInfo(
    present: bool,
    name: seq<char>,
    dbtimeDirtied: int,
    dbtimePrevDirtied: int,
    lGenMinRequired: int,
    lGenMaxRequired: int,
    signDb: Signature,
    signDbHdrFlush: Signature)

  const EmptySlot := AttachInfo(false, [], 0, 0, 0, 0, NullSignature, NullSignature)

  /** The RBSFILEHDR fields the modelled rules read. */
  datatype RbsFileHeader = RbsFileHeader(
    lGeneration: int,
    tmCreate: LogTime,
    tmPrevGen: LogTime,
    ulMajor: nat,
    ulMinor: nat,
    filetype: nat,
    signRBSHdrFlush: Signature,
    attach: seq<AttachInfo>)

  /** JET_filetypeSnapshot and the version this build writes (ulRBSVersionMajor, ulRBSVersionMinor). */
  datatype RbsVersions = RbsVersions(filetypeSnapshot: nat, major: nat, minor: nat)

  /** The header is one this build accepts. */
  predicate HeaderAcceptable(h: RbsFileHeader, v: RbsVersions)
  {
    h.filetype == v.filetypeSnapshot && h.ulMajor == v.major && h.ulMinor <= v.minor && h.signRBSHdrFlush.IsSet()
  }

  /**
   * ErrRBSLoadRbsGen after the shadowed header was read (readErr is what the
   * open and the read returned): wrong file type, then an unknown version,
   * then an unset flush signature, each with its own error.
   */
  function LoadRbsGen(readErr: Code, h: RbsFileHeader, v: RbsVersions): (err: Code)
    ensures readErr != Success ==> err == readErr
    ensures readErr == Success ==> (err == Success <==> HeaderAcceptable(h, v))
    ensures readErr == Success && h.filetype != v.filetypeSnapshot ==> err == FileInvalidType
    ensures err == BadRBSVersion && readErr == Success ==> h.ulMajor != v.major || h.ulMinor > v.minor
    ensures err == RBSInvalidSign && readErr == Success ==> !h.signRBSHdrFlush.IsSet()
  {
    if readErr != Success then readErr
    else if h.filetype != v.filetypeSnapshot then FileInvalidType
    else if h.ulMajor != v.major || h.ulMinor > v.minor then BadRBSVersion
    else if !h.signRBSHdrFlush.IsSet() then RBSInvalidSign
    else Success
  }

  // ---------------------------------------------------------------------
  // RBSLoadRequiredGenerationFromFMP
  // ---------------------------------------------------------------------

  /** lMax and lMin, the LONG limits the fold starts from. */
  const LMax: int := 0x7fff_ffff
  const LMin: int := -0x8000_0000

  /** A user database slot: whether it is attached with a header, its state and its required log range. */
  datatype DbSlot = DbSlot(attached: bool, state: DbState, lGenMinRequired: int, lGenMaxRequired: int)

  /** The databases whose logs the snapshot needs: attached and dirty. */
  predicate NeedsLogs(d: DbSlot)
  {
    d.attached && (d.state == DirtyShutdown || d.state == DirtyAndPatchedShutdown)
  }

  predicate InLongRange(dbs: seq<DbSlot>)
  {
    forall i :: 0 <= i < |dbs| ==> LMin <= dbs[i].lGenMinRequired <= LMax && LMin <= dbs[i].lGenMaxRequired <= LMax
  }

  /** The lowest lGenMinRequired over the databases that need logs, starting from lMax. */
  function LowFold(dbs: seq<DbSlot>): int
  {
    if dbs == [] then LMax
    else
      var rest := LowFold(dbs[..|dbs| - 1]);
      var d := dbs[|dbs| - 1];
      if NeedsLogs(d) && d.lGenMinRequired < rest then d.lGenMinRequired else rest
  }

  /** The highest lGenMaxRequired over the databases that need logs, starting from lMin. */
  function HighFold(dbs: seq<DbSlot>): int
  {
    if dbs == [] then LMin
    else
      var rest := HighFold(dbs[..|dbs| - 1]);
      var d := dbs[|dbs| - 1];
      if NeedsLogs(d) && d.lGenMaxRequired > rest then d.lGenMaxRequired else rest
  }

  predicate AnyNeedsLogs(dbs: seq<DbSlot>)
  {
    exists i :: 0 <= i < |dbs| && NeedsLogs(dbs[i])
  }

  /** The fold is the minimum: no dirty database needs less, and one of them needs exactly that. */
  lemma {:induction false} LowFoldIsMin(dbs: seq<DbSlot>)
    requires InLongRange(dbs)
    ensures forall i :: 0 <= i < |dbs| && NeedsLogs(dbs[i]) ==> LowFold(dbs) <= dbs[i].lGenMinRequired
    ensures AnyNeedsLogs(dbs) ==> exists i :: 0 <= i < |dbs| && NeedsLogs(dbs[i]) && LowFold(dbs) == dbs[i].lGenMinRequired
    ensures !AnyNeedsLogs(dbs) ==> LowFold(dbs) == LMax
  {
    if dbs != [] {
      var init := dbs[..|dbs| - 1];
      assert InLongRange(init) by {
        forall i | 0 <= i < |init| ensures LMin <= init[i].lGenMinRequired <= LMax && LMin <= init[i].lGenMaxRequired <= LMax {
          assert init[i] == dbs[i];
        }
      }
      LowFoldIsMin(init);
      forall i | 0 <= i < |init| ensures init[i] == dbs[i] { }
      if AnyNeedsLogs(dbs) && !NeedsLogs(dbs[|dbs| - 1]) {
        var j :| 0 <= j < |dbs| && NeedsLogs(dbs[j]);
        assert NeedsLogs(init[j]);
      }
    }
  }

  lemma {:induction false} HighFoldIsMax(dbs: seq<DbSlot>)
    requires InLongRange(dbs)
    ensures forall i :: 0 <= i < |dbs| && NeedsLogs(dbs[i]) ==> HighFold(dbs) >= dbs[i].lGenMaxRequired
    ensures AnyNeedsLogs(dbs) ==> exists i :: 0 <= i < |dbs| && NeedsLogs(dbs[i]) && HighFold(dbs) == dbs[i].lGenMaxRequired
    ensures !AnyNeedsLogs(dbs) ==> HighFold(dbs) == LMin
  {
    if dbs != [] {
      var init := dbs[..|dbs| - 1];
      assert InLongRange(init) by {
        forall i | 0 <= i < |init| ensures LMin <= init[i].lGenMinRequired <= LMax && LMin <= init[i].lGenMaxRequired <= LMax {
          assert init[i] == dbs[i];
        }
      }
      HighFoldIsMax(init);
      forall i | 0 <= i < |init| ensures init[i] == dbs[i] { }
      if AnyNeedsLogs(dbs) && !NeedsLogs(dbs[|dbs| - 1]) {
        var j :| 0 <= j < |dbs| && NeedsLogs(dbs[j]);
        assert NeedsLogs(init[j]);
      }
    }
  }

  /**
   * RBSLoadRequiredGenerationFromFMP: over the user databases, the lowest
   * lGenMinRequired and the highest lGenMaxRequired of those attached in a
   * dirty state; both 0 when there is none.
   */
  method LoadRequiredGenerationFromFMP(dbs: seq<DbSlot>) returns (low: int, high: int)
    ensures AnyNeedsLogs(dbs) ==> low == LowFold(dbs) && high == HighFold(dbs)
    ensures !AnyNeedsLogs(dbs) ==> low == 0 && high == 0
  {
    var lgenLow := LMax;
    var lgenHigh := LMin;
    var found := false;
    low, high := 0, 0;
    var i := 0;
    while i < |dbs|
      invariant 0 <= i <= |dbs|
      invariant lgenLow == LowFold(dbs[..i]) && lgenHigh == HighFold(dbs[..i])
      invariant found <==> AnyNeedsLogs(dbs[..i])
    {
      assert dbs[..i + 1][..i] == dbs[..i];
      var d := dbs[i];
      if NeedsLogs(d) {
        found := true;
        assert NeedsLogs(dbs[..i + 1][i]);
        if d.lGenMinRequired < lgenLow {
          lgenLow := d.lGenMinRequired;
        }
        if d.lGenMaxRequired > lgenHigh {
          lgenHigh := d.lGenMaxRequired;
        }
      } else if found {
        var j :| 0 <= j < i && NeedsLogs(dbs[..i][j]);
        assert dbs[..i + 1][j] == dbs[..i][j];
      } else {
        var next := dbs[..i + 1];
        assert !AnyNeedsLogs(next) by {
          forall j | 0 <= j < |next| ensures !NeedsLogs(next[j]) {
            if j < i { assert next[j] == dbs[..i][j]; }
          }
        }
      }
      i := i + 1;
    }
    assert dbs[..|dbs|] == dbs;
    if found {
      low, high := lgenLow, lgenHigh;
    }
  }

  // ---------------------------------------------------------------------
  // The attach table
  // ---------------------------------------------------------------------

  /** The outcome of filling a slot: the status and the slot as it is left. */
  datatype SlotResult = SlotResult(err: Code, slot: AttachInfo)

  /**
   * ErrRBSInitAttachInfo: every field is set (present, dirtied 0, the given
   * previous dirtied time, log range and signatures) before the name is
   * copied; a name (with its NUL) longer than the cbName-byte field fails
   * with BufferTooSmall and leaves the old name in a slot already marked
   * present.
   */
  function InitAttachInfo(slot: AttachInfo, name: seq<char>, cbName: nat, lGenMin: int, lGenMax: int,
                          dbtimePrevDirtied: int, signDb: Signature, signDbHdrFlush: Signature): (r: SlotResult)
    ensures r.slot.present && r.slot.dbtimeDirtied == 0 && r.slot.dbtimePrevDirtied == dbtimePrevDirtied
    ensures r.slot.lGenMinRequired == lGenMin && r.slot.lGenMaxRequired == lGenMax
    ensures r.slot.signDb == signDb && r.slot.signDbHdrFlush == signDbHdrFlush
    ensures r.err == Success <==> 2 * (|name| + 1) <= cbName
    ensures r.err != Success ==> r.err == BufferTooSmall && r.slot.name == slot.name
    ensures r.err == Success ==> r.slot.name == name
  {
    var filled := AttachInfo(true, slot.name, 0, dbtimePrevDirtied, lGenMin, lGenMax, signDb, signDbHdrFlush);
    if 2 * (|name| + 1) > cbName then SlotResult(BufferTooSmall, filled)
    else SlotResult(Success, filled.(name := name))
  }

  /**
   * Where the search of ErrRBSFindAttachInfoForDBName stops: the first slot
   * that is empty or carries the name, or the end of the table.
   */
  function FindIndex(table: seq<AttachInfo>, name: seq<char>): (i: nat)
    ensures i <= |table|
    ensures forall j :: 0 <= j < i ==> table[j].present && table[j].name != name
    ensures i < |table| ==> !table[i].present || table[i].name == name
  {
    if table == [] || !table[0].present || table[0].name == name then 0
    else 1 + FindIndex(table[1..], name)
  }

  /** The name is in the table: the search stops on a present slot carrying it. */
  predicate Found(table: seq<AttachInfo>, name: seq<char>)
  {
    var i := FindIndex(table, name);
    i < |table| && table[i].present
  }

  /**
   * ErrRBSFindAttachInfoForDBName: walks the slots while they are present,
   * returning the slot with the name, or errRBSAttachInfoNotFound together
   * with the position where the walk stopped (the first free slot).
   */
  method FindAttachInfo(table: seq<AttachInfo>, name: seq<char>) returns (err: Code, i: nat)
    ensures i == FindIndex(table, name)
    ensures err == Success <==> Found(table, name)
    ensures err != Success ==> err == RBSAttachInfoNotFound
    ensures err == Success ==> table[i].name == name
  {
    i := 0;
    var found := false;
    while i < |table| && table[i].present
      invariant i <= |table|
      invariant forall j :: 0 <= j < i ==> table[j].present && table[j].name != name
      invariant !found
    {
      if table[i].name == name {
        found := true;
        break;
      }
      i := i + 1;
    }
    FindIndexIsFirst(table, name, i);
    err := if found then Success else RBSAttachInfoNotFound;
  }

  /** FindIndex is the first slot that is free or carries the name. */
  lemma {:induction false} FindIndexIsFirst(table: seq<AttachInfo>, name: seq<char>, i: nat)
    requires i <= |table|
    requires forall j :: 0 <= j < i ==> table[j].present && table[j].name != name
    requires i < |table| ==> !table[i].present || table[i].name == name
    ensures FindIndex(table, name) == i
    decreases i
  {
    if i > 0 {
      assert table[0].present && table[0].name != name;
      forall j | 0 <= j < i - 1 ensures table[1..][j].present && table[1..][j].name != name {
        assert table[1..][j] == table[j + 1];
      }
      FindIndexIsFirst(table[1..], name, i - 1);
    }
  }

  /**
   * ErrRBSRollAttachInfo: the new slot carries, as its previous dirtied time,
   * the dirtied time the previous generation recorded for the database; 0
   * when that generation is not valid or does not list the database.
   */
  function RollAttachInfo(fPrevRBSValid: bool, prev: seq<AttachInfo>, slot: AttachInfo, name: seq<char>, cbName: nat,
                          lGenMin: int, lGenMax: int, signDb: Signature, signDbHdrFlush: Signature): (r: SlotResult)
    ensures r.slot.dbtimeDirtied == 0
    ensures r.slot.dbtimePrevDirtied ==
      if fPrevRBSValid && Found(prev, name) then prev[FindIndex(prev, name)].dbtimeDirtied else 0
    ensures r.err == Success ==> r.slot.present && r.slot.name == name
  {
    var i := FindIndex(prev, name);
    var prevDirtied := if fPrevRBSValid && i < |prev| && prev[i].present then prev[i].dbtimeDirtied else 0;
    InitAttachInfo(slot, name, cbName, lGenMin, lGenMax, prevDirtied, signDb, signDbHdrFlush)
  }

  /** The database being attached: its name, state and header fields. */
  datatype AttachingDb = AttachingDb(name: seq<char>, state: DbState, lGenMinRequired: int, lGenMaxRequired: int,
                                     signDb: Signature, signDbHdrFlush: Signature)

  /**
   * What ErrRBSRecordDbAttach does to the attach table: the table after the
   * call, the status, and whether the snapshot was invalidated.
   */
  datatype AttachResult = AttachResult(err: Code, table: seq<AttachInfo>, invalidated: bool)

  /**
   * The attach path of ErrRBSRecordDbAttach, up to the header write: an
   * invalidated snapshot, or a database already in the table, changes
   * nothing; a new database that is not freshly created or cleanly shut down
   * invalidates the snapshot; otherwise it goes into the first free slot, or
   * fails with BufferTooSmall when the walk ran to the end of the table.
   */
  function RecordDbAttach(fInvalid: bool, table: seq<AttachInfo>, db: AttachingDb, cbName: nat): (r: AttachResult)
    ensures |r.table| == |table|
    ensures fInvalid || Found(table, db.name) ==> r == AttachResult(Success, table, false)
    ensures r.invalidated <==> !fInvalid && !Found(table, db.name) && db.state != JustCreated && db.state != CleanShutdown
    ensures !fInvalid && !Found(table, db.name) && !r.invalidated && FindIndex(table, db.name) == |table| ==>
      r == AttachResult(BufferTooSmall, table, false)
    ensures !fInvalid && r.err == Success && !Found(table, db.name) && !r.invalidated ==> FindIndex(table, db.name) < |table|
  {
    var i := FindIndex(table, db.name);
    if fInvalid then AttachResult(Success, table, false)
    else if i < |table| && table[i].present then AttachResult(Success, table, false)
    else if db.state != JustCreated && db.state != CleanShutdown then AttachResult(Success, table, true)
    else if i >= |table| then AttachResult(BufferTooSmall, table, false)
    else
      var s := InitAttachInfo(table[i], db.name, cbName, db.lGenMinRequired, db.lGenMaxRequired, 0, db.signDb, db.signDbHdrFlush);
      AttachResult(s.err, table[i := s.slot], false)
  }

  /**
   * A database recorded in a free slot is found there afterwards, with its
   * log range and signatures; the other slots are unchanged.
   */
  lemma RecordThenFind(table: seq<AttachInfo>, db: AttachingDb, cbName: nat)
    requires !Found(table, db.name)
    requires RecordDbAttach(false, table, db, cbName).err == Success && !RecordDbAttach(false, table, db, cbName).invalidated
    ensures var r := RecordDbAttach(false, table, db, cbName);
      var i := FindIndex(table, db.name);
      && i < |table| && Found(r.table, db.name) && FindIndex(r.table, db.name) == i
      && r.table[i].lGenMinRequired == db.lGenMinRequired && r.table[i].lGenMaxRequired == db.lGenMaxRequired
      && r.table[i].signDb == db.signDb && r.table[i].dbtimePrevDirtied == 0
      && (forall j :: 0 <= j < |table| && j != i ==> r.table[j] == table[j])
  {
    var r := RecordDbAttach(false, table, db, cbName);
    var i := FindIndex(table, db.name);
    FindIndexIsFirst(r.table, db.name, i);
  }

  // ---------------------------------------------------------------------
  // ErrRBSSetRequiredLogs, ErrRBSCopyRequiredLogs
  // ---------------------------------------------------------------------

  /** The logs-copied fields of the current generation's header. */
  class LogsCopied {
    /** bLogsCopied. */
    var copied: bool
    /** le_lGenMinLogCopied, le_lGenMaxLogCopied. */
    var lGenMin: int
    var lGenMax: int

    constructor(copied0: bool, min0: int, max0: int)
      ensures copied == copied0 && lGenMin == min0 && lGenMax == max0
    {
      copied := copied0;
      lGenMin := min0;
      lGenMax := max0;
    }

    /**
     * ErrRBSSetRequiredLogs: records the required range [low, high] (computed
     * by the caller from the attached databases or the restore map) once,
     * only while no logs have been copied and no range was recorded; writing
     * the header returns writeErr.
     */
    method SetRequiredLogs(initialized: bool, low: int, high: int, writeErr: Code) returns (err: Code)
      modifies this
      ensures copied == old(copied)
      ensures if !initialized || old(copied) || old(lGenMin) > 0 then
          err == Success && lGenMin == old(lGenMin) && lGenMax == old(lGenMax)
        else
          err == writeErr && lGenMin == low && lGenMax == high
    {
      if !initialized || copied || lGenMin > 0 {
        return Success;
      }
      lGenMin := low;
      lGenMax := high;
      err := writeErr;
    }

    /**
     * ErrRBSCopyRequiredLogs: once the logs were copied nothing happens.
     * Otherwise the range is recorded first when none is (lGenMin == 0), the
     * logs of the recorded range are copied (copyErr), and only then is the
     * copied flag set and the header written (writeErr).
     */
    method CopyRequiredLogs(initialized: bool, low: int, high: int, setWriteErr: Code, copyErr: Code, writeErr: Code)
      returns (err: Code, range: Option<(int, int)>)
      modifies this
      ensures !initialized || old(copied) ==>
        err == Success && range == None && copied == old(copied) && lGenMin == old(lGenMin) && lGenMax == old(lGenMax)
      ensures old(copied) ==> copied
      ensures copied && !old(copied) ==> range == Some((lGenMin, lGenMax)) && copyErr == Success
      ensures initialized && !old(copied) && old(lGenMin) != 0 ==> lGenMin == old(lGenMin) && lGenMax == old(lGenMax)
      ensures initialized && !old(copied) && old(lGenMin) == 0 && setWriteErr == Success ==> range == Some((low, high))
      ensures err == Success && initialized ==> copied
    {
      range := None;
      if !initialized || copied {
        return Success, None;
      }
      if lGenMin == 0 {
        err := SetRequiredLogs(initialized, low, high, setWriteErr);
        if err != Success {
          return;
        }
      }
      range := Some((lGenMin, lGenMax));
      if copyErr != Success {
        return copyErr, range;
      }
      copied := true;
      err := writeErr;
    }
  }

  // ---------------------------------------------------------------------
  // ErrRBSInit
  // ---------------------------------------------------------------------

  /** A header read that ErrRBSInit answers by starting a new generation. */
  predicate HeaderUnusable(err: Code)
  {
    err == ReadVerifyFailure || err == FileInvalidType || err == BadRBSVersion || err == RBSInvalidSign
  }

  /**
   * What ErrRBSInit decides: the status, the generation it ended up
   * creating or loading, or tried to create (0 when RBS is off or there is
   * no generation and none may be created; the next generation when the
   * highest one's header is unusable and none may be created), and the
   * first valid generation it last handed to the cleaner, if any.
   */
  datatype InitPlan = InitPlan(err: Code, gen: int, firstValid: Option<int>)

  /** The generation ErrRBSInit loads first: the highest on disk, or 1 when there is none. */
  function StartGen(genMax: nat): (g: nat)
    ensures g >= 1 && (genMax > 0 ==> g == genMax)
  {
    if genMax == 0 then 1 else genMax
  }

  /**
   * ErrRBSInit with the file system abstracted: enabled says RBS is on and
   * logging is not disabled; genMax is the highest generation on disk (0 when
   * none); load(g) is what creating or loading generation g returns, and
   * hasPrev(g) whether the header it leaves records a previous generation
   * (tmPrevGen set); nextActive is the segment after the last one in use
   * once it is loaded. The cleaner is told the first valid generation when
   * the highest header is unusable, and again, once initialization has
   * succeeded, when the current generation has no predecessor.
   */
  function InitDecision(enabled: bool, genMax: nat, fCreate: bool, haveCleaner: bool,
                        load: int -> Code, hasPrev: int -> bool, nextActive: nat, segmentMax: nat): (p: InitPlan)
    ensures !enabled ==> p == InitPlan(Success, 0, None)
    ensures enabled && genMax == 0 && !fCreate ==> p.err == RBSRequiredRangeTooLarge && p.gen == 0
    ensures p.err == Success && enabled ==> p.gen >= 1 && load(p.gen) == Success && nextActive <= segmentMax
    ensures p.err == Success && enabled ==>
      p.gen == StartGen(genMax) || (p.gen == StartGen(genMax) + 1 && HeaderUnusable(load(StartGen(genMax))) && fCreate)
    ensures enabled && genMax > 0 && HeaderUnusable(load(genMax)) && !fCreate ==> p.err == RBSRequiredRangeTooLarge
    ensures p.firstValid.Some? <==>
      && enabled && haveCleaner && !(genMax == 0 && !fCreate)
      && (HeaderUnusable(load(StartGen(genMax))) || (p.err == Success && !hasPrev(p.gen)))
    ensures p.firstValid.Some? ==> p.firstValid.value == p.gen
  {
    if !enabled then InitPlan(Success, 0, None)
    else if genMax == 0 && !fCreate then InitPlan(RBSRequiredRangeTooLarge, 0, None)
    else
      var g := StartGen(genMax);
      var err := load(g);
      if HeaderUnusable(err) then
        var fv := if haveCleaner then Some(g + 1) else None;
        if !fCreate then InitPlan(RBSRequiredRangeTooLarge, g + 1, fv)
        else
          var err2 := load(g + 1);
          if err2 != Success then InitPlan(err2, g + 1, fv)
          else if nextActive > segmentMax then InitPlan(OutOfRBSSpace, g + 1, fv)
          else InitPlan(Success, g + 1, if haveCleaner && !hasPrev(g + 1) then Some(g + 1) else fv)
      else if err != Success then InitPlan(err, g, None)
      else if nextActive > segmentMax then InitPlan(OutOfRBSSpace, g, None)
      else InitPlan(Success, g, if haveCleaner && !hasPrev(g) then Some(g) else None)
  }
}
