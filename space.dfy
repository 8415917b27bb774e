// SPACE_HEADER, the persisted header of a space tree root: the primary (or
// last allocated) extent size, the parent FDP page, a flags word whose first
// byte carries the extent-shape flags, and a 32-bit word shared between the
// single-extent availability bitmap and the owned-extent tree root page.
module Space {
  import opened Jet

  /** fSPHMultipleExtent, fSPHNonUnique and fSPHv2: bits of m_rgbSPHFlags[0]. */
  const MultipleExtent: bv8 := 0x01
  const NonUnique: bv8 := 0x02
  const V2: bv8 := 0x04

  /** The extent flags of a space tree node (fSPOwnedExtent .. fSPShelvedExtent). */
  const OwnedExtent: bv8 := 0x01
  const AvailExtent: bv8 := 0x02
  const ExtentList: bv8 := 0x04
  const ReservedExtent: bv8 := 0x08
  const ShelvedExtent: bv8 := 0x10

  /** Whether flag f is set in the flag byte b. */
  predicate HasFlag(b: bv8, f: bv8)
  {
    b & f != 0
  }

  /**
   * b |= f for a non-zero mask f: flag f becomes set, every other bit of the
   * byte keeps its value, and setting it a second time changes nothing.
   */
  function WithFlag(b: bv8, f: bv8): (r: bv8)
    requires f != 0
    ensures HasFlag(r, f)
    ensures r & !f == b & !f
    ensures r | f == r
  {
    b | f
  }

  /** The byte-wise extent-flag tests FSPOwnedExtent .. FSPShelvedExtent. */
  predicate ExtentHas(fSPExtents: bv8, f: bv8)
  {
    fSPExtents & f != 0
  }

  /** The five extent flags are distinct single bits, so each test sees only its own bit. */
  lemma ExtentFlagsDistinct(e: bv8)
    ensures ExtentHas(e | OwnedExtent, OwnedExtent) && ExtentHas(e | ShelvedExtent, ShelvedExtent)
    ensures ExtentHas(e | AvailExtent, ReservedExtent) == ExtentHas(e, ReservedExtent)
    ensures ExtentHas(e | ExtentList, AvailExtent) == ExtentHas(e, AvailExtent)
    ensures !ExtentHas(OwnedExtent | AvailExtent | ExtentList | ReservedExtent, ShelvedExtent)
  {
  }

  class SpaceHeader {
    /** m_cpgPrimary: the primary extent size (v1) or the last allocation size (v2), a CPG. */
    var cpgPrimary: int
    /** m_pgnoParent. */
    var pgnoParent: nat
    /**
     * The flags union: m_rgbSPHFlags[0], which holds every flag, and the three
     * bytes after it, which only the constructor writes (through m_ulSPHFlags).
     */
    var flags: bv8
    var flagsHigh: bv24
    /** The 32 bits shared by m_rgbitAvail and m_pgnoOE. */
    var avail: bv32

    /** SPACE_HEADER(): the whole flags word is cleared; the other fields are left as they were. */
    constructor(cpg: int, parent: nat, word: bv32)
      ensures flags == 0 && flagsHigh == 0 && cpgPrimary == cpg && pgnoParent == parent && avail == word
      ensures FSingleExtent() && FUnique() && Fv1()
    {
      cpgPrimary := cpg;
      pgnoParent := parent;
      avail := word;
      flags := 0;
      flagsHigh := 0;
    }

    /** Fv1 and Fv2 test the same bit with opposite senses. */
    predicate Fv1()
      reads this
    {
      !HasFlag(flags, V2)
    }

    function Fv2(): (b: bool)
      reads this
      ensures b == !Fv1()
    {
      HasFlag(flags, V2)
    }

    predicate FSingleExtent()
      reads this
    {
      !HasFlag(flags, MultipleExtent)
    }

    function FMultipleExtent(): (b: bool)
      reads this
      ensures b == !FSingleExtent()
    {
      HasFlag(flags, MultipleExtent)
    }

    predicate FUnique()
      reads this
    {
      !HasFlag(flags, NonUnique)
    }

    function FNonUnique(): (b: bool)
      reads this
      ensures b == !FUnique()
    {
      HasFlag(flags, NonUnique)
    }

    /** The primary extent size, meaningful only in a v1 header. */
    function CpgPrimary(): int
      reads this
      requires Fv1()
    {
      cpgPrimary
    }

    /** The last allocation size: the same field, read in a v2 header. */
    function CpgLastAlloc(): int
      reads this
      requires Fv2()
    {
      cpgPrimary
    }

    function PgnoParent(): nat
      reads this
    {
      pgnoParent
    }

    /** The availability bitmap of a single-extent tree. */
    function RgbitAvail(): bv32
      reads this
      requires FSingleExtent()
    {
      avail
    }

    /** The owned-extent tree root of a multiple-extent tree: the same 32 bits, read as a PGNO (a ULONG). */
    function PgnoOE(): bv32
      reads this
      requires FMultipleExtent()
    {
      avail
    }

    /**
     * The available-extent tree root lies on the page after the owned-extent
     * root, in 32-bit PGNO arithmetic that wraps.
     */
    function PgnoAE(): (p: bv32)
      reads this
      requires FMultipleExtent()
      ensures p - 1 == PgnoOE() && p != PgnoOE()
      ensures PgnoOE() == 0xffff_ffff ==> p == 0
    {
      avail + 1
    }

    method SetCpgPrimary(cpg: int)
      modifies this
      ensures cpgPrimary == cpg
      ensures flags == old(flags) && flagsHigh == old(flagsHigh) && avail == old(avail) && pgnoParent == old(pgnoParent)
    {
      cpgPrimary := cpg;
    }

    method SetPgnoParent(pgno: nat)
      modifies this
      ensures pgnoParent == pgno
      ensures flags == old(flags) && flagsHigh == old(flagsHigh) && avail == old(avail) && cpgPrimary == old(cpgPrimary)
    {
      pgnoParent := pgno;
    }

    method SetMultipleExtent()
      modifies this
      ensures flags == WithFlag(old(flags), MultipleExtent) && FMultipleExtent()
      ensures Fv1() == old(Fv1()) && FUnique() == old(FUnique())
      ensures flagsHigh == old(flagsHigh) && avail == old(avail) && cpgPrimary == old(cpgPrimary) && pgnoParent == old(pgnoParent)
    {
      flags := flags | MultipleExtent;
    }

    method SetNonUnique()
      modifies this
      ensures flags == WithFlag(old(flags), NonUnique) && FNonUnique()
      ensures Fv1() == old(Fv1()) && FSingleExtent() == old(FSingleExtent())
      ensures flagsHigh == old(flagsHigh) && avail == old(avail) && cpgPrimary == old(cpgPrimary) && pgnoParent == old(pgnoParent)
    {
      flags := flags | NonUnique;
    }

    /** Storing the bitmap overwrites the owned-extent root, which shares its storage. */
    method SetRgbitAvail(rgbit: bv32)
      modifies this
      ensures avail == rgbit
      ensures flags == old(flags) && flagsHigh == old(flagsHigh) && cpgPrimary == old(cpgPrimary) && pgnoParent == old(pgnoParent)
      ensures FSingleExtent() ==> RgbitAvail() == rgbit
      ensures FMultipleExtent() ==> PgnoOE() == rgbit
    {
      avail := rgbit;
    }

    /** Storing the owned-extent root (a PGNO) overwrites the bitmap. */
    method SetPgnoOE(pgno: bv32)
      modifies this
      ensures avail == pgno
      ensures flags == old(flags) && flagsHigh == old(flagsHigh) && cpgPrimary == old(cpgPrimary) && pgnoParent == old(pgnoParent)
      ensures FMultipleExtent() ==> PgnoOE() == pgno && PgnoAE() - 1 == pgno
      ensures FSingleExtent() ==> RgbitAvail() == pgno
    {
      avail := pgno;
    }

    /** Recording the last allocation size turns a v1 header into a v2 one. */
    method SetCpgLast(cpgLast: int)
      modifies this
      ensures Fv2() && CpgLastAlloc() == cpgLast
      ensures old(Fv1()) ==> flags == WithFlag(old(flags), V2)
      ensures old(Fv2()) ==> flags == old(flags)
      ensures FSingleExtent() == old(FSingleExtent()) && FUnique() == old(FUnique())
      ensures flagsHigh == old(flagsHigh) && avail == old(avail) && pgnoParent == old(pgnoParent)
    {
      if Fv1() {
        flags := flags | V2;
      }
      cpgPrimary := cpgLast;
    }
  }

  /** The status codes space allocation is expected to return, besides the storage-corruption errors. */
  const ExpectedErrors: set<Code> := {
    Success, DiskFull, LogDiskFull, OutOfDatabaseSpace, SPNoSpaceBelowShrinkTarget,
    OutOfCursors, OutOfMemory, OutOfBuffers, TransactionTooLong, DiskIO, LogWriteFail }

  /**
   * FSPExpectedError: true for success, the out-of-space and resource errors
   * and the storage-corruption errors (given as the set corruption), false for
   * every other status.
   */
  function FSPExpectedError(err: Code, corruption: set<Code>): (b: bool)
    ensures b <==> err in ExpectedErrors || err in corruption
  {
    if err in corruption then true
    else
      match err
      case Success => true
      case DiskFull => true
      case LogDiskFull => true
      case OutOfDatabaseSpace => true
      case SPNoSpaceBelowShrinkTarget => true
      case OutOfCursors => true
      case OutOfMemory => true
      case OutOfBuffers => true
      case TransactionTooLong => true
      case DiskIO => true
      case LogWriteFail => true
      case _ => false
  }
}
