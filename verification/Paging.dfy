/** Paging modes, page sizes and page-table levels (riescue/lib/enums.py), and which
    addresses share a page-table entry (RISC-V Privileged Architecture 20211203,
    sections 4.3.2 and 4.4 to 4.6). */
module Paging {
  import opened Bits
  import opened Wrappers

  datatype PagingMode = Disable | Sv32 | Sv39 | Sv48 | Sv57

  datatype PageSize = S4KB | S64KB | S4MB | S2MB | S1GB | S512GB | S256TB

  function Memory(ps: PageSize): nat {
    match ps
    case S4KB => 0x1000
    case S64KB => 0x1_0000
    case S4MB => 0x40_0000
    case S2MB => 0x20_0000
    case S1GB => 0x4000_0000
    case S512GB => 0x80_0000_0000
    case S256TB => 0x1_0000_0000_0000
  }

  function AddressMask(ps: PageSize): nat { AddressMaskFromSize(Memory(ps)) }

  function PtLeafLevel(ps: PageSize): nat {
    match ps
    case S4KB => 0
    case S64KB => 0
    case S4MB => 1
    case S2MB => 1
    case S1GB => 2
    case S512GB => 3
    case S256TB => 4
  }

  function Weight(ps: PageSize): nat {
    match ps
    case S4KB => 1000
    case S64KB => 200
    case S4MB => 200
    case S2MB => 200
    case S1GB => 100
    case S512GB => 0
    case S256TB => 0
  }

  function MaxLevels(mode: PagingMode): nat {
    match mode
    case Disable => 0
    case Sv32 => 2
    case Sv39 => 3
    case Sv48 => 4
    case Sv57 => 5
  }

  /** The (high, low) bit positions of a level's index; None where the source raises. */
  function IndexBits(mode: PagingMode, level: int): Option<(nat, nat)> {
    if mode == Disable then None
    else if mode == Sv32 then
      if level == 0 then Some((21, 12)) else if level == 1 then Some((31, 22)) else None
    else if level == 0 then Some((20, 12))
    else if level == 1 then Some((29, 21))
    else if level == 2 then Some((38, 30))
    else if level == 3 && (mode == Sv48 || mode == Sv57) then Some((47, 39))
    else if level == 4 && mode == Sv57 then Some((56, 48))
    else None
  }

  function PtEntrySize(mode: PagingMode): nat {
    match mode
    case Disable => 0
    case Sv32 => 4
    case _ => 8
  }

  function SupportedPagesizes(mode: PagingMode, napot: bool): seq<PageSize> {
    match mode
    case Disable => []
    case Sv32 => [S4KB, S4MB]
    case Sv39 => if napot then [S4KB, S64KB, S2MB, S1GB] else [S4KB, S2MB, S1GB]
    case Sv48 => if napot then [S4KB, S64KB, S2MB, S1GB, S512GB] else [S4KB, S2MB, S1GB, S512GB]
    case Sv57 =>
      if napot then [S4KB, S64KB, S2MB, S1GB, S512GB, S256TB] else [S4KB, S2MB, S1GB, S512GB, S256TB]
  }

  /** next_pt_level_pagesize; None for a disabled mode, where indexing the empty list raises. */
  function NextPtLevelPagesize(mode: PagingMode, ps: PageSize): Option<PageSize> {
    var all := SupportedPagesizes(mode, false);
    if all == [] then None
    else
      var idx := if ps in all then IndexOf(all, ps) else |all| - 1;
      Some(all[if idx + 1 < |all| then idx + 1 else |all| - 1])
  }

  function IndexOf(sizes: seq<PageSize>, ps: PageSize): (i: nat)
    requires ps in sizes
    ensures i < |sizes| && sizes[i] == ps
  {
    if sizes[0] == ps then 0 else 1 + IndexOf(sizes[1..], ps)
  }

  function LinearAddrBits(mode: PagingMode): nat {
    match mode
    case Disable => 52
    case Sv32 => 32
    case Sv39 => 39
    case Sv48 => 48
    case Sv57 => 57
  }

  // ---------- how the tables fit together ----------

  predicate LevelExists(mode: PagingMode, level: int) { 0 <= level < MaxLevels(mode) }

  /** The lowest index bit of a level: entries of the level cover 2^Lo bytes each. */
  function Lo(mode: PagingMode, level: nat): (lo: nat)
    requires LevelExists(mode, level)
    ensures 12 <= lo <= 48
  {
    IndexBits(mode, level).value.1
  }

  /** The position just above a level's index; the mode's address width above the root. */
  function Top(mode: PagingMode, level: nat): nat
    requires level <= MaxLevels(mode)
  {
    if level < MaxLevels(mode) then Lo(mode, level) else LinearAddrBits(mode)
  }

  /** Index bits are defined exactly for existing levels, start at the page offset, and
      each level's index begins where the one below it ends. */
  lemma IndexBitsTile(mode: PagingMode, level: int)
    ensures IndexBits(mode, level).Some? <==> LevelExists(mode, level)
    ensures LevelExists(mode, level) ==>
              && IndexBits(mode, level).value.0 + 1 == Top(mode, level + 1) > Lo(mode, level)
              && (level == 0 ==> Lo(mode, level) == 12)
  {}

  /** The entries that a level's index tells apart fill exactly one page. */
  lemma TableFillsPage(mode: PagingMode, level: nat)
    requires LevelExists(mode, level)
    ensures var (hi, lo) := IndexBits(mode, level).value;
            hi >= lo && PtEntrySize(mode) * Pow2(hi - lo + 1) == 0x1000
  {
    assert Pow2(9) == 512 && Pow2(10) == 1024 by {
      Pow2Small();
      assert Pow2(9) == 2 * Pow2(8) && Pow2(10) == 2 * Pow2(9);
    }
  }

  lemma LoMono(mode: PagingMode, a: nat, b: nat)
    requires LevelExists(mode, a) && LevelExists(mode, b) && a <= b
    ensures Lo(mode, a) <= Lo(mode, b)
  {}

  /** log2 of a page size's memory. */
  function SizeBits(ps: PageSize): (k: nat)
    ensures 12 <= k <= 48
  {
    match ps
    case S4KB => 12
    case S64KB => 16
    case S4MB => 22
    case S2MB => 21
    case S1GB => 30
    case S512GB => 39
    case S256TB => 48
  }

  /** Every page size is a power of two and its mask clears exactly the page offset. */
  lemma PageSizeIsBlock(ps: PageSize)
    ensures Memory(ps) == Pow2(SizeBits(ps))
    ensures AddressMask(ps) == WORD - Memory(ps)
  {
    Pow2Values();
    AddressMaskMeaning(Memory(ps));
    MsbPow2(SizeBits(ps));
  }

  /** A supported page is mapped by one entry of its leaf level (sixteen entries for 64KB). */
  lemma SupportedSizeFitsLevel(mode: PagingMode, napot: bool, ps: PageSize)
    requires ps in SupportedPagesizes(mode, napot)
    ensures LevelExists(mode, PtLeafLevel(ps))
    ensures SizeBits(ps) == if ps == S64KB then 16 else Lo(mode, PtLeafLevel(ps))
    ensures ps == S64KB ==> PtLeafLevel(ps) == 0 && Memory(ps) == 16 * Memory(S4KB)
    ensures SizeBits(ps) < Top(mode, PtLeafLevel(ps) + 1)
  {}

  /** And every such size is supported: the mode's page sizes are what an entry of one of its levels covers, and 64KB in
      the 64-bit modes with Svnapot. */
  lemma SupportedIff(mode: PagingMode, napot: bool, ps: PageSize)
    ensures ps in SupportedPagesizes(mode, napot) <==>
              if ps == S64KB then napot && mode != Disable && mode != Sv32
              else exists level: nat :: LevelExists(mode, level) && Lo(mode, level) == SizeBits(ps)
  {
    var level := PtLeafLevel(ps);
    if ps != S64KB && LevelExists(mode, level) {
      assert Lo(mode, level) == SizeBits(ps) <==> ps in SupportedPagesizes(mode, napot);
    }
    forall other: nat | LevelExists(mode, other) && Lo(mode, other) == SizeBits(ps)
      ensures ps in SupportedPagesizes(mode, napot) || ps == S64KB
    {
      assert other == 0 || other == 1 || other == 2 || other == 3 || other == 4;
    }
  }

  /** The sizes of a mode, without 64KB, stand in the order of their leaf levels, one for each level. */
  lemma SizeAt(mode: PagingMode, i: nat)
    requires i < |SupportedPagesizes(mode, false)|
    ensures var ps := SupportedPagesizes(mode, false)[i];
            |SupportedPagesizes(mode, false)| == MaxLevels(mode) && PtLeafLevel(ps) == i && SizeBits(ps) == Lo(mode, i)
  {}

  /** Every mode with paging has a next page size, and it is one of the mode's: for a page-table size below the root
      the span of the entry one level above its leaf, for every other size - the largest one, 64KB, a size the mode
      does not have - the mode's largest. */
  lemma NextPagesizeIsNextLevel(mode: PagingMode, ps: PageSize)
    ensures NextPtLevelPagesize(mode, ps).Some? <==> mode != Disable
    ensures mode != Disable ==>
              var next, up := NextPtLevelPagesize(mode, ps).value, PtLeafLevel(ps) + 1;
              && next in SupportedPagesizes(mode, false)
              && PtLeafLevel(next) == (if ps in SupportedPagesizes(mode, false) && up < MaxLevels(mode) then up
                                       else MaxLevels(mode) - 1)
              && SizeBits(next) == Lo(mode, PtLeafLevel(next))
  {
    var all := SupportedPagesizes(mode, false);
    if all != [] {
      var i := if ps in all then IndexOf(all, ps) else |all| - 1;
      SizeAt(mode, i);
      SizeAt(mode, if i + 1 < |all| then i + 1 else |all| - 1);
    }
  }

  // ---------- which addresses share a page-table entry ----------

  function Index(mode: PagingMode, level: nat, va: nat): nat
    requires LevelExists(mode, level)
  {
    IndexBitsTile(mode, level);
    Field(va, IndexBits(mode, level).value.0, IndexBits(mode, level).value.1)
  }

  /** The walks of a and b from the root meet the same entry at this level: they take the
      same index at this level and at every level above it. */
  ghost predicate SameEntry(mode: PagingMode, level: nat, a: nat, b: nat)
    requires level <= MaxLevels(mode)
  {
    forall l: nat :: level <= l && LevelExists(mode, l) ==> Index(mode, l, a) == Index(mode, l, b)
  }

  lemma IndexMeaning(mode: PagingMode, level: nat, va: nat)
    requires LevelExists(mode, level)
    ensures Lo(mode, level) < Top(mode, level + 1)
    ensures Index(mode, level, va) == Low(Shr(va, Lo(mode, level)), Top(mode, level + 1) - Lo(mode, level))
  {
    IndexBitsTile(mode, level);
    var (hi, lo) := IndexBits(mode, level).value;
    FieldMeaning(va, hi, lo);
  }

  lemma SameEntryStep(mode: PagingMode, level: nat, a: nat, b: nat)
    requires LevelExists(mode, level)
    ensures SameEntry(mode, level, a, b)
        <==> SameEntry(mode, level + 1, a, b) && Index(mode, level, a) == Index(mode, level, b)
  {
    if SameEntry(mode, level + 1, a, b) && Index(mode, level, a) == Index(mode, level, b) {
      forall l: nat | level <= l && LevelExists(mode, l)
        ensures Index(mode, l, a) == Index(mode, l, b)
      {
        if l > level { assert level + 1 <= l; }
      }
    }
  }

  lemma SameEntryDigits(mode: PagingMode, level: nat, a: nat, b: nat)
    requires LevelExists(mode, level)
    ensures Lo(mode, level) < Top(mode, level + 1)
    ensures var lo, n := Lo(mode, level), Top(mode, level + 1) - Lo(mode, level);
            SameEntry(mode, level, a, b) <==>
              SameEntry(mode, level + 1, a, b) && Low(Shr(a, lo), n) == Low(Shr(b, lo), n)
  {
    IndexMeaning(mode, level, a);
    IndexMeaning(mode, level, b);
    SameEntryStep(mode, level, a, b);
  }

  /** Two addresses of the mode reach the same level-L entry exactly when they lie in the
      same aligned block of that level's span. */
  lemma {:induction false} SameEntryIffSameBlock(mode: PagingMode, level: nat, a: nat, b: nat)
    requires mode != Disable && level <= MaxLevels(mode)
    requires a < Pow2(LinearAddrBits(mode)) && b < Pow2(LinearAddrBits(mode))
    ensures SameEntry(mode, level, a, b) <==> Shr(a, Top(mode, level)) == Shr(b, Top(mode, level))
    decreases MaxLevels(mode) - level
  {
    if level < MaxLevels(mode) {
      SameEntryIffSameBlock(mode, level + 1, a, b);
      var here := SameIndexStep(mode, level, a, b);
    } else {
      LowOfSmall(a, LinearAddrBits(mode));
      LowOfSmall(b, LinearAddrBits(mode));
    }
  }

  /** One level down, entries and blocks split by the same index. */
  lemma SameIndexStep(mode: PagingMode, level: nat, a: nat, b: nat) returns (here: bool)
    requires LevelExists(mode, level)
    ensures SameEntry(mode, level, a, b) <==> SameEntry(mode, level + 1, a, b) && here
    ensures Shr(a, Top(mode, level)) == Shr(b, Top(mode, level))
        <==> Shr(a, Top(mode, level + 1)) == Shr(b, Top(mode, level + 1)) && here
  {
    var lo, up := Lo(mode, level), Top(mode, level + 1);
    IndexBitsTile(mode, level);
    here := Low(Shr(a, lo), up - lo) == Low(Shr(b, lo), up - lo);
    SameEntryDigits(mode, level, a, b);
    SameAboveStep(a, b, lo, up);
  }

  /** A page that reserves an aligned block at least one level-L span long owns its level-L
      entry: no address outside the block reaches an entry that an address of the block reaches,
      and the addresses that share the entry of the block's start are exactly the first span. */
  lemma ReservedBlockOwnsEntry(mode: PagingMode, level: nat, start: nat, k: nat, x: nat, y: nat)
    requires LevelExists(mode, level) && Lo(mode, level) <= k
    requires Aligned(start, k)
    requires x < Pow2(LinearAddrBits(mode)) && y < Pow2(LinearAddrBits(mode))
    requires start <= x < start + Pow2(k)
    ensures !(start <= y < start + Pow2(k)) ==> !SameEntry(mode, level, x, y)
    ensures x < start + Pow2(Lo(mode, level)) ==>
              (SameEntry(mode, level, x, y) <==> start <= y < start + Pow2(Lo(mode, level)))
  {
    SameEntryIffSameBlock(mode, level, x, y);
    BlockSeparates(start, k, Lo(mode, level), x, y);
  }
}
