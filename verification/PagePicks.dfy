/** Blocks of addresses, and which page size a page mapping can get
    (riescue/dtest_framework/generator/generator.py, pick_pagesize). */
module PagePicks {
  import opened Bits
  import opened Paging
  import opened Wrappers

  datatype Attr = V | A | D | G | U | X | W | R | N | Pbmt

  /** The attributes of a page mapping that this code reads and writes. */
  datatype Key =
    | Own(attr: Attr)                                        // v
    | NonLeaf(attr: Attr)                                    // v_nonleaf
    | Stage(attr: Attr, vsNonleaf: bool, gNonleaf: bool)     // v_nonleaf_gleaf
    | AtLevel(attr: Attr, level: nat)                        // v_level2
    | AtLevels(attr: Attr, vsLevel: nat, gLevel: nat)        // v_level2_glevel0

  /** Attribute values; a key that is absent holds None. Booleans are 0 and 1. */
  type Attrs = map<Key, int>

  datatype Features = Features(vsMode: PagingMode, gMode: PagingMode, virtualized: bool,
                               superPriv: bool, svnapot: bool, all4kb: bool)

  /** The walk the VS attributes apply to. */
  function WalkMode(f: Features): PagingMode { if f.vsMode == Disable && f.virtualized then f.gMode else f.vsMode }

  // ---------- blocks of addresses ----------

  datatype Block = Block(size: nat, mask: nat)

  /** The well-formed block of 2^k bytes: its mask clears exactly the k low bits of 64. */
  ghost function BlockOf(k: nat): Block
    requires k < 64
  {
    PowFits(k);
    Block(Pow2(k), WORD - Pow2(k))
  }

  lemma PowFits(k: nat)
    requires k < 64
    ensures Pow2(k) < WORD
  {
    var n := WordIsPow2();
    Pow2Less(k, n);
  }

  ghost predicate IsBlock(b: Block) { exists k: nat :: 12 <= k <= 48 && b == BlockOf(k) }

  /** RiscvPageSizes.memory and address_mask together. */
  method PageBlock(ps: PageSize) returns (b: Block)
    ensures b == BlockOf(SizeBits(ps))
  {
    PageSizeIsBlock(ps);
    b := Block(Memory(ps), AddressMask(ps));
  }

  /** The span of one entry of a level, as `2 ** index_bits(...)[1]`, and its mask. */
  method LevelBlock(mode: PagingMode, level: nat) returns (b: Block)
    requires LevelExists(mode, level)
    ensures b == BlockOf(Lo(mode, level))
  {
    var k := Lo(mode, level);
    PowFits(k);
    AddressMaskMeaning(Pow2(k));
    MsbPow2(k);
    b := Block(Pow2(k), AddressMaskFromSize(Pow2(k)));
  }

  /** Larger(b, c) is c unless b is larger. */
  function Larger(b: Block, c: Block): Block { if c.size < b.size then b else c }

  lemma MeetAt(n: nat, i: nat, j: nat)
    requires i < 64 && j < 64 && i <= n && j <= n && Pow2(n) == WORD
    ensures var b, c := BlockOf(i), BlockOf(j);
            Block(if b.size > c.size then b.size else c.size, And(b.mask, c.mask)) == Larger(b, c)
  {
    AndOfMasks(n, i, j);
  }

  /** Taking the larger size and and-ing the masks of two blocks gives the larger block. */
  lemma MeetOfBlocks(b: Block, c: Block)
    requires IsBlock(b) && IsBlock(c)
    ensures Block(if b.size > c.size then b.size else c.size, And(b.mask, c.mask)) == Larger(b, c)
  {
    var i: nat :| 12 <= i <= 48 && b == BlockOf(i);
    var j: nat :| 12 <= j <= 48 && c == BlockOf(j);
    var n := WordIsPow2();
    MeetAt(n, i, j);
  }

  // ---------- picking a page size ----------

  function FixedName(ps: PageSize): string {
    match ps
    case S4KB => "4kbpage"
    case S64KB => "64kbpage"
    case S4MB => "4mbpage"
    case S2MB => "2mbpage"
    case S1GB => "1gbpage"
    case S512GB => "512gbpage"
    case S256TB => "256tbpage"
  }

  predicate Contains(s: string, sub: string) {
    exists i | 0 <= i <= |s| :: sub <= s[i..]
  }

  function ValidSizes(f: Features, mode: PagingMode): seq<PageSize> {
    var sizes := SupportedPagesizes(mode, f.svnapot);
    if sizes == [] then [S4KB] else sizes
  }

  /** The first size whose name contains what the user wrote. */
  function Named(sizes: seq<PageSize>, text: string): Option<PageSize> {
    if sizes == [] then None
    else if Contains(FixedName(sizes[0]), text) then Some(sizes[0])
    else Named(sizes[1..], text)
  }

  /** A size left for a free choice. */
  predicate Eligible(mode: PagingMode, specified: seq<string>, excludeLargest: bool, ps: PageSize) {
    && (ps == S256TB ==> "256tb" in specified)
    && (excludeLargest ==> PtLeafLevel(ps) as int != MaxLevels(mode) - 1)
  }

  predicate NamedBy(f: Features, mode: PagingMode, specified: seq<string>, ps: PageSize) {
    exists i :: 0 <= i < |specified| && Named(ValidSizes(f, mode), specified[i]) == Some(ps)
  }

  /** The sizes that can come out: the named ones of positive weight if there are any,
      else the eligible ones of positive weight. */
  ghost predicate CanPick(f: Features, mode: PagingMode, specified: seq<string>, excludeLargest: bool, ps: PageSize) {
    && Weight(ps) > 0
    && if exists q :: NamedBy(f, mode, specified, q) && Weight(q) > 0
       then NamedBy(f, mode, specified, ps)
       else ps in ValidSizes(f, mode) && Eligible(mode, specified, excludeLargest, ps)
  }

  lemma {:induction false} NamedIsValid(sizes: seq<PageSize>, text: string)
    ensures Named(sizes, text).Some? ==> Named(sizes, text).value in sizes
  {
    if sizes != [] { NamedIsValid(sizes[1..], text); }
  }

  method EligibleSizes(valid: seq<PageSize>, mode: PagingMode, specified: seq<string>, excludeLargest: bool)
    returns (eligible: seq<PageSize>)
    ensures forall p :: p in eligible <==> p in valid && Eligible(mode, specified, excludeLargest, p)
  {
    eligible := [];
    for i := 0 to |valid|
      invariant forall p :: p in eligible <==> p in valid[..i] && Eligible(mode, specified, excludeLargest, p)
    {
      if Eligible(mode, specified, excludeLargest, valid[i]) { eligible := eligible + [valid[i]]; }
    }
  }

  method AllowedSizes(named: seq<Option<PageSize>>) returns (allowed: set<PageSize>)
    ensures forall p :: p in allowed <==> exists j :: 0 <= j < |named| && named[j] == Some(p)
  {
    allowed := {};
    for i := 0 to |named|
      invariant forall p :: p in allowed <==> exists j :: 0 <= j < i && named[j] == Some(p)
    {
      if named[i].Some? { allowed := allowed + {named[i].value}; }
    }
  }

  lemma SmallestIsFree(f: Features, mode: PagingMode, specified: seq<string>, excludeLargest: bool)
    ensures S4KB in ValidSizes(f, mode) && Eligible(mode, specified, excludeLargest, S4KB)
  {
    assert ValidSizes(f, mode)[0] == S4KB;
  }

  lemma PickIsValid(f: Features, mode: PagingMode, specified: seq<string>, excludeLargest: bool, ps: PageSize)
    requires CanPick(f, mode, specified, excludeLargest, ps)
    ensures ps in ValidSizes(f, mode)
  {
    if NamedBy(f, mode, specified, ps) {
      var i :| 0 <= i < |specified| && Named(ValidSizes(f, mode), specified[i]) == Some(ps);
      NamedIsValid(ValidSizes(f, mode), specified[i]);
    }
  }

  /** What a pick can give: 4KB under the 4KB-only flag unless the page is linked, and else a size as above. */
  ghost predicate Picked(f: Features, specified: seq<string>, mode: PagingMode, linked: bool, excludeLargest: bool,
                         ps: PageSize)
  {
    if f.all4kb && !linked then ps == S4KB else CanPick(f, mode, specified, excludeLargest, ps)
  }

  /** pick_pagesize. The weighted random choice is any size of positive weight. */
  method PickPagesize(f: Features, specified: seq<string>, mode: PagingMode, linked: bool, excludeLargest: bool)
    returns (ps: PageSize, block: Block)
    ensures block == BlockOf(SizeBits(ps))
    ensures Picked(f, specified, mode, linked, excludeLargest, ps)
    ensures ps in ValidSizes(f, mode)
  {
    SmallestIsFree(f, mode, specified, excludeLargest);
    var valid := ValidSizes(f, mode);
    var eligible := EligibleSizes(valid, mode, specified, excludeLargest);
    var named := seq(|specified|, i requires 0 <= i < |specified| => Named(valid, specified[i]));
    var allowed := AllowedSizes(named);
    forall p ensures p in allowed <==> NamedBy(f, mode, specified, p) {
      if j :| 0 <= j < |specified| && Named(valid, specified[j]) == Some(p) { assert named[j] == Some(p); }
    }
    var weighted := set p | p in allowed && Weight(p) > 0;
    assert forall q :: q in weighted <==> NamedBy(f, mode, specified, q) && Weight(q) > 0;
    if weighted == {} {
      weighted := set p | p in eligible && Weight(p) > 0;
      assert S4KB in weighted;
    }
    ps :| ps in weighted;
    PickIsValid(f, mode, specified, excludeLargest, ps);
    if f.all4kb && !linked { ps := S4KB; }
    block := PageBlock(ps);
  }

  /** The user names the mode's largest size and that size can be drawn. */
  ghost predicate NamesLargest(f: Features, mode: PagingMode, specified: seq<string>) {
    exists ps :: NamedBy(f, mode, specified, ps) && Weight(ps) > 0 && PtLeafLevel(ps) + 1 == MaxLevels(mode)
  }

  /** Excluding the largest size works exactly when the user does not name it: a size whose
      leaf is at the root can still be picked if and only if it is named. */
  lemma LargestPickedIffNamed(f: Features, mode: PagingMode, specified: seq<string>)
    ensures (exists ps :: CanPick(f, mode, specified, true, ps) && PtLeafLevel(ps) + 1 == MaxLevels(mode))
        <==> NamesLargest(f, mode, specified)
  {
    if NamesLargest(f, mode, specified) {
      var ps :| NamedBy(f, mode, specified, ps) && Weight(ps) > 0 && PtLeafLevel(ps) + 1 == MaxLevels(mode);
      assert CanPick(f, mode, specified, true, ps);
    }
  }

  /** Sv48 and Sv57 give their largest size weight zero, so naming it has no effect there. */
  lemma LargestNeverDrawn(f: Features, mode: PagingMode, specified: seq<string>, excludeLargest: bool, ps: PageSize)
    requires (mode == Sv48 || mode == Sv57) && CanPick(f, mode, specified, excludeLargest, ps)
    ensures PtLeafLevel(ps) + 1 < MaxLevels(mode)
  {
    PickIsValid(f, mode, specified, excludeLargest, ps);
  }

  /** What a user writes for each size. */
  function ShortName(ps: PageSize): string {
    match ps
    case S4KB => "4kb"
    case S64KB => "64kb"
    case S4MB => "4mb"
    case S2MB => "2mb"
    case S1GB => "1gb"
    case S512GB => "512gb"
    case S256TB => "256tb"
  }

  /** A page name is its short name and "page", and the short name ends in the one b. */
  lemma OneB(q: PageSize, k: nat)
    requires k < |FixedName(q)|
    ensures FixedName(q) == ShortName(q) + "page"
    ensures FixedName(q)[k] == 'b' <==> k == |ShortName(q)| - 1
  {}

  /** So a short name is held exactly at the end of a short name. */
  lemma HoldsAtEnd(q: PageSize, ps: PageSize)
    ensures var n := |ShortName(q)| - |ShortName(ps)|;
            Contains(FixedName(q), ShortName(ps)) <==> n >= 0 && ShortName(q)[n..] == ShortName(ps)
  {
    OneB(q, 0);
    forall k: nat | k < |FixedName(q)| ensures FixedName(q)[k] == 'b' <==> k == |ShortName(q)| - 1 { OneB(q, k); }
    OneB(ps, |ShortName(ps)| - 1);
    HeldEnds(FixedName(q), ShortName(q), ShortName(ps));
  }

  lemma HeldEnds(s: string, a: string, sub: string)
    requires s == a + "page" && sub != "" && sub[|sub| - 1] == 'b'
    requires forall k :: 0 <= k < |s| ==> (s[k] == 'b' <==> k == |a| - 1)
    ensures var n := |a| - |sub|;
            Contains(s, sub) <==> n >= 0 && a[n..] == sub
  {
    if i :| 0 <= i <= |s| && sub <= s[i..] {
      var last := |sub| - 1;
      assert s[i + last] == s[i..][last] == 'b';
      assert s[i..][..|sub|] == sub && a[i..] == s[i..][..|sub|];
    }
    if |a| >= |sub| && a[|a| - |sub|..] == sub { assert s[|a| - |sub|..] == sub + "page"; }
  }

  /** A name holds the short name of its own size, and "64kbpage" also holds "4kb". */
  lemma HoldsShortIff(q: PageSize, ps: PageSize)
    ensures Contains(FixedName(q), ShortName(ps)) <==> q == ps || (q == S64KB && ps == S4KB)
  {
    HoldsAtEnd(q, ps);
    var a, sub := ShortName(q), ShortName(ps);
    if |a| >= |sub| {
      var n := |a| - |sub|;
      if a[n..] == sub { assert a[n] == sub[0] && a[n + 1] == sub[1]; }
    }
  }

  /** And so does a full name. */
  lemma HoldsFullIff(q: PageSize, ps: PageSize)
    ensures Contains(FixedName(q), FixedName(ps)) <==> q == ps || (q == S64KB && ps == S4KB)
  {
    var s, name := FixedName(q), FixedName(ps);
    HoldsShortIff(q, ps);
    OneB(ps, 0);
    if i :| 0 <= i <= |s| && name <= s[i..] { assert ShortName(ps) <= s[i..]; }
    if q == ps { assert name <= s[0..]; } else if q == S64KB && ps == S4KB { assert name <= s[1..]; }
  }

  /** The sizes to choose from: 4KB without paging, and else what an entry of some level covers, and 64KB in the 64-bit
      modes with Svnapot. */
  ghost predicate HasSize(f: Features, mode: PagingMode, ps: PageSize) {
    if mode == Disable then ps == S4KB
    else if ps == S64KB then f.svnapot && mode != Sv32
    else exists level: nat :: LevelExists(mode, level) && Lo(mode, level) == SizeBits(ps)
  }

  lemma ValidIff(f: Features, mode: PagingMode, ps: PageSize)
    ensures ps in ValidSizes(f, mode) <==> HasSize(f, mode, ps)
  {
    SupportedIff(mode, f.svnapot, ps);
  }

  /** The name of a size, short or in full, picks that size where the mode has it, and none elsewhere. */
  lemma NamePicks(f: Features, mode: PagingMode, ps: PageSize)
    ensures Named(ValidSizes(f, mode), ShortName(ps)) == if HasSize(f, mode, ps) then Some(ps) else None
    ensures Named(ValidSizes(f, mode), FixedName(ps)) == if HasSize(f, mode, ps) then Some(ps) else None
  {
    ValidIff(f, mode, ps);
    assert ValidSizes(f, mode)[0] == S4KB;
    NamedFirst(ValidSizes(f, mode), ps);
  }

  lemma {:induction false} NamedFirst(sizes: seq<PageSize>, ps: PageSize)
    requires ps == S4KB ==> sizes != [] && sizes[0] == S4KB
    ensures Named(sizes, ShortName(ps)) == if ps in sizes then Some(ps) else None
    ensures Named(sizes, FixedName(ps)) == if ps in sizes then Some(ps) else None
  {
    if sizes != [] {
      HoldsShortIff(sizes[0], ps);
      HoldsFullIff(sizes[0], ps);
      if sizes[0] != ps { NamedFirst(sizes[1..], ps); }
    }
  }

  /** With no size named, any size of the mode up to 1GB can come out, but not the mode's largest if that is
      excluded. */
  lemma FreePickIff(f: Features, mode: PagingMode, excludeLargest: bool, ps: PageSize)
    ensures CanPick(f, mode, [], excludeLargest, ps) <==>
              && HasSize(f, mode, ps) && ps != S512GB && ps != S256TB
              && (excludeLargest ==> PtLeafLevel(ps) + 1 != MaxLevels(mode))
  {
    ValidIff(f, mode, ps);
  }

  /** With one size named that the mode has, up to 1GB, that size comes out. */
  lemma NamedPickIff(f: Features, mode: PagingMode, excludeLargest: bool, named: PageSize, ps: PageSize)
    requires HasSize(f, mode, named) && named != S512GB && named != S256TB
    ensures CanPick(f, mode, [ShortName(named)], excludeLargest, ps) <==> ps == named
  {
    NamedOne(f, mode, named, named);
    NamedOne(f, mode, named, ps);
  }

  lemma NamedOne(f: Features, mode: PagingMode, named: PageSize, ps: PageSize)
    requires HasSize(f, mode, named)
    ensures NamedBy(f, mode, [ShortName(named)], ps) <==> ps == named
  {
    NamePicks(f, mode, named);
    var specified := [ShortName(named)];
    assert Named(ValidSizes(f, mode), specified[0]) == Some(named);
  }
}
