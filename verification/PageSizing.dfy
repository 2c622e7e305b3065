/** Choosing a page size and the block of addresses a page must reserve
    (riescue/dtest_framework/generator/generator.py). */
module PageSizing {
  import opened Bits
  import opened PageAttrs
  import opened PagePicks
  import opened Paging
  import opened Wrappers

  // ---------- the modify overrides ----------

  /** modify_pt reserves the span of a root entry. */
  ghost function AfterModifyPt(on: bool, mode: PagingMode, b: Block): Block {
    if on && mode != Disable then BlockOf(Lo(mode, MaxLevels(mode) - 1)) else b
  }

  /** modify_nonleaf_pt reserves at least the span of the entry above the leaf. */
  ghost function AfterModifyNonleaf(on: bool, mode: PagingMode, ps: PageSize, b: Block): Block {
    if on && LevelExists(mode, PtLeafLevel(ps) + 1) then Larger(b, BlockOf(Lo(mode, PtLeafLevel(ps) + 1))) else b
  }

  /** How many values the attribute loops give the linear reservation: one before the first VS attribute, one after
      each, and without a walk of its own the 41 of the G-stage leaf. */
  function LoopSteps(f: Features): nat { if WalkMode(f) == Disable then 52 else 11 }

  /** The values the linear reservation takes in the attribute loops: the VS loop, then the G-stage loop where that
      drives it. */
  ghost predicate LoopTrace(f: Features, ps: PageSize, attrs: Attrs, steps: seq<Block>, leafSteps: seq<Block>) {
    && |steps| >= LoopSteps(f)
    && VsTrace(f, WalkMode(f), ps, attrs, BlockOf(SizeBits(ps)), steps, 10)
    && (WalkMode(f) == Disable ==> |leafSteps| == 41 && forall i :: 0 <= i <= 40 ==> steps[11 + i] == leafSteps[i])
  }

  /** From position n on: the value the loops left, then that value after each of the two modify overrides. */
  ghost predicate ModifyTrace(mode: PagingMode, ps: PageSize, modifyPt: bool, modifyNonleafPt: bool,
                              steps: seq<Block>, n: nat)
  {
    && 0 < n && n + 2 < |steps|
    && steps[n] == steps[n - 1]
    && steps[n + 1] == AfterModifyPt(modifyPt, mode, steps[n])
    && steps[n + 2] == AfterModifyNonleaf(modifyNonleafPt, mode, ps, steps[n + 1])
  }

  lemma LoopTraceExtend(f: Features, ps: PageSize, attrs: Attrs, steps: seq<Block>, leafSteps: seq<Block>,
                        more: seq<Block>)
    requires LoopTrace(f, ps, attrs, steps, leafSteps)
    ensures LoopTrace(f, ps, attrs, steps + more, leafSteps)
  {}


  lemma GrowMeaning(b: Block, k: nat)
    requires IsBlock(b) && 12 <= k <= 48
    ensures var r := Grow(b, BlockOf(k));
            IsBlock(r) && b.size <= r.size && Pow2(k) <= r.size && (b.size <= Pow2(k) ==> r.size == Pow2(k))
  {
    BlockOfIsBlock(k);
  }

  /** The block of the page size one level up. */
  ghost function NextBlock(mode: PagingMode, ps: PageSize): Block
    requires mode != Disable
  {
    NextPagesizeIsNextLevel(mode, ps);
    BlockOf(SizeBits(NextPtLevelPagesize(mode, ps).value))
  }

  method NextPageBlock(mode: PagingMode, ps: PageSize) returns (b: Block)
    requires mode != Disable
    ensures b == NextBlock(mode, ps)
  {
    NextPagesizeIsNextLevel(mode, ps);
    b := PageBlock(NextPtLevelPagesize(mode, ps).value);
  }

  /** It covers every override level of a page of the mode. */
  lemma NextCovers(mode: PagingMode, napot: bool, ps: PageSize)
    requires ps in SupportedPagesizes(mode, napot)
    ensures mode != Disable && IsBlock(NextBlock(mode, ps)) && Pow2(SizeBits(ps)) <= NextBlock(mode, ps).size
    ensures var lvl := OverrideLevel(mode, ps);
            lvl.Some? && LevelExists(mode, lvl.value) && Pow2(Lo(mode, lvl.value)) <= NextBlock(mode, ps).size
  {
    NextPagesizeIsNextLevel(mode, ps);
    SupportedSizeFitsLevel(mode, napot, ps);
    OverrideLevelExists(mode, ps);
    var k := SizeBits(NextPtLevelPagesize(mode, ps).value);
    NextCoversBits(mode, napot, ps);
    BlockOfIsBlock(k);
    Pow2Order(k, SizeBits(ps));
    Pow2Order(k, Lo(mode, OverrideLevel(mode, ps).value));
  }

  lemma NextCoversBits(mode: PagingMode, napot: bool, ps: PageSize)
    requires ps in SupportedPagesizes(mode, napot) && NextPtLevelPagesize(mode, ps).Some?
    requires OverrideLevel(mode, ps).Some? && LevelExists(mode, OverrideLevel(mode, ps).value)
    ensures var k := SizeBits(NextPtLevelPagesize(mode, ps).value);
            SizeBits(ps) <= k && Lo(mode, OverrideLevel(mode, ps).value) <= k
  {
    NextPagesizeIsNextLevel(mode, ps);
    SupportedSizeFitsLevel(mode, napot, ps);
    var leaf := PtLeafLevel(NextPtLevelPagesize(mode, ps).value);
    LoMono(mode, OverrideLevel(mode, ps).value, leaf);
    LoMono(mode, PtLeafLevel(ps), leaf);
  }

  /** What picking a VS page size says about its levels. */
  lemma LevelsOfPick(f: Features, ps: PageSize, specified: seq<string>, exclude: bool)
    requires ps in ValidSizes(f, f.vsMode)
    requires CanPick(f, f.vsMode, specified, exclude, ps) || (f.all4kb && ps == S4KB)
    ensures f.vsMode == Disable ==> ps == S4KB
    ensures f.vsMode != Disable ==>
              LevelExists(f.vsMode, PtLeafLevel(ps)) && SizeBits(ps) <= Lo(f.vsMode, MaxLevels(f.vsMode) - 1)
    ensures f.vsMode != Disable && exclude && !NamesLargest(f, f.vsMode, specified) ==>
              OverrideLevel(f.vsMode, ps) == Some(PtLeafLevel(ps) + 1)
  {
    if f.vsMode != Disable {
      SupportedSizeFitsLevel(f.vsMode, f.svnapot, ps);
      LoMono(f.vsMode, PtLeafLevel(ps), MaxLevels(f.vsMode) - 1);
      OverrideLevelExists(f.vsMode, ps);
      LargestPickedIffNamed(f, f.vsMode, specified);
    }
  }

  lemma RootCovers(f: Features, mode: PagingMode, ps: PageSize)
    requires mode != Disable && SizeBits(ps) <= Lo(mode, MaxLevels(mode) - 1)
    ensures BlockOf(SizeBits(ps)).size <= Pow2(Lo(mode, MaxLevels(mode) - 1))
  {
    Pow2Order(Lo(mode, MaxLevels(mode) - 1), SizeBits(ps));
  }

  lemma ChainEnd(steps: seq<Block>, first: Block, last: Block)
    requires Chain(steps, first, last)
    ensures IsBlock(first) && IsBlock(last) && first.size <= last.size
  {
    assert IsBlock(steps[0]) && IsBlock(steps[|steps| - 1]);
    assert steps[0].size <= steps[|steps| - 1].size;
  }

  lemma ChainJoin(steps: seq<Block>, first: Block, mid: Block, more: seq<Block>, last: Block)
    requires Chain(steps, first, mid) && Chain(more, mid, last)
    ensures Chain(steps + more, first, last)
  {
    var all := steps + more;
    forall i, j | 0 <= i <= j < |all| ensures all[i].size <= all[j].size {
      if i < |steps| <= j {
        assert steps[i].size <= steps[|steps| - 1].size && more[0].size <= more[j - |steps|].size;
      }
    }
  }

  function VsPosition(a: Attr): (i: nat)
    ensures i < |VS_ATTRS| && VS_ATTRS[i] == a
  {
    match a
    case V => 0 case A => 1 case D => 2 case G => 3 case U => 4
    case X => 5 case W => 6 case R => 7 case N => 8 case Pbmt => 9
  }

  lemma VsPositionAt(i: nat)
    requires i < |VS_ATTRS|
    ensures VsPosition(VS_ATTRS[i]) == i
  {}

  /** Where the loop over the VS attributes stands before attribute i. */
  ghost predicate VsState(f: Features, mode: PagingMode, ps: PageSize, start: Attrs, attrs: Attrs, b: Block, r: Block,
                          steps: seq<Block>, i: nat)
    requires i <= |VS_ATTRS|
  {
    && SameButLevels(attrs, start) && WithinRoot(mode, b, r)
    && Chain(steps, b, r) && |steps| == i + 1 && VsTrace(f, mode, ps, start, b, steps, i)
    && VsDone(f, mode, ps, start, attrs, r, i) && VsHeld(f, mode, ps, start, attrs, i)
  }

  /** The first i attributes have their levels, the others have not been touched. */
  ghost predicate VsHeld(f: Features, mode: PagingMode, ps: PageSize, start: Attrs, attrs: Attrs, i: nat) {
    && (forall a :: VsPosition(a) < i ==> LevelsHold(f, mode, ps, start, attrs, a))
    && (forall a :: VsPosition(a) >= i ==> SameLevels(attrs, start, a))
  }

  lemma VsHeldStep(f: Features, mode: PagingMode, ps: PageSize, start: Attrs, before: Attrs, after: Attrs, i: nat)
    requires i < |VS_ATTRS| && VsHeld(f, mode, ps, start, before, i) && SameButLevels(before, start)
    requires after == WithOverride(f, mode, ps, WithDefaults(f, mode, ps, before, VS_ATTRS[i]), VS_ATTRS[i])
    requires !(NonLeafFires(f, before, VS_ATTRS[i]) && OverrideLevel(mode, ps).None?)
    ensures VsHeld(f, mode, ps, start, after, i + 1)
  {
    var attr := VS_ATTRS[i];
    OnlyOwnLevels(f, mode, ps, before, attr);
    LevelsAfter(f, mode, ps, before, attr);
    VsPositionAt(i);
    forall a | VsPosition(a) <= i ensures LevelsHold(f, mode, ps, start, after, a) {
      if VsPosition(a) == i {
        assert a == VS_ATTRS[VsPosition(a)] == attr;
        LevelsOfSame(f, mode, ps, before, start, after, a);
      } else {
        LevelsKept(f, mode, ps, start, before, after, a);
      }
    }
    forall a | VsPosition(a) >= i + 1 ensures SameLevels(after, start, a) {
      forall l: nat {:trigger AtLevel(a, l)} ensures Same(after, start, AtLevel(a, l)) {
        assert Same(after, before, AtLevel(a, l)) && Same(before, start, AtLevel(a, l));
      }
    }
  }

  lemma LevelsKept(f: Features, mode: PagingMode, ps: PageSize, start: Attrs, before: Attrs, after: Attrs, a: Attr)
    requires LevelsHold(f, mode, ps, start, before, a) && SameLevels(after, before, a)
    ensures LevelsHold(f, mode, ps, start, after, a)
  {
    forall l: nat {:trigger AtLevel(a, l)}
      ensures Held(after, AtLevel(a, l)) == LevelValue(f, mode, ps, start, a, l)
    {
      assert Same(after, before, AtLevel(a, l));
    }
  }

  ghost predicate VsDone(f: Features, mode: PagingMode, ps: PageSize, start: Attrs, attrs: Attrs, r: Block, i: nat) {
    forall a :: VsPosition(a) < i ==> VsOverridden(f, mode, ps, start, attrs, a, r)
  }

  lemma VsStart(f: Features, mode: PagingMode, ps: PageSize, start: Attrs, b: Block)
    requires IsBlock(b)
    ensures VsState(f, mode, ps, start, start, b, b, [b], 0)
  {
    ChainOne(b);
    VsHeldStart(f, mode, ps, start);
  }

  lemma VsHeldStart(f: Features, mode: PagingMode, ps: PageSize, start: Attrs)
    ensures VsHeld(f, mode, ps, start, start, 0)
  {}

  /** One turn of the loop keeps its state; it can only raise for want of a level to write. */
  lemma VsStep(f: Features, mode: PagingMode, ps: PageSize, start: Attrs, before: Attrs, after: Attrs,
               b: Block, was: Block, r: Block, steps: seq<Block>, i: nat)
    requires i < |VS_ATTRS| && VsState(f, mode, ps, start, before, b, was, steps, i)
    requires after == WithOverride(f, mode, ps, WithDefaults(f, mode, ps, before, VS_ATTRS[i]), VS_ATTRS[i])
    requires r == VsBlockAfter(f, mode, ps, before, VS_ATTRS[i], was)
    ensures SameButLevels(after, start)
    ensures NonLeafFires(f, before, VS_ATTRS[i]) == NonLeafFires(f, start, VS_ATTRS[i])
    ensures OverrideLevel(mode, ps).None? ==> r == was
    ensures !(NonLeafFires(f, before, VS_ATTRS[i]) && OverrideLevel(mode, ps).None?) ==>
              VsState(f, mode, ps, start, after, b, r, steps + [r], i + 1)
  {
    var attr := VS_ATTRS[i];
    OnlyOwnLevels(f, mode, ps, before, attr);
    SameButLevelsTrans(after, before, start);
    SameFiring(f, before, start, attr);
    VsRoot(f, mode, ps, before, attr, b, was, steps);
    VsTraceStep(f, mode, ps, start, before, b, steps, i, r);
    if !(NonLeafFires(f, before, attr) && OverrideLevel(mode, ps).None?) {
      VsDoneStep(f, mode, ps, start, before, after, was, r, i);
      VsHeldStep(f, mode, ps, start, before, after, i);
    }
  }

  lemma VsRoot(f: Features, mode: PagingMode, ps: PageSize, before: Attrs, attr: Attr, b: Block, was: Block,
               steps: seq<Block>)
    requires Chain(steps, b, was) && WithinRoot(mode, b, was)
    ensures var r := VsBlockAfter(f, mode, ps, before, attr, was);
            Chain(steps + [r], b, r) && WithinRoot(mode, b, r) && was.size <= r.size
  {
    ChainEnd(steps, b, was);
    VsBlockGrows(f, mode, ps, before, attr, was);
    ChainExtend(steps, b, was, VsBlockAfter(f, mode, ps, before, attr, was));
  }

  lemma VsDoneStep(f: Features, mode: PagingMode, ps: PageSize, start: Attrs, before: Attrs, after: Attrs,
                   was: Block, r: Block, i: nat)
    requires i < |VS_ATTRS| && VsDone(f, mode, ps, start, before, was, i) && SameButLevels(before, start)
    requires after == WithOverride(f, mode, ps, WithDefaults(f, mode, ps, before, VS_ATTRS[i]), VS_ATTRS[i])
    requires r == VsBlockAfter(f, mode, ps, before, VS_ATTRS[i], was) && IsBlock(was)
    requires !(NonLeafFires(f, before, VS_ATTRS[i]) && OverrideLevel(mode, ps).None?)
    ensures VsDone(f, mode, ps, start, after, r, i + 1)
  {
    var attr := VS_ATTRS[i];
    OnlyOwnLevels(f, mode, ps, before, attr);
    SameFiring(f, before, start, attr);
    VsBlockGrows(f, mode, ps, before, attr, was);
    VsPositionAt(i);
    forall a | VsPosition(a) <= i ensures VsOverridden(f, mode, ps, start, after, a, r) {
      if VsPosition(a) < i {
        assert a != attr;
        OverriddenKept(f, mode, ps, start, before, after, a, was, r);
      } else {
        assert a == VS_ATTRS[VsPosition(a)] == attr;
      }
    }
  }

  lemma VsTraceStep(f: Features, mode: PagingMode, ps: PageSize, start: Attrs, before: Attrs, b: Block,
                    steps: seq<Block>, n: nat, r: Block)
    requires n < |VS_ATTRS| && VsTrace(f, mode, ps, start, b, steps, n) && |steps| == n + 1
    requires SameButLevels(before, start) && r == VsBlockAfter(f, mode, ps, before, VS_ATTRS[n], steps[n])
    ensures VsTrace(f, mode, ps, start, b, steps + [r], n + 1)
  {
    SameFiring(f, before, start, VS_ATTRS[n]);
  }

  /** The VS loop can only raise when its page size has no level in the mode. */

  // When the attribute loops raise, for want of a level to write.

  /** Some attribute has a value above the leaf and none of its own. */
  ghost predicate SomeAbove(f: Features, attrs: Attrs) {
    exists a: Attr :: Given(f, attrs, a, NonLeaf(a)) && !Given(f, attrs, a, Own(a))
  }

  ghost predicate NoneAboveBefore(f: Features, attrs: Attrs, i: nat)
    requires i <= |VS_ATTRS|
  {
    forall j :: 0 <= j < i ==> !NonLeafFires(f, attrs, VS_ATTRS[j])
  }

  lemma SomeAboveIff(f: Features, attrs: Attrs)
    ensures SomeAbove(f, attrs) <==> !NoneAboveBefore(f, attrs, |VS_ATTRS|)
  {
    forall a: Attr
      ensures NonLeafFires(f, attrs, a) <==> Given(f, attrs, a, NonLeaf(a)) && !Given(f, attrs, a, Own(a))
    {
      FiresIff(f, attrs, a);
    }
    if SomeAbove(f, attrs) {
      var a: Attr :| Given(f, attrs, a, NonLeaf(a)) && !Given(f, attrs, a, Own(a));
      assert VS_ATTRS[VsPosition(a)] == a;
    }
  }

  /** None of the first i VS attributes has raised. */
  ghost predicate VsQuiet(f: Features, mode: PagingMode, ps: PageSize, attrs: Attrs, i: nat)
    requires i <= |VS_ATTRS|
  {
    OverrideLevel(mode, ps).Some? || NoneAboveBefore(f, attrs, i)
  }

  lemma VsRaise(f: Features, mode: PagingMode, ps: PageSize, attrs: Attrs, i: nat, raised: bool)
    requires i < |VS_ATTRS| && VsQuiet(f, mode, ps, attrs, i)
    requires raised <==> NonLeafFires(f, attrs, VS_ATTRS[i]) && OverrideLevel(mode, ps).None?
    ensures raised ==> !LevelExists(mode, PtLeafLevel(ps)) && SomeAbove(f, attrs)
    ensures !raised ==> VsQuiet(f, mode, ps, attrs, i + 1)
  {
    OverrideLevelExists(mode, ps);
    if raised { SomeAboveIff(f, attrs); }
  }

  lemma VsQuietEnd(f: Features, mode: PagingMode, ps: PageSize, attrs: Attrs)
    requires VsQuiet(f, mode, ps, attrs, |VS_ATTRS|)
    ensures !(!LevelExists(mode, PtLeafLevel(ps)) && SomeAbove(f, attrs))
  {
    OverrideLevelExists(mode, ps);
    SomeAboveIff(f, attrs);
  }

  /** A stage attribute of a VS leaf and a G non-leaf needs a level above the G leaf. */
  ghost predicate StageRaises(f: Features, attrs: Attrs, leafPs: PageSize, key: Key)
    requires key.Stage?
  {
    && f.vsMode != Disable && !LevelExists(f.gMode, PtLeafLevel(leafPs))
    && Given(f, attrs, key.attr, key) && !key.vsNonleaf && key.gNonleaf
  }

  ghost predicate NoStageRaises(f: Features, attrs: Attrs, leafPs: PageSize, i: nat)
    requires i <= 40
  {
    forall j: nat :: j < i ==> !StageRaises(f, attrs, leafPs, StageKey(j))
  }

  ghost predicate SomeStageRaises(f: Features, attrs: Attrs, leafPs: PageSize) {
    && f.vsMode != Disable && !LevelExists(f.gMode, PtLeafLevel(leafPs))
    && exists a: Attr :: Given(f, attrs, a, Stage(a, false, true))
  }

  lemma SomeStageRaisesIff(f: Features, attrs: Attrs, leafPs: PageSize)
    ensures SomeStageRaises(f, attrs, leafPs) <==> !NoStageRaises(f, attrs, leafPs, 40)
  {
    if SomeStageRaises(f, attrs, leafPs) {
      var a: Attr :| Given(f, attrs, a, Stage(a, false, true));
      var j := StagePosition(Stage(a, false, true));
      assert StageRaises(f, attrs, leafPs, StageKey(j));
    }
    if !NoStageRaises(f, attrs, leafPs, 40) {
      var j: nat :| j < 40 && StageRaises(f, attrs, leafPs, StageKey(j));
      var k := StageKey(j);
      assert k == Stage(k.attr, false, true);
    }
  }

  lemma GRaise(f: Features, start: Attrs, before: Attrs, after: Attrs, vsPs: PageSize, leafPs: PageSize,
               nonleafPs: PageSize, l: Block, n: Block, i: nat, raised: bool, l': Block, n': Block)
    requires i < 40 && (f.vsMode != Disable ==> LevelExists(f.vsMode, PtLeafLevel(vsPs)))
    requires f.vsMode == Disable ==> LevelExists(f.gMode, PtLeafLevel(leafPs))
    requires LevelExists(f.gMode, PtLeafLevel(nonleafPs)) && SameStage(before, start)
    requires StageDone(f, StageKey(i), vsPs, leafPs, nonleafPs, before, l, n, raised, after, l', n')
    requires NoStageRaises(f, start, leafPs, i)
    ensures raised ==> SomeStageRaises(f, start, leafPs)
    ensures !raised ==> NoStageRaises(f, start, leafPs, i + 1)
  {
    var key := StageKey(i);
    assert Same(before, start, key);
    StageRaisesIff(f, key, vsPs, leafPs, nonleafPs, start, before, l, n, raised, after, l', n');
    if raised {
      assert key == Stage(key.attr, false, true);
    } else {
      forall j: nat | j < i + 1 ensures !StageRaises(f, start, leafPs, StageKey(j)) {}
    }
  }

  lemma RaisesOfSame(f: Features, a: Attrs, b: Attrs, leafPs: PageSize)
    requires SameStage(a, b)
    ensures SomeStageRaises(f, a, leafPs) <==> SomeStageRaises(f, b, leafPs)
  {
    forall x: Attr ensures Given(f, a, x, Stage(x, false, true)) <==> Given(f, b, x, Stage(x, false, true)) {
      assert Same(a, b, Stage(x, false, true));
    }
  }

  lemma StageRaisesIff(f: Features, key: Key, vsPs: PageSize, leafPs: PageSize, nonleafPs: PageSize, start: Attrs,
                       before: Attrs, l: Block, n: Block, raised: bool, after: Attrs, l': Block, n': Block)
    requires key.Stage? && (f.vsMode != Disable ==> LevelExists(f.vsMode, PtLeafLevel(vsPs)))
    requires f.vsMode == Disable ==> LevelExists(f.gMode, PtLeafLevel(leafPs))
    requires LevelExists(f.gMode, PtLeafLevel(nonleafPs)) && Same(before, start, key)
    requires StageDone(f, key, vsPs, leafPs, nonleafPs, before, l, n, raised, after, l', n')
    ensures raised <==> StageRaises(f, start, leafPs, key)
  {
    OverrideLevelExists(f.gMode, leafPs);
    OverrideLevelExists(f.gMode, nonleafPs);
    assert StageFires(f, before, key) <==> Given(f, start, key.attr, key);
  }

  /** Where the loop over the stage attributes stands before attribute i. */
  ghost predicate GState(f: Features, start: Attrs, attrs: Attrs, vsPs: PageSize, leafPs: PageSize, nonleafPs: PageSize,
                         leaf: Block, nonleaf: Block, leafSteps: seq<Block>, nonleafSteps: seq<Block>,
                         l: Block, n: Block, i: nat)
  {
    && (f.vsMode != Disable ==> LevelExists(f.vsMode, PtLeafLevel(vsPs)))
    && Chain(leafSteps, leaf, l) && Chain(nonleafSteps, nonleaf, n)
    && StageTrace(f, start, vsPs, leafPs, nonleafPs, (leaf, nonleaf), leafSteps, nonleafSteps, i)
    && |leafSteps| == |nonleafSteps| == i + 1
    && SameStage(attrs, start)
    && f.gMode != Disable
    && n.size <= NextBlock(f.gMode, nonleafPs).size
    && (f.vsMode != Disable ==> forall k: Key :: !k.AtLevels? ==> Same(attrs, start, k))
    && (f.vsMode != Disable ==> AllCovered(f, start, vsPs, leafPs, nonleafPs, l, n, i))
    && StagesDone(f, start, attrs, vsPs, leafPs, nonleafPs, i)
  }

  /** The levels hold what the first i stage attributes give them. */
  ghost predicate StagesDone(f: Features, start: Attrs, attrs: Attrs, vsPs: PageSize, leafPs: PageSize,
                             nonleafPs: PageSize, i: nat)
    requires i <= 40
  {
    if f.vsMode != Disable then PairsAfter(f, start, attrs, vsPs, leafPs, nonleafPs, i)
    else BaresAfter(f, start, attrs, leafPs, i)
  }

  /** The first i stage attributes that fire have their entries reserved. */
  ghost predicate AllCovered(f: Features, start: Attrs, vsPs: PageSize, leafPs: PageSize, nonleafPs: PageSize, l: Block,
                             n: Block, i: nat)
    requires i <= 40
  {
    forall j: nat :: j < i && StageFires(f, start, StageKey(j)) ==>
      StageCovered(f, StageKey(j), vsPs, leafPs, nonleafPs, l, n)
  }

  lemma GStart(f: Features, start: Attrs, vsPs: PageSize, leafPs: PageSize, nonleafPs: PageSize, leaf: Block,
               nonleaf: Block)
    requires IsBlock(leaf) && (f.vsMode != Disable ==> LevelExists(f.vsMode, PtLeafLevel(vsPs)))
    requires nonleafPs in SupportedPagesizes(f.gMode, f.svnapot) && nonleaf == BlockOf(SizeBits(nonleafPs))
    ensures GState(f, start, start, vsPs, leafPs, nonleafPs, leaf, nonleaf, [leaf], [nonleaf], leaf, nonleaf, 0)
  {
    TablesStart(f, nonleafPs, nonleaf);
    ChainOne(leaf);
    ChainOne(nonleaf);
    StageTraceStart(f, start, vsPs, leafPs, nonleafPs, (leaf, nonleaf));
    StagesStart(f, start, vsPs, leafPs, nonleafPs);
  }

  lemma TablesStart(f: Features, nonleafPs: PageSize, nonleaf: Block)
    requires nonleafPs in SupportedPagesizes(f.gMode, f.svnapot) && nonleaf == BlockOf(SizeBits(nonleafPs))
    ensures f.gMode != Disable && IsBlock(nonleaf) && nonleaf.size <= NextBlock(f.gMode, nonleafPs).size
  {
    NextCovers(f.gMode, f.svnapot, nonleafPs);
    BlockOfIsBlock(SizeBits(nonleafPs));
  }

  lemma StagesStart(f: Features, start: Attrs, vsPs: PageSize, leafPs: PageSize, nonleafPs: PageSize)
    ensures StagesDone(f, start, start, vsPs, leafPs, nonleafPs, 0)
  {
    BareStart(f, start, leafPs);
  }

  lemma ChainOne(b: Block)
    requires IsBlock(b)
    ensures Chain([b], b, b)
  {}

  lemma StageTraceStart(f: Features, start: Attrs, vsPs: PageSize, leafPs: PageSize, nonleafPs: PageSize,
                        bs: (Block, Block))
    requires f.vsMode != Disable ==> LevelExists(f.vsMode, PtLeafLevel(vsPs))
    ensures StageTrace(f, start, vsPs, leafPs, nonleafPs, bs, [bs.0], [bs.1], 0)
  {
    assert StageAt(f, start, vsPs, leafPs, nonleafPs, bs, 0) == bs;
  }

  lemma StageDoneBlocks(f: Features, key: Key, vsPs: PageSize, leafPs: PageSize, nonleafPs: PageSize, before: Attrs,
                        l: Block, n: Block, after: Attrs, l': Block, n': Block)
    requires key.Stage? && (f.vsMode != Disable ==> LevelExists(f.vsMode, PtLeafLevel(vsPs)))
    requires StageDone(f, key, vsPs, leafPs, nonleafPs, before, l, n, false, after, l', n')
    ensures (l', n') == StageBlocksAfter(f, before, key, vsPs, leafPs, nonleafPs, (l, n))
  {}

  lemma SameStageTrans(a: Attrs, b: Attrs, c: Attrs)
    requires SameStage(a, b) && SameStage(b, c)
    ensures SameStage(a, c)
  {
    forall k: Key | k.Stage? || k.Own? ensures Same(a, c, k) { assert Same(a, b, k) && Same(b, c, k); }
  }

  /** One turn of the loop keeps its state. */
  lemma GStep(f: Features, start: Attrs, before: Attrs, after: Attrs,
              vsPs: PageSize, leafPs: PageSize, nonleafPs: PageSize,
              leaf: Block, nonleaf: Block, leafSteps: seq<Block>, nonleafSteps: seq<Block>, l: Block, n: Block, i: nat,
              raised: bool, l': Block, n': Block)
    requires i < 40 && nonleafPs in SupportedPagesizes(f.gMode, f.svnapot)
    requires GState(f, start, before, vsPs, leafPs, nonleafPs, leaf, nonleaf, leafSteps, nonleafSteps, l, n, i)
    requires StageDone(f, StageKey(i), vsPs, leafPs, nonleafPs, before, l, n, raised, after, l', n')
    ensures f.vsMode != Disable ==> forall k: Key :: !k.AtLevels? ==> Same(after, start, k)
    ensures !raised ==> GState(f, start, after, vsPs, leafPs, nonleafPs, leaf, nonleaf, leafSteps + [l'],
                               nonleafSteps + [n'], l', n', i + 1)
  {
    var key := StageKey(i);
    ChainEnd(leafSteps, leaf, l);
    ChainEnd(nonleafSteps, nonleaf, n);
    StageStep(f, key, vsPs, leafPs, nonleafPs, before, l, n, raised, after, l', n');
    SameStageTrans(after, before, start);
    forall k: Key | !k.AtLevels? && f.vsMode != Disable ensures Same(after, start, k) {
      assert Same(after, before, k) && Same(before, start, k);
    }
    if !raised {
      ChainExtend(leafSteps, leaf, l, l');
      ChainExtend(nonleafSteps, nonleaf, n, n');
      StageDoneBlocks(f, key, vsPs, leafPs, nonleafPs, before, l, n, after, l', n');
      StageTraceStep(f, start, before, vsPs, leafPs, nonleafPs, (leaf, nonleaf), leafSteps, nonleafSteps, i, (l', n'));
      if f.vsMode != Disable {
        CoverStep(f, start, before, vsPs, leafPs, nonleafPs, l, n, l', n', i);
        PairsStep(f, start, before, after, vsPs, leafPs, nonleafPs, i, l, n, l', n');
      } else {
        BaresStep(f, start, before, after, leafPs, i, l, l');
      }
    }
  }

  lemma GTurn(f: Features, start: Attrs, before: Attrs, after: Attrs,
              vsPs: PageSize, leafPs: PageSize, nonleafPs: PageSize,
              leaf: Block, nonleaf: Block, leafSteps: seq<Block>, nonleafSteps: seq<Block>, l: Block, n: Block, i: nat,
              raised: bool, l': Block, n': Block)
    requires i < 40 && nonleafPs in SupportedPagesizes(f.gMode, f.svnapot)
    requires f.vsMode == Disable ==> LevelExists(f.gMode, PtLeafLevel(leafPs))
    requires GState(f, start, before, vsPs, leafPs, nonleafPs, leaf, nonleaf, leafSteps, nonleafSteps, l, n, i)
    requires StageDone(f, StageKey(i), vsPs, leafPs, nonleafPs, before, l, n, raised, after, l', n')
    requires NoStageRaises(f, start, leafPs, i)
    ensures f.vsMode != Disable ==> forall k: Key :: !k.AtLevels? ==> Same(after, start, k)
    ensures raised ==> SomeStageRaises(f, start, leafPs)
    ensures !raised ==>
              NoStageRaises(f, start, leafPs, i + 1) &&
              GState(f, start, after, vsPs, leafPs, nonleafPs, leaf, nonleaf, leafSteps + [l'],
                     nonleafSteps + [n'], l', n', i + 1)
  {
    SupportedSizeFitsLevel(f.gMode, f.svnapot, nonleafPs);
    GRaise(f, start, before, after, vsPs, leafPs, nonleafPs, l, n, i, raised, l', n');
    GStep(f, start, before, after, vsPs, leafPs, nonleafPs, leaf, nonleaf, leafSteps, nonleafSteps, l, n, i,
          raised, l', n');
  }

  lemma CoverStep(f: Features, start: Attrs, before: Attrs, vsPs: PageSize, leafPs: PageSize, nonleafPs: PageSize,
                  l: Block, n: Block, l': Block, n': Block, i: nat)
    requires i < 40 && AllCovered(f, start, vsPs, leafPs, nonleafPs, l, n, i) && Same(before, start, StageKey(i))
    requires l.size <= l'.size && n.size <= n'.size
    requires StageFires(f, before, StageKey(i)) ==> StageCovered(f, StageKey(i), vsPs, leafPs, nonleafPs, l', n')
    ensures AllCovered(f, start, vsPs, leafPs, nonleafPs, l', n', i + 1)
  {
    forall j: nat | j <= i && StageFires(f, start, StageKey(j))
      ensures StageCovered(f, StageKey(j), vsPs, leafPs, nonleafPs, l', n')
    {
      if j < i { CoveredGrows(f, StageKey(j), vsPs, leafPs, nonleafPs, l, n, l', n'); }
    }
  }

  ghost predicate RootFits(mode: PagingMode, b: Block)
    requires mode != Disable
  {
    b.size <= Pow2(Lo(mode, MaxLevels(mode) - 1))
  }

  /** A page with an override above its leaf has a level there, unless the user names the largest size. */
  ghost predicate PicksBelowRoot(f: Features, attrs: Attrs, pagesizes: seq<string>, modifyNonleafPt: bool, ps: PageSize)
  {
    f.vsMode != Disable && (AnySignificant(attrs, VS_NONLEAF_CHECKS) || modifyNonleafPt)
    && !NamesLargest(f, f.vsMode, pagesizes) ==>
      OverrideLevel(f.vsMode, ps) == Some(PtLeafLevel(ps) + 1)
  }

  /** What the VS loop leaves of the linear reservation. */
  ghost predicate VsReserved(f: Features, ps: PageSize, attrs: Attrs, b: Block, steps: seq<Block>) {
    && Chain(steps, BlockOf(SizeBits(ps)), b) && |steps| == 11
    && VsTrace(f, WalkMode(f), ps, attrs, BlockOf(SizeBits(ps)), steps, 10)
  }

  /** What both loops leave of it. */
  ghost predicate LoopReserved(f: Features, ps: PageSize, attrs: Attrs, b: Block, steps: seq<Block>,
                               leafSteps: seq<Block>)
  {
    && Chain(steps, BlockOf(SizeBits(ps)), b) && |steps| == LoopSteps(f)
    && LoopTrace(f, ps, attrs, steps, leafSteps)
  }

  /** And what the modify overrides leave of it. */
  ghost predicate Reserved(f: Features, ps: PageSize, attrs: Attrs, modifyPt: bool, modifyNonleafPt: bool, b: Block,
                           steps: seq<Block>, leafSteps: seq<Block>)
  {
    && Chain(steps, BlockOf(SizeBits(ps)), b) && |steps| == LoopSteps(f) + 3
    && LoopTrace(f, ps, attrs, steps, leafSteps)
    && ModifyTrace(WalkMode(f), ps, modifyPt, modifyNonleafPt, steps, LoopSteps(f))
  }

  /** The whole run of the linear reservation: through the loops and the modify overrides, and last to the G-stage
      leaf if that is larger. */
  ghost predicate AddressRun(f: Features, ps: PageSize, attrs: Attrs, modifyPt: bool, modifyNonleafPt: bool,
                             steps: seq<Block>, leafSteps: seq<Block>, gLeaf: Block, address: Block)
  {
    var n := LoopSteps(f);
    && Chain(steps, BlockOf(SizeBits(ps)), address) && |steps| == n + 4
    && LoopTrace(f, ps, attrs, steps, leafSteps)
    && ModifyTrace(WalkMode(f), ps, modifyPt, modifyNonleafPt, steps, n)
    && address == if f.gMode == Disable then steps[n + 2] else Grow(steps[n + 2], gLeaf)
  }

  /** The whole run of the G-stage reservations: through the loop, and the table's last to the next page size under
      modify_nonleaf_pt. */
  ghost predicate StageRun(f: Features, attrs: Attrs, ps: PageSize, leafPs: PageSize, nonleafPs: PageSize,
                           modifyNonleafPt: bool, leafSteps: seq<Block>, nonleafSteps: seq<Block>,
                           gLeaf: Block, gNonleaf: Block)
    requires f.gMode != Disable
  {
    var first := (BlockOf(SizeBits(leafPs)), BlockOf(SizeBits(nonleafPs)));
    && Chain(leafSteps, first.0, gLeaf) && |leafSteps| == 41
    && Chain(nonleafSteps, first.1, gNonleaf) && |nonleafSteps| == 42
    && StageTrace(f, attrs, ps, leafPs, nonleafPs, first, leafSteps, nonleafSteps, 40)
    && gNonleaf == if modifyNonleafPt then NextBlock(f.gMode, nonleafPs) else nonleafSteps[40]
  }

  /** What the G-stage loop leaves of the leaf and table reservations. */
  ghost predicate StageReserved(f: Features, attrs: Attrs, ps: PageSize, leafPs: PageSize, nonleafPs: PageSize,
                                leaf: Block, nonleaf: Block, leafSteps: seq<Block>, nonleafSteps: seq<Block>)
  {
    && Chain(leafSteps, BlockOf(SizeBits(leafPs)), leaf) && Chain(nonleafSteps, BlockOf(SizeBits(nonleafPs)), nonleaf)
    && |leafSteps| == |nonleafSteps| == 41
    && StageTrace(f, attrs, ps, leafPs, nonleafPs, (BlockOf(SizeBits(leafPs)), BlockOf(SizeBits(nonleafPs))),
                  leafSteps, nonleafSteps, 40)
    && f.gMode != Disable
    && nonleaf.size <= NextBlock(f.gMode, nonleafPs).size
    && (f.vsMode != Disable ==> AllCovered(f, attrs, ps, leafPs, nonleafPs, leaf, nonleaf, 40))
  }

  lemma StageReservedSame(f: Features, a: Attrs, b: Attrs, ps: PageSize, leafPs: PageSize, nonleafPs: PageSize,
                          leaf: Block, nonleaf: Block, leafSteps: seq<Block>, nonleafSteps: seq<Block>)
    requires StageReserved(f, a, ps, leafPs, nonleafPs, leaf, nonleaf, leafSteps, nonleafSteps) && SameStage(a, b)
    ensures StageReserved(f, b, ps, leafPs, nonleafPs, leaf, nonleaf, leafSteps, nonleafSteps)
  {
    StageTraceSame(f, a, b, ps, leafPs, nonleafPs, (BlockOf(SizeBits(leafPs)), BlockOf(SizeBits(nonleafPs))),
                   leafSteps, nonleafSteps, 40);
    if f.vsMode != Disable { CoveredSame(f, a, b, ps, leafPs, nonleafPs, leaf, nonleaf); }
  }

  lemma CoveredSame(f: Features, a: Attrs, b: Attrs, ps: PageSize, leafPs: PageSize, nonleafPs: PageSize,
                    leaf: Block, nonleaf: Block)
    requires AllCovered(f, a, ps, leafPs, nonleafPs, leaf, nonleaf, 40) && SameStage(a, b)
    ensures AllCovered(f, b, ps, leafPs, nonleafPs, leaf, nonleaf, 40)
  {
    forall j: nat | j < 40 && StageFires(f, b, StageKey(j))
      ensures StageCovered(f, StageKey(j), ps, leafPs, nonleafPs, leaf, nonleaf)
    {
      assert Same(a, b, StageKey(j));
    }
  }

  /** Every stage attribute that fires has its entries reserved. */
  ghost predicate CoveredBy(f: Features, attrs: Attrs, ps: PageSize, leafPs: PageSize, nonleafPs: PageSize,
                            leaf: Block, nonleaf: Block)
  {
    forall k: Key :: k.Stage? && StageFires(f, attrs, k) ==> StageCovered(f, k, ps, leafPs, nonleafPs, leaf, nonleaf)
  }

  /** Every stage attribute is one of the 40. */
  lemma CoveredAll(f: Features, attrs: Attrs, ps: PageSize, leafPs: PageSize, nonleafPs: PageSize,
                   leaf: Block, nonleaf: Block, stored: Block)
    requires AllCovered(f, attrs, ps, leafPs, nonleafPs, leaf, nonleaf, 40) && nonleaf.size <= stored.size
    ensures CoveredBy(f, attrs, ps, leafPs, nonleafPs, leaf, stored)
  {
    forall k: Key | k.Stage? && StageFires(f, attrs, k)
      ensures StageCovered(f, k, ps, leafPs, nonleafPs, leaf, stored)
    {
      assert StageKey(StagePosition(k)) == k;
      CoveredGrows(f, k, ps, leafPs, nonleafPs, leaf, nonleaf, leaf, stored);
    }
  }

  /** Without a walk of its own the linear reservation follows the G-stage leaf. */
  lemma VsReservedJoin(f: Features, ps: PageSize, attrs: Attrs, b: Block, steps: seq<Block>, leaf: Block,
                       leafSteps: seq<Block>)
    requires VsReserved(f, ps, attrs, b, steps) && |leafSteps| == 41
    requires WalkMode(f) == Disable ==> Chain(leafSteps, BlockOf(SizeBits(ps)), leaf)
    ensures if WalkMode(f) == Disable then LoopReserved(f, ps, attrs, leaf, steps + leafSteps, leafSteps)
            else LoopReserved(f, ps, attrs, b, steps, leafSteps)
  {
    if WalkMode(f) == Disable {
      VsAtWithoutWalk(f, ps, attrs, BlockOf(SizeBits(ps)), 10);
      ChainJoin(steps, BlockOf(SizeBits(ps)), b, leafSteps, leaf);
    }
  }

  lemma ReservedJoin(f: Features, ps: PageSize, attrs: Attrs, modifyPt: bool, modifyNonleafPt: bool, was: Block,
                     steps: seq<Block>, leafSteps: seq<Block>, b: Block, more: seq<Block>)
    requires LoopReserved(f, ps, attrs, was, steps, leafSteps) && Chain(more, was, b) && |more| == 3
    requires more[1] == AfterModifyPt(modifyPt, WalkMode(f), was)
    requires more[2] == AfterModifyNonleaf(modifyNonleafPt, WalkMode(f), ps, more[1])
    ensures Reserved(f, ps, attrs, modifyPt, modifyNonleafPt, b, steps + more, leafSteps)
  {
    ChainJoin(steps, BlockOf(SizeBits(ps)), was, more, b);
    LoopTraceExtend(f, ps, attrs, steps, leafSteps, more);
  }

  /** The physical reservation: one page size up under modify_leaf_pt, the page alone under modify_pt, else what the
      linear one is before the last widening. */
  ghost function PhysFor(f: Features, ps: PageSize, modifyPt: bool, modifyLeafPt: bool, b: Block): Block
    requires modifyLeafPt ==> f.gMode != Disable
  {
    if modifyLeafPt then NextBlock(f.gMode, ps) else if modifyPt then BlockOf(SizeBits(ps)) else b
  }

  /** Every level of every walk holds for every attribute what the page mapping asks for. */
  ghost predicate AttrsHold(f: Features, ps: PageSize, leafPs: PageSize, nonleafPs: PageSize, start: Attrs,
                            after: Attrs)
  {
    if f.vsMode == Disable then forall a :: BareLevelsHold(f, ps, start, after, a)
    else
      && (forall a :: LevelsHold(f, f.vsMode, ps, start, after, a))
      && (f.gMode != Disable ==> PairsHold(f, start, after, ps, leafPs, nonleafPs))
  }

  lemma StageOfSame(setup: Attrs, vs: Attrs, start: Attrs)
    requires SameStage(setup, vs) && SameButLevels(vs, start)
    ensures SameStage(setup, start)
  {
    forall k: Key | k.Stage? || k.Own? ensures Same(setup, start, k) {
      assert Same(setup, vs, k) && Same(vs, start, k);
    }
  }

  /** From what the loops leave to what the levels hold. */
  lemma AttrsDone(f: Features, ps: PageSize, leafPs: PageSize, nonleafPs: PageSize, start: Attrs, vs: Attrs,
                  setup: Attrs, after: Attrs)
    requires SameButLevels(vs, start) && SameStage(setup, vs) && SameStage(setup, start)
    requires forall a :: LevelsHold(f, WalkMode(f), ps, start, vs, a)
    requires PairsSetUp(f, vs, setup, ps, leafPs, nonleafPs, 6) && LeavesSetUp(f, vs, setup, ps, 6)
    requires StagesDone(f, setup, after, ps, leafPs, nonleafPs, 40)
    requires f.vsMode != Disable ==> forall k: Key :: !k.AtLevels? ==> Same(after, vs, k)
    requires f.vsMode == Disable ==> ps == leafPs && LevelExists(f.gMode, PtLeafLevel(ps))
    ensures AttrsHold(f, ps, leafPs, nonleafPs, start, after)
  {
    if f.vsMode == Disable {
      forall a ensures BareLevelsHold(f, ps, start, after, a) {
        assert BareHolds(f, setup, after, ps, a, 40 - 4 * StageAttrPosition(a));
        BareAllDone(f, setup, after, ps, a, 40 - 4 * StageAttrPosition(a));
        BareFromSetup(f, start, vs, setup, after, ps, a);
      }
    } else {
      forall a ensures LevelsHold(f, f.vsMode, ps, start, after, a) {
        assert LevelsHold(f, WalkMode(f), ps, start, vs, a);
        LevelsKept(f, f.vsMode, ps, start, vs, after, a);
      }
      PairsOfSame(f, vs, start, setup, ps, leafPs, nonleafPs);
      PairsFromSetup(f, start, setup, after, ps, leafPs, nonleafPs);
    }
  }

  lemma BareAllDone(f: Features, start: Attrs, after: Attrs, ps: PageSize, a: Attr, q: int)
    requires BareHolds(f, start, after, ps, a, q) && q >= 4
    ensures BareHolds(f, start, after, ps, a, 4)
  {
    forall l: nat {:trigger AtLevel(a, l)} ensures Held(after, AtLevel(a, l)) == BareValue(f, ps, start, a, l, 4) {
      assert Held(after, AtLevel(a, l)) == BareValue(f, ps, start, a, l, q);
    }
  }

  lemma PairsOfSame(f: Features, vs: Attrs, start: Attrs, setup: Attrs, ps: PageSize, leafPs: PageSize,
                    nonleafPs: PageSize)
    requires SameButLevels(vs, start) && PairsSetUp(f, vs, setup, ps, leafPs, nonleafPs, 6)
    ensures PairsSetUp(f, start, setup, ps, leafPs, nonleafPs, 6)
  {
    forall a: Attr, v: nat, g: nat {:trigger AtLevels(a, v, g)}
      ensures Held(setup, AtLevels(a, v, g)) == PairDefault(f, start, ps, leafPs, nonleafPs, a, v, g, 6)
    {
      PairDefaultSame(f, vs, start, ps, leafPs, nonleafPs, a, v, g);
    }
  }

  lemma PairDefaultSame(f: Features, vs: Attrs, start: Attrs, ps: PageSize, leafPs: PageSize, nonleafPs: PageSize,
                        a: Attr, v: nat, g: nat)
    requires SameButLevels(vs, start)
    ensures PairDefault(f, vs, ps, leafPs, nonleafPs, a, v, g, 6) ==
            PairDefault(f, start, ps, leafPs, nonleafPs, a, v, g, 6)
  {
    var k := AtLevels(a, v, g);
    assert Same(vs, start, k) && Held(vs, k) == Held(start, k);
    PairSetupSame(f, vs, start, ps, leafPs, nonleafPs, a, v, g);
  }

  lemma PairSetupSame(f: Features, x: Attrs, y: Attrs, ps: PageSize, leafPs: PageSize, nonleafPs: PageSize,
                      a: Attr, v: nat, g: nat)
    requires Held(x, AtLevels(a, v, g)) == Held(y, AtLevels(a, v, g))
    ensures PairSetup(f, x, ps, leafPs, nonleafPs, a, v, g) == PairSetup(f, y, ps, leafPs, nonleafPs, a, v, g)
  {}

  /** Without VS paging the G page has a level in the G-stage walk. */
  lemma PickHasLevel(f: Features, leafPs: PageSize, vsPs: PageSize)
    requires f.gMode != Disable && vsPs in ValidSizes(f, f.vsMode)
    requires leafPs == vsPs || leafPs in ValidSizes(f, f.gMode)
    ensures f.vsMode == Disable ==> LevelExists(f.gMode, PtLeafLevel(leafPs))
  {}

  /** The pool's random address for the physical page (only what this code touches). */
  class RandomAddr {
    var size: nat
    var andMask: nat
  }

  class PageMapping {
    const pagesizes: seq<string>
    const gLeafPagesizes: seq<string>
    const gNonleafPagesizes: seq<string>
    const modifyPt: bool
    const modifyLeafPt: bool
    const modifyNonleafPt: bool
    const linked: bool

    var attrs: Attrs
    var finalPagesize: PageSize
    var address: Block
    var physAddress: Block
    var gLeafPagesize: PageSize
    var gNonleafPagesize: PageSize
    var gLeaf: Block
    var gNonleaf: Block

    method SetDefaultLevels(f: Features, attr: Attr, mode: PagingMode, ps: PageSize)
      modifies this`attrs
      ensures attrs == DefaultLevels(f, mode, ps, attr, old(attrs), MaxLevels(mode))
    {
      var leaf, max := PtLeafLevel(ps), MaxLevels(mode);
      ghost var was := attrs;
      if leaf < max {
        for level := leaf to max
          invariant attrs == DefaultLevels(f, mode, ps, attr, was, level)
        {
          var a := attrs[AtLevel(attr, level) := if level == leaf then LeafBit(f, mode, attr) else 0];
          assert a == DefaultLevels(f, mode, ps, attr, was, level + 1);
          attrs := a;
        }
      }
    }

    /** pt_attrs_helper (randomize_pt_attrs only forwards to it). */
    method PtAttrs(f: Features, attr: Attr, mode: PagingMode, ps: PageSize, b: Block) returns (raised: bool, r: Block)
      modifies this`attrs
      ensures raised <==> NonLeafFires(f, old(attrs), attr) && OverrideLevel(mode, ps).None?
      ensures attrs == WithOverride(f, mode, ps, WithDefaults(f, mode, ps, old(attrs), attr), attr)
      ensures r == VsBlockAfter(f, mode, ps, old(attrs), attr, b)
    {
      DefaultsKeepFiring(f, mode, ps, attrs, attr);
      if SetsDefaults(attr) { SetDefaultLevels(f, attr, mode, ps); }
      raised, r := ApplyOverride(f, attr, mode, ps, b);
    }

    method ApplyOverride(f: Features, attr: Attr, mode: PagingMode, ps: PageSize, b: Block)
      returns (raised: bool, r: Block)
      modifies this`attrs
      ensures raised <==> NonLeafFires(f, old(attrs), attr) && OverrideLevel(mode, ps).None?
      ensures attrs == WithOverride(f, mode, ps, old(attrs), attr)
      ensures r == VsBlockAfter(f, mode, ps, old(attrs), attr, b)
    {
      raised, r := false, b;
      var a, level := attrs, OverrideLevel(mode, ps);
      ghost var a', r' := WithOverride(f, mode, ps, a, attr), VsBlockAfter(f, mode, ps, a, attr, b);
      if OwnFires(f, a, attr) {
        a := a[AtLevel(attr, PtLeafLevel(ps)) := a[Own(attr)]];
      } else if NonLeafFires(f, a, attr) {
        if level.None? { return true, b; }
        OverrideLevelExists(mode, ps);
        r := LevelBlock(mode, level.value);
        if r.size < b.size { r := b; }
        assert r == r';
        a := a[AtLevel(attr, level.value) := a[NonLeaf(attr)]];
      }
      assert a == a';
      attrs := a;
    }

    /** The loop over the VS attributes. */
    method VsPhase(f: Features, mode: PagingMode, ps: PageSize, b: Block)
      returns (raised: bool, r: Block, ghost steps: seq<Block>)
      requires IsBlock(b)
      modifies this`attrs
      ensures SameButLevels(attrs, old(attrs)) && Chain(steps, b, r) && WithinRoot(mode, b, r)
      ensures !raised ==> |steps| == 11 && VsTrace(f, mode, ps, old(attrs), b, steps, 10)
      ensures raised <==> !LevelExists(mode, PtLeafLevel(ps)) && SomeAbove(f, old(attrs))
      ensures !raised ==> forall a :: VsOverridden(f, mode, ps, old(attrs), attrs, a, r)
      ensures !raised ==> forall a :: LevelsHold(f, mode, ps, old(attrs), attrs, a)
    {
      raised, r, steps := false, b, [b];
      ghost var start := attrs;
      VsStart(f, mode, ps, start, b);
      var i := 0;
      while i < |VS_ATTRS|
        invariant 0 <= i <= |VS_ATTRS| && !raised
        invariant VsState(f, mode, ps, start, attrs, b, r, steps, i)
        invariant VsQuiet(f, mode, ps, start, i)
      {
        ghost var before, was := attrs, r;
        raised, r := PtAttrs(f, VS_ATTRS[i], mode, ps, r);
        VsStep(f, mode, ps, start, before, attrs, b, was, r, steps, i);
        VsRaise(f, mode, ps, start, i, raised);
        if raised { return; }
        steps := steps + [r];
        i := i + 1;
      }
      VsQuietEnd(f, mode, ps, start);
      forall a ensures VsOverridden(f, mode, ps, start, attrs, a, r) && LevelsHold(f, mode, ps, start, attrs, a) {
        assert VsPosition(a) < i;
      }
    }

    /** setup_uwrx_bit: every G leaf entry of every VS level gets 1 and every entry above it 0.
        With VS paging off only the page's own leaf level is set. */
    method SetupStageDefaults(f: Features, attr: Attr, vsPs: PageSize, leafPs: PageSize, nonleafPs: PageSize)
      modifies this`attrs
      ensures SetUpOne(f, old(attrs), attrs, vsPs, leafPs, nonleafPs, attr)
    {
      var vsLevel, maxVs := PtLeafLevel(vsPs), MaxLevels(f.vsMode);
      ghost var start := attrs;
      RowsStart(f, start, vsPs, leafPs, nonleafPs, attr);
      while vsLevel < maxVs
        invariant PtLeafLevel(vsPs) <= vsLevel && RowsSetUp(f, start, attrs, vsPs, leafPs, nonleafPs, attr, vsLevel)
      {
        ghost var before := attrs;
        SetupRow(attr, vsLevel, GLeafFor(vsLevel, vsPs, leafPs, nonleafPs), MaxLevels(f.gMode));
        RowStep(f, start, before, attrs, vsPs, leafPs, nonleafPs, attr, vsLevel);
        vsLevel := vsLevel + 1;
      }
      ghost var rows := attrs;
      if f.vsMode == Disable { attrs := attrs[AtLevel(attr, PtLeafLevel(vsPs)) := 1]; }
      RowsDone(f, start, rows, attrs, vsPs, leafPs, nonleafPs, attr, vsLevel);
    }

    method SetupRow(attr: Attr, vsLevel: nat, gLeaf: nat, maxG: nat)
      modifies this`attrs
      ensures RowSetUp(old(attrs), attrs, attr, vsLevel, gLeaf, maxG)
    {
      ghost var before := attrs;
      var gLevel := gLeaf;
      while gLevel < maxG
        invariant gLeaf <= gLevel && RowSetUp(before, attrs, attr, vsLevel, gLeaf, gLevel)
        invariant gLevel <= maxG || gLevel == gLeaf
      {
        attrs := attrs[AtLevels(attr, vsLevel, gLevel) := if gLevel == gLeaf then 1 else 0];
        gLevel := gLevel + 1;
      }
      forall g: nat {:trigger AtLevels(attr, vsLevel, g)}
        ensures Held(attrs, AtLevels(attr, vsLevel, g)) ==
          if gLeaf <= g < maxG then Some(if g == gLeaf then 1 else 0) else Held(before, AtLevels(attr, vsLevel, g))
      {
        assert gLeaf <= g < maxG <==> gLeaf <= g < gLevel;
      }
    }

    /** randomize_gstage_pt_attrs */
    method StageAttr(f: Features, key: Key, vsPs: PageSize, leafPs: PageSize, nonleafPs: PageSize, leaf: Block,
                     nonleaf: Block)
      returns (raised: bool, leaf': Block, nonleaf': Block)
      requires key.Stage?
      requires f.vsMode != Disable ==> LevelExists(f.vsMode, PtLeafLevel(vsPs))
      modifies this`attrs
      ensures StageDone(f, key, vsPs, leafPs, nonleafPs, old(attrs), leaf, nonleaf, raised, attrs, leaf', nonleaf')
    {
      raised, leaf', nonleaf' := false, leaf, nonleaf;
      if StageFires(f, attrs, key) {
        if f.vsMode == Disable {
          raised, leaf' := BareStageAttr(f, key, leafPs, leaf);
        } else {
          StageLevelsExist(f, key, vsPs, leafPs, nonleafPs);
          var vl := StageVsLevel(f, vsPs, key.vsNonleaf).value;
          var gl := StageGLevel(f, key, vl, vsPs, leafPs, nonleafPs);
          raised, leaf', nonleaf' := StageBlocks(f, key, vl, gl, leaf, nonleaf);
          if !raised { attrs := attrs[AtLevels(key.attr, vl, gl.value) := attrs[key]]; }
        }
      }
    }

    /** With VS paging off the G stage is the only walk, and its map holds the attribute. */
    method BareStageAttr(f: Features, key: Key, leafPs: PageSize, leaf: Block) returns (raised: bool, leaf': Block)
      requires key.Stage? && key in attrs
      modifies this`attrs
      ensures BareOutcome(f, key, leafPs, old(attrs), leaf, raised, attrs, leaf') && SameStage(attrs, old(attrs))
    {
      raised, leaf' := false, leaf;
      if key.vsNonleaf {
        attrs := attrs[NonLeaf(key.attr) := attrs[key]];
        OnlyOwnLevels(f, f.gMode, leafPs, attrs, key.attr);
        raised, leaf' := PtAttrs(f, key.attr, f.gMode, leafPs, leaf);
      } else {
        attrs := attrs[AtLevel(key.attr, PtLeafLevel(leafPs)) := attrs[key]];
      }
    }

    /** The loop over the stage attributes. */
    method GPhase(f: Features, vsPs: PageSize, leafPs: PageSize, nonleafPs: PageSize, leaf: Block, nonleaf: Block)
      returns (raised: bool, leaf': Block, nonleaf': Block, ghost leafSteps: seq<Block>, ghost nonleafSteps: seq<Block>)
      requires f.vsMode != Disable ==> LevelExists(f.vsMode, PtLeafLevel(vsPs))
      requires leaf == BlockOf(SizeBits(leafPs)) && nonleaf == BlockOf(SizeBits(nonleafPs))
      requires nonleafPs in SupportedPagesizes(f.gMode, f.svnapot)
      requires f.vsMode == Disable ==> LevelExists(f.gMode, PtLeafLevel(leafPs))
      modifies this`attrs
      ensures raised <==> SomeStageRaises(f, old(attrs), leafPs)
      ensures !raised ==>
                StageReserved(f, old(attrs), vsPs, leafPs, nonleafPs, leaf', nonleaf', leafSteps, nonleafSteps)
      ensures !raised ==> StagesDone(f, old(attrs), attrs, vsPs, leafPs, nonleafPs, 40)
      ensures f.vsMode != Disable ==> forall k: Key :: !k.AtLevels? ==> Same(attrs, old(attrs), k)
    {
      raised, leaf', nonleaf' := false, leaf, nonleaf;
      leafSteps, nonleafSteps := [leaf], [nonleaf];
      ghost var start := attrs;
      BlockOfIsBlock(SizeBits(leafPs));
      GStart(f, start, vsPs, leafPs, nonleafPs, leaf, nonleaf);
      SomeStageRaisesIff(f, start, leafPs);
      var i := 0;
      while i < 40
        invariant 0 <= i <= 40 && !raised && NoStageRaises(f, start, leafPs, i)
        invariant GState(f, start, attrs, vsPs, leafPs, nonleafPs, leaf, nonleaf, leafSteps, nonleafSteps, leaf',
                         nonleaf', i)
      {
        ghost var before, l, n := attrs, leaf', nonleaf';
        raised, leaf', nonleaf' := StageAttr(f, StageKey(i), vsPs, leafPs, nonleafPs, leaf', nonleaf');
        GTurn(f, start, before, attrs, vsPs, leafPs, nonleafPs, leaf, nonleaf, leafSteps, nonleafSteps, l, n, i,
              raised, leaf', nonleaf');
        if raised { return; }
        leafSteps, nonleafSteps := leafSteps + [leaf'], nonleafSteps + [nonleaf'];
        i := i + 1;
      }
    }

    /** The VS page: its own list, the largest size excluded under a non-leaf constraint or modify_nonleaf_pt. */
    ghost predicate VsPick(f: Features, attrs: Attrs, ps: PageSize) {
      Picked(f, pagesizes, f.vsMode, linked, AnySignificant(attrs, VS_NONLEAF_CHECKS) || modifyNonleafPt, ps)
    }

    /** The G pages: behind the page that of the VS pick unless they have a list of their own, behind its tables the
        list of theirs. */
    ghost predicate StagePicks(f: Features, attrs: Attrs, vsPs: PageSize, leafPs: PageSize, nonleafPs: PageSize) {
      var constrained := AnySignificant(attrs, GSTAGE_NONLEAF_CHECKS);
      && (if gLeafPagesizes == [] then leafPs == vsPs
          else Picked(f, gLeafPagesizes, f.gMode, linked, constrained || modifyLeafPt, leafPs))
      && Picked(f, gNonleafPagesizes, f.gMode, linked, constrained || modifyNonleafPt, nonleafPs)
    }

    /** All sizes: with VS paging off the VS pick, always 4KB, gives way to the G page. */
    ghost predicate Picks(f: Features, attrs: Attrs, ps: PageSize, leafPs: PageSize, nonleafPs: PageSize) {
      && (f.vsMode != Disable ==> VsPick(f, attrs, ps))
      && (f.vsMode == Disable ==> ps == leafPs)
      && (f.gMode != Disable ==>
            StagePicks(f, attrs, if f.vsMode == Disable then S4KB else ps, leafPs, nonleafPs))
    }

    /** The page size of the VS page and of the G pages behind it and behind its tables. */
    method PickSizes(f: Features)
      returns (ps: PageSize, b: Block, leafPs: PageSize, leaf: Block, nonleafPs: PageSize, nonleaf: Block)
      ensures b == BlockOf(SizeBits(ps)) && leaf == BlockOf(SizeBits(leafPs)) && nonleaf == BlockOf(SizeBits(nonleafPs))
      ensures ps in ValidSizes(f, f.vsMode)
      ensures f.gMode != Disable ==> nonleafPs in SupportedPagesizes(f.gMode, f.svnapot)
      ensures f.gMode != Disable && f.vsMode == Disable ==> LevelExists(f.gMode, PtLeafLevel(leafPs))
      ensures VsPick(f, attrs, ps) && (f.gMode != Disable ==> StagePicks(f, attrs, ps, leafPs, nonleafPs))
      ensures f.gMode == Disable ==> leafPs == ps
    {
      var exclude := HasSignificantConstraints(attrs, VS_NONLEAF_CHECKS);
      ps, b := PickPagesize(f, pagesizes, f.vsMode, linked, exclude || modifyNonleafPt);
      leafPs, leaf, nonleafPs, nonleaf := ps, b, ps, b;
      if f.gMode != Disable {
        var excludeG := HasSignificantConstraints(attrs, GSTAGE_NONLEAF_CHECKS);
        if gLeafPagesizes != [] {
          leafPs, leaf := PickPagesize(f, gLeafPagesizes, f.gMode, linked, excludeG || modifyLeafPt);
        }
        nonleafPs, nonleaf := PickPagesize(f, gNonleafPagesizes, f.gMode, linked, excludeG || modifyNonleafPt);
        PickHasLevel(f, leafPs, ps);
      }
    }

    /** modify_pt reserves a root entry; modify_nonleaf_pt the entry above the leaf. */
    method ModifyBlocks(f: Features, mode: PagingMode, ps: PageSize, b: Block)
      returns (raised: bool, r: Block, ghost steps: seq<Block>)
      requires IsBlock(b)
      requires f.vsMode != Disable ==> mode == f.vsMode && b.size <= Pow2(Lo(mode, MaxLevels(mode) - 1))
      ensures raised <==>
                (modifyPt && f.vsMode == Disable) || (modifyNonleafPt && !LevelExists(mode, PtLeafLevel(ps) + 1))
      ensures !raised ==> Chain(steps, b, r)
      ensures !raised && modifyPt ==> r.size == Pow2(Lo(mode, MaxLevels(mode) - 1))
      ensures !raised && modifyNonleafPt ==> Pow2(Lo(mode, PtLeafLevel(ps) + 1)) <= r.size
      ensures !raised ==> |steps| == 3 && steps[1] == AfterModifyPt(modifyPt, mode, b)
                           && steps[2] == AfterModifyNonleaf(modifyNonleafPt, mode, ps, steps[1])
    {
      steps := [b];
      raised, r := RootBlock(f, mode, b);
      if raised { return; }
      ghost var root := r;
      ChainExtend(steps, b, b, root);
      raised, r := AboveLeafBlock(mode, ps, r);
      if raised { return; }
      ChainExtend(steps + [root], b, root, r);
      steps := steps + [root] + [r];
    }

    method RootBlock(f: Features, mode: PagingMode, b: Block) returns (raised: bool, r: Block)
      requires IsBlock(b)
      requires f.vsMode != Disable ==> mode == f.vsMode && b.size <= Pow2(Lo(mode, MaxLevels(mode) - 1))
      ensures raised <==> modifyPt && f.vsMode == Disable
      ensures !raised ==> r == AfterModifyPt(modifyPt, mode, b) && IsBlock(r) && b.size <= r.size
      ensures !raised && modifyPt ==> mode != Disable && r.size == Pow2(Lo(mode, MaxLevels(mode) - 1))
    {
      raised, r := false, b;
      if modifyPt {
        if IndexBits(f.vsMode, MaxLevels(mode) - 1).None? { return true, r; }
        r := LevelBlock(mode, MaxLevels(mode) - 1);
        BlockOfIsBlock(Lo(mode, MaxLevels(mode) - 1));
      }
    }

    method AboveLeafBlock(mode: PagingMode, ps: PageSize, b: Block) returns (raised: bool, r: Block)
      requires IsBlock(b)
      ensures raised <==> modifyNonleafPt && !LevelExists(mode, PtLeafLevel(ps) + 1)
      ensures !raised ==> r == AfterModifyNonleaf(modifyNonleafPt, mode, ps, b) && IsBlock(r) && b.size <= r.size
      ensures !raised && modifyNonleafPt ==> Pow2(Lo(mode, PtLeafLevel(ps) + 1)) <= r.size
      ensures !raised && mode != Disable && b.size == Pow2(Lo(mode, MaxLevels(mode) - 1)) ==> r.size == b.size
    {
      raised, r := false, b;
      if modifyNonleafPt {
        var level := PtLeafLevel(ps) + 1;
        IndexBitsTile(mode, level);
        if IndexBits(mode, level).None? { return true, r; }
        r := MeetLevel(mode, level, r);
        LargerSpan(mode, level, b);
      }
    }

    /** The larger size and the meet of the masks. */
    static method MeetLevel(mode: PagingMode, level: nat, b: Block) returns (r: Block)
      requires LevelExists(mode, level) && IsBlock(b)
      ensures r == Larger(b, BlockOf(Lo(mode, level)))
    {
      var span := LevelBlock(mode, level);
      BlockOfIsBlock(Lo(mode, level));
      MeetOfBlocks(b, span);
      r := Block(if b.size > span.size then b.size else span.size, And(b.mask, span.mask));
    }

    /** The picks and the VS attribute loop. The mode is the walk the VS attributes apply to. */
    method VsReserve(f: Features)
      returns (raised: bool, mode: PagingMode, ps: PageSize, leafPs: PageSize, nonleafPs: PageSize,
               b: Block, leaf: Block, nonleaf: Block, ghost vsSteps: seq<Block>)
      requires !(f.vsMode == Disable && f.gMode == Disable)
      modifies this`attrs
      ensures mode == WalkMode(f)
      ensures raised <==> WalkMode(f) == Disable && SomeAbove(f, old(attrs))
      ensures !raised ==> VsReserved(f, ps, old(attrs), b, vsSteps)
      ensures leaf == BlockOf(SizeBits(leafPs)) && nonleaf == BlockOf(SizeBits(nonleafPs))
      ensures f.vsMode == Disable ==> ps == leafPs
      ensures f.gMode != Disable ==> nonleafPs in SupportedPagesizes(f.gMode, f.svnapot)
      ensures SameButLevels(attrs, old(attrs))
      ensures f.vsMode != Disable ==> LevelExists(f.vsMode, PtLeafLevel(ps)) && RootFits(f.vsMode, b)
      ensures !raised && f.vsMode != Disable ==> forall a :: VsOverridden(f, f.vsMode, ps, old(attrs), attrs, a, b)
      ensures !raised ==> forall a :: LevelsHold(f, mode, ps, old(attrs), attrs, a)
      ensures Picks(f, old(attrs), ps, leafPs, nonleafPs)
      ensures f.vsMode == Disable ==> LevelExists(f.gMode, PtLeafLevel(ps))
      ensures PicksBelowRoot(f, old(attrs), pagesizes, modifyNonleafPt, ps)
    {
      mode, ps, leafPs, nonleafPs, b, leaf, nonleaf := PickWalk(f);
      BlockOfIsBlock(SizeBits(ps));
      raised, b, vsSteps := VsPhase(f, mode, ps, b);
    }

    /** The picks: without VS paging the page is the G-stage leaf page. */
    method PickWalk(f: Features)
      returns (mode: PagingMode, ps: PageSize, leafPs: PageSize, nonleafPs: PageSize,
               b: Block, leaf: Block, nonleaf: Block)
      ensures mode == WalkMode(f)
      ensures b == BlockOf(SizeBits(ps)) && leaf == BlockOf(SizeBits(leafPs)) && nonleaf == BlockOf(SizeBits(nonleafPs))
      ensures f.vsMode == Disable ==> ps == leafPs
      ensures f.gMode != Disable ==> nonleafPs in SupportedPagesizes(f.gMode, f.svnapot)
      ensures f.vsMode != Disable ==> LevelExists(f.vsMode, PtLeafLevel(ps)) && RootFits(f.vsMode, b)
      ensures PicksBelowRoot(f, attrs, pagesizes, modifyNonleafPt, ps)
      ensures Picks(f, attrs, ps, leafPs, nonleafPs)
      ensures f.gMode != Disable && f.vsMode == Disable ==> LevelExists(f.gMode, PtLeafLevel(ps))
    {
      ps, b, leafPs, leaf, nonleafPs, nonleaf := PickSizes(f);
      LevelsOfPick(f, ps, pagesizes, AnySignificant(attrs, VS_NONLEAF_CHECKS) || modifyNonleafPt);
      mode := if f.vsMode == Disable && f.virtualized then f.gMode else f.vsMode;
      if f.vsMode == Disable { ps, b := leafPs, leaf; } else { RootCovers(f, mode, ps); }
    }

    /** The G-stage defaults and attribute loop, on attributes that the VS loop made of `start`. */
    method GReserve(f: Features, ps: PageSize, leafPs: PageSize, nonleafPs: PageSize, leaf: Block, nonleaf: Block,
                    ghost start: Attrs)
      returns (raised: bool, leaf': Block, nonleaf': Block, ghost leafSteps: seq<Block>, ghost nonleafSteps: seq<Block>)
      requires leaf == BlockOf(SizeBits(leafPs)) && nonleaf == BlockOf(SizeBits(nonleafPs))
      requires f.vsMode != Disable ==> LevelExists(f.vsMode, PtLeafLevel(ps))
      requires f.vsMode == Disable ==> ps == leafPs && LevelExists(f.gMode, PtLeafLevel(ps))
      requires nonleafPs in SupportedPagesizes(f.gMode, f.svnapot)
      requires SameButLevels(attrs, start) && forall a :: LevelsHold(f, WalkMode(f), ps, start, attrs, a)
      modifies this`attrs
      ensures raised <==> SomeStageRaises(f, start, leafPs)
      ensures !raised ==> StageReserved(f, start, ps, leafPs, nonleafPs, leaf', nonleaf', leafSteps, nonleafSteps)
      ensures f.vsMode != Disable ==> forall k: Key :: !k.AtLevels? ==> Same(attrs, old(attrs), k)
      ensures !raised ==> AttrsHold(f, ps, leafPs, nonleafPs, start, attrs)
    {
      ghost var vs := attrs;
      SetupPhase(f, ps, leafPs, nonleafPs);
      ghost var setup := attrs;
      raised, leaf', nonleaf', leafSteps, nonleafSteps := GPhase(f, ps, leafPs, nonleafPs, leaf, nonleaf);
      forall k: Key | !k.AtLevels? && f.vsMode != Disable ensures Same(attrs, vs, k) {
        assert Same(attrs, setup, k) && Same(setup, vs, k);
      }
      StageOfSame(setup, vs, start);
      RaisesOfSame(f, setup, start, leafPs);
      if !raised {
        StageReservedSame(f, setup, start, ps, leafPs, nonleafPs, leaf', nonleaf', leafSteps, nonleafSteps);
        AttrsDone(f, ps, leafPs, nonleafPs, start, vs, setup, attrs);
      }
    }

    /** The attribute loops raise without a walk for the VS attributes that need a level, or without a level above the G
        page. */
    ghost predicate LoopRaises(f: Features, attrs: Attrs, leafPs: PageSize) {
      || (WalkMode(f) == Disable && SomeAbove(f, attrs))
      || (f.gMode != Disable && SomeStageRaises(f, attrs, leafPs))
    }

    /** And the whole run also at the modify flags: modify_pt without VS paging, modify_nonleaf_pt without a level above
        the page's, and it and modify_leaf_pt without a G stage. */
    ghost predicate Raises(f: Features, attrs: Attrs, ps: PageSize, leafPs: PageSize) {
      || LoopRaises(f, attrs, leafPs)
      || (modifyPt && f.vsMode == Disable)
      || (modifyNonleafPt && !LevelExists(WalkMode(f), PtLeafLevel(ps) + 1))
      || ((modifyLeafPt || modifyNonleafPt) && f.gMode == Disable)
    }

    /** The picks and both attribute loops. */
    method LoopReserve(f: Features)
      returns (raised: bool, mode: PagingMode, ps: PageSize, leafPs: PageSize, nonleafPs: PageSize,
               b: Block, leaf: Block, nonleaf: Block,
               ghost vsSteps: seq<Block>, ghost leafSteps: seq<Block>, ghost nonleafSteps: seq<Block>)
      requires !(f.vsMode == Disable && f.gMode == Disable)
      modifies this`attrs
      ensures mode == WalkMode(f)
      ensures raised <==> LoopRaises(f, old(attrs), leafPs)
      ensures !raised ==> LoopReserved(f, ps, old(attrs), b, vsSteps, leafSteps)
      ensures !raised && f.gMode != Disable ==>
                StageReserved(f, old(attrs), ps, leafPs, nonleafPs, leaf, nonleaf, leafSteps, nonleafSteps)
      ensures f.vsMode != Disable ==> LevelExists(f.vsMode, PtLeafLevel(ps)) && RootFits(f.vsMode, b)
      ensures !raised && f.vsMode != Disable ==> forall a :: VsOverridden(f, f.vsMode, ps, old(attrs), attrs, a, b)
      ensures !raised ==> AttrsHold(f, ps, leafPs, nonleafPs, old(attrs), attrs)
      ensures Picks(f, old(attrs), ps, leafPs, nonleafPs)
      ensures PicksBelowRoot(f, old(attrs), pagesizes, modifyNonleafPt, ps)
    {
      leafSteps, nonleafSteps := [], [];
      ghost var start := attrs;
      raised, mode, ps, leafPs, nonleafPs, b, leaf, nonleaf, vsSteps := VsReserve(f);
      if raised { return; }
      ghost var afterVs, vsOnly := attrs, vsSteps;
      if f.gMode != Disable {
        raised, leaf, nonleaf, leafSteps, nonleafSteps := GReserve(f, ps, leafPs, nonleafPs, leaf, nonleaf, start);
        if raised { return; }
        VsReservedJoin(f, ps, start, b, vsSteps, leaf, leafSteps);
        if mode == Disable { b, vsSteps := leaf, vsSteps + leafSteps; }
        forall a | f.vsMode != Disable ensures VsOverridden(f, f.vsMode, ps, start, attrs, a, b) {
          OverriddenKept(f, f.vsMode, ps, start, afterVs, attrs, a, b, b);
        }
      }
    }

    /** The attribute loops and the modify_* overrides, on the reservations alone. */
    method Reserve(f: Features)
      returns (raised: bool, ps: PageSize, leafPs: PageSize, nonleafPs: PageSize, b: Block, leaf: Block, nonleaf: Block,
               ghost vsSteps: seq<Block>, ghost leafSteps: seq<Block>, ghost nonleafSteps: seq<Block>)
      requires !(f.vsMode == Disable && f.gMode == Disable)
      modifies this`attrs
      ensures raised <==> || LoopRaises(f, old(attrs), leafPs) || (modifyPt && f.vsMode == Disable)
                          || (modifyNonleafPt && !LevelExists(WalkMode(f), PtLeafLevel(ps) + 1))
      ensures !raised ==> Reserved(f, ps, old(attrs), modifyPt, modifyNonleafPt, b, vsSteps, leafSteps)
      ensures !raised && f.gMode != Disable ==>
                StageReserved(f, old(attrs), ps, leafPs, nonleafPs, leaf, nonleaf, leafSteps, nonleafSteps)
      ensures !raised && modifyPt ==> f.vsMode != Disable
      ensures !raised && f.vsMode != Disable ==> Owns(f, ps, old(attrs), attrs, modifyPt, modifyNonleafPt, b)
      ensures !raised ==> AttrsHold(f, ps, leafPs, nonleafPs, old(attrs), attrs)
      ensures Picks(f, old(attrs), ps, leafPs, nonleafPs)
      ensures PicksBelowRoot(f, old(attrs), pagesizes, modifyNonleafPt, ps)
    {
      var mode;
      raised, mode, ps, leafPs, nonleafPs, b, leaf, nonleaf, vsSteps, leafSteps, nonleafSteps := LoopReserve(f);
      if raised { return; }
      ghost var was, more := b, [];
      ChainEnd(vsSteps, BlockOf(SizeBits(ps)), b);
      raised, b, more := ModifyBlocks(f, mode, ps, b);
      if raised { return; }
      ReservedJoin(f, ps, old(attrs), modifyPt, modifyNonleafPt, was, vsSteps, leafSteps, b, more);
      vsSteps := vsSteps + more;
      ChainEnd(more, was, b);
      if f.vsMode != Disable { OwnsMore(f, ps, old(attrs), attrs, false, false, was, b); }
    }

    method SetupPhase(f: Features, ps: PageSize, leafPs: PageSize, nonleafPs: PageSize)
      modifies this`attrs
      ensures f.vsMode != Disable ==> forall k: Key :: !k.AtLevels? ==> Same(attrs, old(attrs), k)
      ensures SameStage(attrs, old(attrs))
      ensures PairsSetUp(f, old(attrs), attrs, ps, leafPs, nonleafPs, 6) && LeavesSetUp(f, old(attrs), attrs, ps, 6)
    {
      ghost var start := attrs;
      var i := 0;
      while i < |SETUP_ATTRS|
        invariant 0 <= i <= |SETUP_ATTRS| && SameStage(attrs, start)
        invariant f.vsMode != Disable ==> forall k: Key :: !k.AtLevels? ==> Same(attrs, start, k)
        invariant PairsSetUp(f, start, attrs, ps, leafPs, nonleafPs, i) && LeavesSetUp(f, start, attrs, ps, i)
      {
        ghost var before := attrs;
        var attr := SETUP_ATTRS[i];
        SetupStageDefaults(f, attr, ps, leafPs, nonleafPs);
        SetUpKeeps(f, before, attrs, ps, leafPs, nonleafPs, attr, start);
        SetUpStep(f, start, before, attrs, ps, leafPs, nonleafPs, i);
        i := i + 1;
      }
    }

    /** Storing the reservations, with the physical and the G-stage adjustments. */
    method Record(f: Features, ps: PageSize, leafPs: PageSize, nonleafPs: PageSize, b: Block, leaf: Block,
                  nonleaf: Block) returns (raised: bool)
      modifies this`finalPagesize, this`address, this`physAddress, this`gLeafPagesize, this`gNonleafPagesize,
        this`gLeaf, this`gNonleaf
      ensures raised <==> (modifyLeafPt || modifyNonleafPt) && f.gMode == Disable
      ensures finalPagesize == ps
      ensures !raised ==> address == if f.gMode != Disable then Grow(b, leaf) else b
      ensures !raised ==> physAddress == PhysFor(f, ps, modifyPt, modifyLeafPt, b)
      ensures !raised && f.gMode != Disable ==>
                gLeafPagesize == leafPs && gNonleafPagesize == nonleafPs && gLeaf == leaf
      ensures !raised && f.gMode != Disable ==>
                gNonleaf == if modifyNonleafPt then NextBlock(f.gMode, nonleafPs) else nonleaf
    {
      finalPagesize, address := ps, b;
      var phys;
      raised, phys := PhysBlock(f, ps, b);
      physAddress := phys;
      if raised { return; }
      var table;
      raised, table := TableBlock(f, nonleafPs, nonleaf);
      if raised { return; }
      if f.gMode != Disable {
        gLeafPagesize, gNonleafPagesize, gLeaf, gNonleaf := leafPs, nonleafPs, leaf, table;
        if b.size < leaf.size { address := leaf; }
      }
    }

    /** modify_nonleaf_pt widens the block of the tables; without a G stage there is no G page size to read and this
        raises. */
    method TableBlock(f: Features, nonleafPs: PageSize, nonleaf: Block) returns (raised: bool, table: Block)
      ensures raised <==> modifyNonleafPt && f.gMode == Disable
      ensures !raised ==> table == if modifyNonleafPt then NextBlock(f.gMode, nonleafPs) else nonleaf
    {
      raised, table := false, nonleaf;
      if modifyNonleafPt {
        if f.gMode == Disable { return true, table; }
        table := NextPageBlock(f.gMode, nonleafPs);
      }
    }

    method PhysBlock(f: Features, ps: PageSize, b: Block) returns (raised: bool, phys: Block)
      ensures raised <==> modifyLeafPt && f.gMode == Disable
      ensures !raised ==> phys == PhysFor(f, ps, modifyPt, modifyLeafPt, b)
    {
      raised, phys := false, b;
      if modifyPt { phys := PageBlock(ps); }
      if modifyLeafPt {
        var target := NextPtLevelPagesize(f.gMode, ps);
        if target.None? { return true, phys; }
        phys := PageBlock(target.value);
      }
    }

    /** With paging on: everything reserved and recorded in the page mapping. */
    method ReserveAndRecord(f: Features)
      returns (raised: bool, ghost ps: PageSize, ghost leafPs: PageSize, ghost nonleafPs: PageSize,
               ghost vsSteps: seq<Block>, ghost leafSteps: seq<Block>, ghost nonleafSteps: seq<Block>)
      requires !(f.vsMode == Disable && f.gMode == Disable)
      modifies this
      ensures Picks(f, old(attrs), ps, leafPs, nonleafPs) && (raised <==> Raises(f, old(attrs), ps, leafPs))
      ensures !raised ==> finalPagesize == ps
      ensures !raised && f.gMode != Disable ==> gLeafPagesize == leafPs && gNonleafPagesize == nonleafPs
      ensures !raised ==>
                AddressRun(f, finalPagesize, old(attrs), modifyPt, modifyNonleafPt, vsSteps, leafSteps, gLeaf, address)
      ensures !raised && f.gMode != Disable ==>
                && StageRun(f, old(attrs), finalPagesize, gLeafPagesize, gNonleafPagesize, modifyNonleafPt,
                            leafSteps, nonleafSteps, gLeaf, gNonleaf)
                && gLeaf.size <= address.size
      ensures !raised && modifyPt && f.gMode != Disable ==> f.vsMode != Disable
      ensures !raised && f.vsMode != Disable ==>
                Owns(f, finalPagesize, old(attrs), attrs, modifyPt, modifyNonleafPt, address)
      ensures !raised && f.vsMode != Disable && f.gMode != Disable ==>
                CoveredBy(f, old(attrs), finalPagesize, gLeafPagesize, gNonleafPagesize, gLeaf, gNonleaf)
      ensures !raised ==> PicksBelowRoot(f, old(attrs), pagesizes, modifyNonleafPt, finalPagesize)
      ensures !raised ==>
                && Picks(f, old(attrs), finalPagesize, gLeafPagesize, gNonleafPagesize)
                && AttrsHold(f, finalPagesize, gLeafPagesize, gNonleafPagesize, old(attrs), attrs)
      ensures !raised && modifyLeafPt && f.gMode != Disable ==> physAddress == NextBlock(f.gMode, finalPagesize)
      ensures !raised && !modifyLeafPt && modifyPt && f.vsMode != Disable ==>
                physAddress == BlockOf(SizeBits(finalPagesize))
      ensures !raised && !modifyLeafPt && !modifyPt ==> physAddress == vsSteps[LoopSteps(f) + 2]
    {
      var size, leafSize, tableSize, b, leaf, nonleaf;
      ghost var start := attrs;
      raised, size, leafSize, tableSize, b, leaf, nonleaf, vsSteps, leafSteps, nonleafSteps := Reserve(f);
      ps, leafPs, nonleafPs := size, leafSize, tableSize;
      if raised { return; }
      raised := Record(f, size, leafSize, tableSize, b, leaf, nonleaf);
      if raised { return; }
      AddressRecorded(f, ps, start, modifyPt, modifyNonleafPt, b, vsSteps, leafSteps, leaf, address);
      vsSteps := vsSteps + [address];
      if f.gMode != Disable {
        StageRecorded(f, start, ps, leafPs, nonleafPs, modifyNonleafPt, leaf, nonleaf, leafSteps, nonleafSteps,
                      gNonleaf);
        nonleafSteps := nonleafSteps + [gNonleaf];
      }
      if f.vsMode != Disable { OwnsMore(f, ps, start, attrs, modifyPt, modifyNonleafPt, b, address); }
    }

    /** randomize_pagesize. The ghost results record every value each reservation takes; `physRandom` is the pool's
        random address for the physical page, if it has one. */
    method RandomizePagesize(f: Features, physRandom: RandomAddr?)
      returns (raised: bool, ghost ps: PageSize, ghost leafPs: PageSize, ghost nonleafPs: PageSize,
               ghost vsSteps: seq<Block>, ghost leafSteps: seq<Block>, ghost nonleafSteps: seq<Block>)
      modifies this, physRandom
      // nothing to do without paging
      ensures f.vsMode == Disable && f.gMode == Disable ==> !raised && unchanged(this)
      ensures raised || (f.vsMode == Disable && f.gMode == Disable) ==> physRandom != null ==> unchanged(physRandom)
      // which sizes are picked, and when it raises
      ensures !(f.vsMode == Disable && f.gMode == Disable) ==>
                Picks(f, old(attrs), ps, leafPs, nonleafPs) && (raised <==> Raises(f, old(attrs), ps, leafPs))
      ensures !raised && !(f.vsMode == Disable && f.gMode == Disable) ==>
                finalPagesize == ps &&
                (f.gMode != Disable ==> gLeafPagesize == leafPs && gNonleafPagesize == nonleafPs)
      // every value of every reservation, in order: a block, and none smaller than the one before
      ensures !raised && !(f.vsMode == Disable && f.gMode == Disable) ==>
                AddressRun(f, finalPagesize, old(attrs), modifyPt, modifyNonleafPt, vsSteps, leafSteps, gLeaf, address)
      ensures !raised && f.gMode != Disable ==>
                && StageRun(f, old(attrs), finalPagesize, gLeafPagesize, gNonleafPagesize, modifyNonleafPt,
                            leafSteps, nonleafSteps, gLeaf, gNonleaf)
                && gLeaf.size <= address.size
      // the entries the page must own
      ensures !raised && modifyPt && f.gMode != Disable ==> f.vsMode != Disable
      ensures !raised && f.vsMode != Disable ==>
                Owns(f, finalPagesize, old(attrs), attrs, modifyPt, modifyNonleafPt, address)
      ensures !raised && f.vsMode != Disable && f.gMode != Disable ==>
                CoveredBy(f, old(attrs), finalPagesize, gLeafPagesize, gNonleafPagesize, gLeaf, gNonleaf)
      // non-leaf overrides are written one level above the leaf unless the user names the largest size
      ensures !raised ==> PicksBelowRoot(f, old(attrs), pagesizes, modifyNonleafPt, finalPagesize)
      // which sizes the pages have, and what every level of the walk holds for every attribute
      ensures !raised && !(f.vsMode == Disable && f.gMode == Disable) ==>
                && Picks(f, old(attrs), finalPagesize, gLeafPagesize, gNonleafPagesize)
                && AttrsHold(f, finalPagesize, gLeafPagesize, gNonleafPagesize, old(attrs), attrs)
      // the physical reservation
      ensures !raised && modifyLeafPt && f.gMode != Disable ==> physAddress == NextBlock(f.gMode, finalPagesize)
      ensures !raised && !modifyLeafPt && modifyPt && f.vsMode != Disable ==>
                physAddress == BlockOf(SizeBits(finalPagesize))
      ensures !raised && !modifyLeafPt && !modifyPt && !(f.vsMode == Disable && f.gMode == Disable) ==>
                physAddress == vsSteps[LoopSteps(f) + 2]
      ensures !raised && !(f.vsMode == Disable && f.gMode == Disable) && physRandom != null ==>
                Block(physRandom.size, physRandom.andMask) ==
                  Widened(Block(old(physRandom.size), old(physRandom.andMask)), physAddress)
    {
      raised, ps, leafPs, nonleafPs, vsSteps, leafSteps, nonleafSteps := false, S4KB, S4KB, S4KB, [], [], [];
      if f.vsMode == Disable && f.gMode == Disable { return; }
      raised, ps, leafPs, nonleafPs, vsSteps, leafSteps, nonleafSteps := ReserveAndRecord(f);
      if !raised && physRandom != null { WidenRandom(physRandom); }
    }

    /** The physical page's random address takes the larger size and the smaller mask. */
    method WidenRandom(physRandom: RandomAddr)
      modifies physRandom
      ensures Block(physRandom.size, physRandom.andMask) ==
                Widened(Block(old(physRandom.size), old(physRandom.andMask)), physAddress)
    {
      if physRandom.size < physAddress.size { physRandom.size := physAddress.size; }
      if physAddress.mask < physRandom.andMask { physRandom.andMask := physAddress.mask; }
    }
  }

  function Widened(b: Block, c: Block): Block {
    Block(if c.size > b.size then c.size else b.size, if c.mask < b.mask then c.mask else b.mask)
  }

  /** On blocks the larger size and the smaller mask belong together. */
  lemma WidenedIsLarger(b: Block, c: Block)
    requires IsBlock(b) && IsBlock(c)
    ensures Widened(b, c) == Larger(b, c)
  {}

  /** The linear reservation spans every VS entry that the page overrides or lets the test modify. */
  ghost predicate Owns(f: Features, ps: PageSize, start: Attrs, attrs: Attrs, modifyPt: bool, modifyNonleafPt: bool,
                       b: Block)
    requires f.vsMode != Disable
  {
    && (modifyPt ==> Pow2(Lo(f.vsMode, MaxLevels(f.vsMode) - 1)) <= b.size)
    && (modifyNonleafPt ==>
          LevelExists(f.vsMode, PtLeafLevel(ps) + 1) && Pow2(Lo(f.vsMode, PtLeafLevel(ps) + 1)) <= b.size)
    && (forall a :: VsOverridden(f, f.vsMode, ps, start, attrs, a, b))
  }

  lemma OwnsMore(f: Features, ps: PageSize, start: Attrs, attrs: Attrs, modifyPt: bool, modifyNonleafPt: bool,
                 was: Block, b: Block)
    requires f.vsMode != Disable && was.size <= b.size
    requires Owns(f, ps, start, attrs, modifyPt, modifyNonleafPt, was)
    ensures Owns(f, ps, start, attrs, modifyPt, modifyNonleafPt, b)
  {
    forall a ensures VsOverridden(f, f.vsMode, ps, start, attrs, a, b) {
      OverriddenKept(f, f.vsMode, ps, start, attrs, attrs, a, was, b);
    }
  }

  /** The G-stage reservations as they are stored. */
  lemma StageRecorded(f: Features, attrs: Attrs, ps: PageSize, leafPs: PageSize, nonleafPs: PageSize,
                      modifyNonleafPt: bool, leaf: Block, nonleaf: Block,
                      leafSteps: seq<Block>, nonleafSteps: seq<Block>, stored: Block)
    requires StageReserved(f, attrs, ps, leafPs, nonleafPs, leaf, nonleaf, leafSteps, nonleafSteps)
    requires stored == if modifyNonleafPt then NextBlock(f.gMode, nonleafPs) else nonleaf
    ensures StageRun(f, attrs, ps, leafPs, nonleafPs, modifyNonleafPt, leafSteps, nonleafSteps + [stored], leaf, stored)
    ensures f.vsMode != Disable ==> CoveredBy(f, attrs, ps, leafPs, nonleafPs, leaf, stored)
  {
    StoredGrows(f, nonleafPs, BlockOf(SizeBits(nonleafPs)), nonleaf, nonleafSteps, stored);
    ChainExtend(nonleafSteps, BlockOf(SizeBits(nonleafPs)), nonleaf, stored);
    StageTraceExtend(f, attrs, ps, leafPs, nonleafPs, (BlockOf(SizeBits(leafPs)), BlockOf(SizeBits(nonleafPs))),
                     leafSteps, nonleafSteps, stored);
    if f.vsMode != Disable { CoveredAll(f, attrs, ps, leafPs, nonleafPs, leaf, nonleaf, stored); }
  }

  lemma StoredGrows(f: Features, nonleafPs: PageSize, first: Block, nonleaf: Block, steps: seq<Block>, stored: Block)
    requires Chain(steps, first, nonleaf) && f.gMode != Disable
    requires nonleaf.size <= NextBlock(f.gMode, nonleafPs).size
    requires stored == nonleaf || stored == NextBlock(f.gMode, nonleafPs)
    ensures IsBlock(stored) && nonleaf.size <= stored.size
  {
    BlockOfIsBlock(SizeBits(NextPtLevelPagesize(f.gMode, nonleafPs).value));
    ChainEnd(steps, first, nonleaf);
  }

  lemma StageTraceExtend(f: Features, attrs: Attrs, ps: PageSize, leafPs: PageSize, nonleafPs: PageSize,
                         bs: (Block, Block), leafSteps: seq<Block>, nonleafSteps: seq<Block>, next: Block)
    requires StageTrace(f, attrs, ps, leafPs, nonleafPs, bs, leafSteps, nonleafSteps, 40)
    ensures StageTrace(f, attrs, ps, leafPs, nonleafPs, bs, leafSteps, nonleafSteps + [next], 40)
  {
    forall i | 0 <= i <= 40
      ensures (leafSteps[i], (nonleafSteps + [next])[i]) == StageAt(f, attrs, ps, leafPs, nonleafPs, bs, i)
    {
      assert (nonleafSteps + [next])[i] == nonleafSteps[i];
    }
  }

  /** The linear reservation as it is stored. */
  lemma AddressRecorded(f: Features, ps: PageSize, attrs: Attrs, modifyPt: bool, modifyNonleafPt: bool, b: Block,
                        steps: seq<Block>, leafSteps: seq<Block>, gLeaf: Block, stored: Block)
    requires Reserved(f, ps, attrs, modifyPt, modifyNonleafPt, b, steps, leafSteps)
    requires f.gMode != Disable ==> exists first :: Chain(leafSteps, first, gLeaf)
    requires stored == if f.gMode == Disable then b else Grow(b, gLeaf)
    ensures AddressRun(f, ps, attrs, modifyPt, modifyNonleafPt, steps + [stored], leafSteps, gLeaf, stored)
    ensures b.size <= stored.size && (f.gMode != Disable ==> gLeaf.size <= stored.size)
  {
    ChainEnd(steps, BlockOf(SizeBits(ps)), b);
    if f.gMode != Disable {
      var first :| Chain(leafSteps, first, gLeaf);
      ChainEnd(leafSteps, first, gLeaf);
    }
    ChainExtend(steps, BlockOf(SizeBits(ps)), b, stored);
    LoopTraceExtend(f, ps, attrs, steps, leafSteps, [stored]);
  }

  /** One stage attribute: the blocks stay well-formed and only grow, the G table block stays within the
      next page size, and the attribute's entries are covered. */
  lemma StageStep(f: Features, key: Key, vsPs: PageSize, leafPs: PageSize, nonleafPs: PageSize,
                  before: Attrs, leaf: Block, nonleaf: Block, raised: bool, after: Attrs, leaf': Block, nonleaf': Block)
    requires key.Stage? && IsBlock(leaf) && IsBlock(nonleaf)
    requires f.vsMode != Disable ==> LevelExists(f.vsMode, PtLeafLevel(vsPs))
    requires nonleafPs in SupportedPagesizes(f.gMode, f.svnapot) && f.gMode != Disable
    requires nonleaf.size <= NextBlock(f.gMode, nonleafPs).size
    requires !StageFires(f, before, key) ==> !raised && after == before && leaf' == leaf && nonleaf' == nonleaf
    requires StageFires(f, before, key) && f.vsMode != Disable ==>
               StageOutcome(f, key, vsPs, leafPs, nonleafPs, before, leaf, nonleaf, raised, after, leaf', nonleaf')
    requires StageFires(f, before, key) && f.vsMode == Disable ==>
               nonleaf' == nonleaf && BareOutcome(f, key, leafPs, before, leaf, raised, after, leaf')
    ensures !raised ==> IsBlock(leaf') && IsBlock(nonleaf') && leaf.size <= leaf'.size && nonleaf.size <= nonleaf'.size
    ensures !raised ==> nonleaf'.size <= NextBlock(f.gMode, nonleafPs).size
    ensures f.vsMode != Disable ==> forall k: Key :: !k.AtLevels? ==> Same(after, before, k)
    ensures !raised && f.vsMode != Disable && StageFires(f, before, key) ==>
              StageCovered(f, key, vsPs, leafPs, nonleafPs, leaf', nonleaf')
    ensures !raised ==> forall k: Key :: k.Stage? && StageCovered(f, k, vsPs, leafPs, nonleafPs, leaf, nonleaf) ==>
              StageCovered(f, k, vsPs, leafPs, nonleafPs, leaf', nonleaf')
  {
    if raised || !StageFires(f, before, key) {
    } else if f.vsMode == Disable {
      var moved := before[NonLeaf(key.attr) := before[key]];
      VsBlockGrows(f, f.gMode, leafPs, moved, key.attr, leaf);
    } else {
      StageLevelsExist(f, key, vsPs, leafPs, nonleafPs);
      var vl := StageVsLevel(f, vsPs, key.vsNonleaf).value;
      var gl := StageGLevel(f, key, vl, vsPs, leafPs, nonleafPs).value;
      StageBlocksGrow(f, key, nonleafPs, vl, gl, leaf, nonleaf);
      assert IsBlock(leaf') && IsBlock(nonleaf');
    }
    if !raised { CoverageGrows(f, vsPs, leafPs, nonleafPs, leaf, nonleaf, leaf', nonleaf'); }
  }

  lemma CoverageGrows(f: Features, vsPs: PageSize, leafPs: PageSize, nonleafPs: PageSize,
                      leaf: Block, nonleaf: Block, leaf': Block, nonleaf': Block)
    requires leaf.size <= leaf'.size && nonleaf.size <= nonleaf'.size
    ensures forall k: Key :: k.Stage? && StageCovered(f, k, vsPs, leafPs, nonleafPs, leaf, nonleaf) ==>
              StageCovered(f, k, vsPs, leafPs, nonleafPs, leaf', nonleaf')
  {
    forall k: Key | k.Stage? && StageCovered(f, k, vsPs, leafPs, nonleafPs, leaf, nonleaf)
      ensures StageCovered(f, k, vsPs, leafPs, nonleafPs, leaf', nonleaf')
    {
      CoveredGrows(f, k, vsPs, leafPs, nonleafPs, leaf, nonleaf, leaf', nonleaf');
    }
  }

  lemma StageBlocksGrow(f: Features, key: Key, nonleafPs: PageSize, vl: nat, gl: nat, leaf: Block, nonleaf: Block)
    requires key.Stage? && IsBlock(leaf) && IsBlock(nonleaf)
    requires LevelExists(f.vsMode, vl) && (key.gNonleaf ==> LevelExists(f.gMode, gl))
    requires nonleafPs in SupportedPagesizes(f.gMode, f.svnapot) && f.gMode != Disable
    requires key.gNonleaf && key.vsNonleaf ==> OverrideLevel(f.gMode, nonleafPs) == Some(gl)
    requires nonleaf.size <= NextBlock(f.gMode, nonleafPs).size
    ensures var leaf', nonleaf' := StageLeafAfter(f, key, vl, gl, leaf), StageNonleafAfter(f, key, gl, nonleaf);
            && IsBlock(leaf') && IsBlock(nonleaf') && leaf.size <= leaf'.size && nonleaf.size <= nonleaf'.size
            && nonleaf'.size <= NextBlock(f.gMode, nonleafPs).size
            && (key.vsNonleaf ==> Pow2(Lo(f.vsMode, vl)) <= leaf'.size)
            && (key.gNonleaf ==> Pow2(Lo(f.gMode, gl)) <= (if key.vsNonleaf then nonleaf' else leaf').size)
  {
    if key.vsNonleaf { GrowMeaning(leaf, Lo(f.vsMode, vl)); }
    if key.gNonleaf {
      GrowMeaning(leaf, Lo(f.gMode, gl));
      GrowMeaning(nonleaf, Lo(f.gMode, gl));
      if key.vsNonleaf {
        NextCovers(f.gMode, f.svnapot, nonleafPs);
        Pow2Order(SizeBits(NextPtLevelPagesize(f.gMode, nonleafPs).value), Lo(f.gMode, gl));
      }
    }
  }

  lemma CoveredGrows(f: Features, k: Key, vsPs: PageSize, leafPs: PageSize, nonleafPs: PageSize, leaf: Block,
                     nonleaf: Block, leaf': Block, nonleaf': Block)
    requires k.Stage? && StageCovered(f, k, vsPs, leafPs, nonleafPs, leaf, nonleaf)
    requires leaf.size <= leaf'.size && nonleaf.size <= nonleaf'.size
    ensures StageCovered(f, k, vsPs, leafPs, nonleafPs, leaf', nonleaf')
  {}

  method StageBlocks(f: Features, key: Key, vl: nat, gl: Option<nat>, leaf: Block, nonleaf: Block)
    returns (raised: bool, leaf': Block, nonleaf': Block)
    requires key.Stage? && LevelExists(f.vsMode, vl) && (gl.Some? && key.gNonleaf ==> LevelExists(f.gMode, gl.value))
    ensures raised <==> gl.None?
    ensures !raised ==>
              && leaf' == StageLeafAfter(f, key, vl, gl.value, leaf)
              && nonleaf' == StageNonleafAfter(f, key, gl.value, nonleaf)
  {
    leaf', nonleaf' := leaf, nonleaf;
    if key.vsNonleaf {
      var span := LevelBlock(f.vsMode, vl);
      leaf' := Grow(leaf, span);
    }
    if gl.None? { return true, leaf', nonleaf'; }
    if key.gNonleaf {
      var span := LevelBlock(f.gMode, gl.value);
      if key.vsNonleaf { nonleaf' := Grow(nonleaf, span); } else { leaf' := Grow(leaf, span); }
    }
    raised := false;
  }

  lemma SameFiring(f: Features, a: Attrs, b: Attrs, attr: Attr)
    requires SameButLevels(a, b)
    ensures NonLeafFires(f, a, attr) == NonLeafFires(f, b, attr)
    ensures NonLeafFires(f, a, attr) ==> a[NonLeaf(attr)] == b[NonLeaf(attr)]
  {
    assert Same(a, b, Own(attr)) && Same(a, b, NonLeaf(attr));
  }

  lemma OverriddenKept(f: Features, mode: PagingMode, ps: PageSize, start: Attrs, before: Attrs, after: Attrs, a: Attr,
                       was: Block, r: Block)
    requires VsOverridden(f, mode, ps, start, before, a, was) && was.size <= r.size
    requires forall l: nat {:trigger AtLevel(a, l)} :: Same(after, before, AtLevel(a, l))
    ensures VsOverridden(f, mode, ps, start, after, a, r)
  {
    if NonLeafFires(f, start, a) { assert Same(after, before, AtLevel(a, OverrideLevel(mode, ps).value)); }
  }

  /** An attribute whose non-leaf override fires is written at the override level and its
      entry's span is reserved. */
  ghost predicate VsOverridden(f: Features, mode: PagingMode, ps: PageSize, before: Attrs, after: Attrs, attr: Attr,
                               b: Block)
  {
    NonLeafFires(f, before, attr) ==>
      var lvl := OverrideLevel(mode, ps);
      && lvl.Some? && LevelExists(mode, lvl.value)
      && AtLevel(attr, lvl.value) in after && after[AtLevel(attr, lvl.value)] == before[NonLeaf(attr)]
      && Pow2(Lo(mode, lvl.value)) <= b.size
  }

  lemma MaskAligns(n: nat, k: nat, start: nat)
    requires k <= n && start < Pow2(n)
    ensures Pow2(k) <= Pow2(n)
    ensures And(start, Pow2(n) - Pow2(k)) == start <==> Aligned(start, k)
  {
    AndMask(start, n, k);
    LowOfSmall(start, n);
  }

  /** Exclusive ownership: place a page at a start that its final mask leaves unchanged. Any level
      whose span fits the final size then has its entry to itself: no address outside the
      reserved block walks through an entry that an address of the block walks through. */
  lemma PlacedPageOwnsEntry(mode: PagingMode, level: nat, b: Block, start: nat, x: nat, y: nat)
    requires LevelExists(mode, level) && IsBlock(b) && Pow2(Lo(mode, level)) <= b.size
    requires start < WORD && And(start, b.mask) == start
    requires x < Pow2(LinearAddrBits(mode)) && y < Pow2(LinearAddrBits(mode))
    requires start <= x < start + b.size && !(start <= y < start + b.size)
    ensures !SameEntry(mode, level, x, y)
  {
    var n, k := BlockExponent(b);
    PlacedBlockOwnsEntry(mode, level, n, k, start, x, y);
  }

  lemma BlockExponent(b: Block) returns (n: nat, k: nat)
    requires IsBlock(b)
    ensures k <= n && Pow2(n) == WORD && Pow2(k) <= WORD && b.size == Pow2(k) && b.mask == WORD - Pow2(k)
  {
    k :| 12 <= k <= 48 && b == BlockOf(k);
    n := WordIsPow2();
    Pow2Less(k, n);
  }

  lemma PlacedBlockOwnsEntry(mode: PagingMode, level: nat, n: nat, k: nat, start: nat, x: nat, y: nat)
    requires LevelExists(mode, level) && k <= n && Pow2(Lo(mode, level)) <= Pow2(k) <= Pow2(n)
    requires start < Pow2(n) && And(start, Pow2(n) - Pow2(k)) == start
    requires x < Pow2(LinearAddrBits(mode)) && y < Pow2(LinearAddrBits(mode))
    requires start <= x < start + Pow2(k) && !(start <= y < start + Pow2(k))
    ensures !SameEntry(mode, level, x, y)
  {
    assert Aligned(start, k) by { MaskAligns(n, k, start); }
    assert Lo(mode, level) <= k by { Pow2Order(k, Lo(mode, level)); }
    ReservedBlockOwnsEntry(mode, level, start, k, x, y);
  }
}
