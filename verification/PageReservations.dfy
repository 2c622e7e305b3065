/** How large the reservations of a page come out (riescue/dtest_framework/generator/generator.py, randomize_pagesize):
    exactly what the overrides given need, and no more. */
module PageReservations {
  import opened Bits
  import opened PageAttrs
  import opened PagePicks
  import opened PageSizing
  import opened Paging
  import opened Widening
  import opened Wrappers

  /** What one entry of a level spans. */
  ghost function Span(mode: PagingMode, level: nat): nat
    requires LevelExists(mode, level)
  {
    BlockOf(Lo(mode, level)).size
  }

  /** One level above the leaf of a size, or one below a leaf at the root. */
  function Above(mode: PagingMode, ps: PageSize): (level: nat)
    requires LevelExists(mode, PtLeafLevel(ps))
    ensures LevelExists(mode, level)
  {
    if PtLeafLevel(ps) + 1 == MaxLevels(mode) then PtLeafLevel(ps) - 1 else PtLeafLevel(ps) + 1
  }

  lemma RaisedSize(b: Block, asked: bool, c: Block)
    ensures (if asked then Larger(b, c) else b).size == AtLeast(b.size, asked, c.size)
    ensures (if asked then Grow(b, c) else b).size == AtLeast(b.size, asked, c.size)
  {}

  // ---------- the VS attributes ----------

  /** The attribute is overridden above the leaf: a non-leaf value is given and no own one. */
  ghost predicate Raised(f: Features, attrs: Attrs, a: Attr) {
    !Given(f, attrs, a, Own(a)) && Given(f, attrs, a, NonLeaf(a))
  }

  lemma AboveIsOverride(mode: PagingMode, ps: PageSize)
    requires LevelExists(mode, PtLeafLevel(ps))
    ensures OverrideLevel(mode, ps) == Some(Above(mode, ps))
  {}

  lemma OneVs(f: Features, mode: PagingMode, ps: PageSize, attrs: Attrs, a: Attr, b: Block)
    requires LevelExists(mode, PtLeafLevel(ps))
    ensures VsBlockAfter(f, mode, ps, attrs, a, b).size ==
            AtLeast(b.size, Raised(f, attrs, a), Span(mode, Above(mode, ps)))
  {
    FiresIff(f, attrs, a);
    AboveIsOverride(mode, ps);
    RaisedSize(b, Raised(f, attrs, a), BlockOf(Lo(mode, Above(mode, ps))));
  }

  ghost function VsSizes(f: Features, mode: PagingMode, ps: PageSize, attrs: Attrs, b: Block): (sizes: seq<nat>)
    ensures |sizes| == |VS_ATTRS| + 1 && sizes[0] == b.size
    ensures forall i :: 0 <= i <= |VS_ATTRS| ==> sizes[i] == VsAt(f, mode, ps, attrs, b, i).size
  {
    seq(|VS_ATTRS| + 1, i requires 0 <= i <= |VS_ATTRS| => VsAt(f, mode, ps, attrs, b, i).size)
  }

  lemma RaisedFold(f: Features, attrs: Attrs, sizes: seq<nat>, x: nat)
    requires |sizes| == |VS_ATTRS| + 1
    requires forall i :: 0 <= i < |VS_ATTRS| ==> sizes[i + 1] == AtLeast(sizes[i], Raised(f, attrs, VS_ATTRS[i]), x)
    ensures sizes[|VS_ATTRS|] == AtLeast(sizes[0], exists a: Attr :: Raised(f, attrs, a), x)
  {
    var asks := seq(|VS_ATTRS|, i requires 0 <= i < |VS_ATTRS| => Raised(f, attrs, VS_ATTRS[i]));
    LastStep(sizes, asks, x);
    if a: Attr :| Raised(f, attrs, a) { assert asks[VsPosition(a)]; }
  }

  /** The VS attributes widen a reservation exactly if one is overridden above the leaf, to the span of an entry
      there. */
  lemma VsSizeIs(f: Features, mode: PagingMode, ps: PageSize, attrs: Attrs, b: Block)
    requires LevelExists(mode, PtLeafLevel(ps))
    ensures VsAt(f, mode, ps, attrs, b, |VS_ATTRS|).size ==
            AtLeast(b.size, exists a: Attr :: Raised(f, attrs, a), Span(mode, Above(mode, ps)))
  {
    var x, sizes := Span(mode, Above(mode, ps)), VsSizes(f, mode, ps, attrs, b);
    forall i | 0 <= i < |VS_ATTRS|
      ensures sizes[i + 1] == AtLeast(sizes[i], Raised(f, attrs, VS_ATTRS[i]), x)
    {
      OneVs(f, mode, ps, attrs, VS_ATTRS[i], VsAt(f, mode, ps, attrs, b, i));
    }
    RaisedFold(f, attrs, sizes, x);
  }

  // ---------- the G-stage attributes ----------

  /** What a stage attribute can ask to be reserved: the span of the VS entry above the leaf, of the G entry above the
      leaf or above the table, and without VS paging of the G entry above the leaf, if the page has no own value. */
  datatype Which = VsAbove | GAboveLeaf | GAboveTable | BareAbove

  ghost predicate Asks(f: Features, attrs: Attrs, k: Key, which: Which)
    requires k.Stage?
  {
    && Given(f, attrs, k.attr, k)
    && match which
       case VsAbove => k.vsNonleaf
       case GAboveLeaf => !k.vsNonleaf && k.gNonleaf
       case GAboveTable => k.vsNonleaf && k.gNonleaf
       case BareAbove => k.vsNonleaf && !Given(f, attrs, k.attr, Own(k.attr))
  }

  /** Some stage attribute asks for it. */
  ghost predicate Asked(f: Features, attrs: Attrs, which: Which) {
    exists a: Attr, vsNonleaf: bool, gNonleaf: bool :: Asks(f, attrs, Stage(a, vsNonleaf, gNonleaf), which)
  }

  ghost function AsksList(f: Features, attrs: Attrs, which: Which): (asks: seq<bool>)
    ensures |asks| == 40 && forall i :: 0 <= i < 40 ==> asks[i] == Asks(f, attrs, StageKey(i), which)
  {
    seq(40, i requires 0 <= i < 40 => Asks(f, attrs, StageKey(i), which))
  }

  lemma AskedIff(f: Features, attrs: Attrs, which: Which)
    ensures true in AsksList(f, attrs, which) <==> Asked(f, attrs, which)
  {
    var asks := AsksList(f, attrs, which);
    if true in asks {
      var j :| 0 <= j < 40 && asks[j];
      var k := StageKey(j);
      assert k == Stage(k.attr, k.vsNonleaf, k.gNonleaf);
    }
    if Asked(f, attrs, which) {
      var a: Attr, v: bool, g: bool :| Asks(f, attrs, Stage(a, v, g), which);
      assert asks[StagePosition(Stage(a, v, g))];
    }
  }

  /** The VS level a VS non-leaf attribute is written at. */
  function VsAboveLevel(f: Features, vsPs: PageSize): (level: nat)
    requires LevelExists(f.vsMode, PtLeafLevel(vsPs))
    ensures LevelExists(f.vsMode, level)
  {
    if PtLeafLevel(vsPs) + 1 == MaxLevels(f.vsMode) then PtLeafLevel(vsPs) else PtLeafLevel(vsPs) + 1
  }

  lemma VsLevelIs(f: Features, vsPs: PageSize, vsNonleaf: bool)
    requires LevelExists(f.vsMode, PtLeafLevel(vsPs))
    ensures StageVsLevel(f, vsPs, vsNonleaf) == Some(if vsNonleaf then VsAboveLevel(f, vsPs) else PtLeafLevel(vsPs))
  {}

  /** One stage attribute with VS paging on. That of a VS non-leaf widens the leaf reservation, */
  lemma OneOfTable(f: Features, attrs: Attrs, k: Key, vsPs: PageSize, leafPs: PageSize, nonleafPs: PageSize,
                   bs: (Block, Block))
    requires k.Stage? && LevelExists(f.vsMode, PtLeafLevel(vsPs)) && k.vsNonleaf
    requires OverrideLevel(f.gMode, nonleafPs).Some?
    ensures StageBlocksAfter(f, attrs, k, vsPs, leafPs, nonleafPs, bs).0.size ==
            AtLeast(bs.0.size, Given(f, attrs, k.attr, k), Span(f.vsMode, VsAboveLevel(f, vsPs)))
  {
    VsLevelIs(f, vsPs, true);
    OneOfTableBlock(f, attrs, k, vsPs, leafPs, nonleafPs, bs, VsAboveLevel(f, vsPs));
    RaisedSize(bs.0, true, BlockOf(Lo(f.vsMode, VsAboveLevel(f, vsPs))));
  }

  lemma OneOfTableBlock(f: Features, attrs: Attrs, k: Key, vsPs: PageSize, leafPs: PageSize, nonleafPs: PageSize,
                        bs: (Block, Block), vl: nat)
    requires k.Stage? && LevelExists(f.vsMode, PtLeafLevel(vsPs)) && k.vsNonleaf && LevelExists(f.vsMode, vl)
    requires OverrideLevel(f.gMode, nonleafPs).Some? && StageVsLevel(f, vsPs, true) == Some(vl)
    ensures StageBlocksAfter(f, attrs, k, vsPs, leafPs, nonleafPs, bs).0 ==
            if Given(f, attrs, k.attr, k) then Grow(bs.0, BlockOf(Lo(f.vsMode, vl))) else bs.0
  {
    assert StageFires(f, attrs, k) <==> Given(f, attrs, k.attr, k);
    assert StageGLevel(f, k, vl, vsPs, leafPs, nonleafPs).Some?;
  }

  /** and if it is of a G non-leaf the table's; */
  lemma OneAboveTable(f: Features, attrs: Attrs, k: Key, vsPs: PageSize, leafPs: PageSize, nonleafPs: PageSize,
                      bs: (Block, Block))
    requires k.Stage? && LevelExists(f.vsMode, PtLeafLevel(vsPs)) && k.vsNonleaf && k.gNonleaf
    requires LevelExists(f.gMode, PtLeafLevel(nonleafPs))
    ensures StageBlocksAfter(f, attrs, k, vsPs, leafPs, nonleafPs, bs).1.size ==
            AtLeast(bs.1.size, Given(f, attrs, k.attr, k), Span(f.gMode, Above(f.gMode, nonleafPs)))
  {
    AboveIsOverride(f.gMode, nonleafPs);
    RaisedSize(bs.1, true, BlockOf(Lo(f.gMode, Above(f.gMode, nonleafPs))));
  }

  /** that of a VS leaf and a G non-leaf widens the leaf's; */
  lemma OneAboveLeaf(f: Features, attrs: Attrs, k: Key, vsPs: PageSize, leafPs: PageSize, nonleafPs: PageSize,
                     bs: (Block, Block))
    requires k.Stage? && LevelExists(f.vsMode, PtLeafLevel(vsPs)) && !k.vsNonleaf && k.gNonleaf
    requires LevelExists(f.gMode, PtLeafLevel(leafPs))
    ensures StageBlocksAfter(f, attrs, k, vsPs, leafPs, nonleafPs, bs).0.size ==
            AtLeast(bs.0.size, Given(f, attrs, k.attr, k), Span(f.gMode, Above(f.gMode, leafPs)))
  {
    AboveIsOverride(f.gMode, leafPs);
    RaisedSize(bs.0, true, BlockOf(Lo(f.gMode, Above(f.gMode, leafPs))));
  }

  /** and nothing else is widened. */
  lemma OneElse(f: Features, attrs: Attrs, k: Key, vsPs: PageSize, leafPs: PageSize, nonleafPs: PageSize,
                bs: (Block, Block))
    requires k.Stage? && LevelExists(f.vsMode, PtLeafLevel(vsPs))
    ensures var r := StageBlocksAfter(f, attrs, k, vsPs, leafPs, nonleafPs, bs);
            && (!k.vsNonleaf && !k.gNonleaf ==> r.0.size == bs.0.size)
            && (!(k.vsNonleaf && k.gNonleaf) ==> r.1.size == bs.1.size)
  {}

  lemma GrowsFrom(f: Features, attrs: Attrs, k: Key, was: (Block, Block), now: (Block, Block),
                  x: nat, y: nat, z: nat)
    requires k.Stage?
    requires var given := Given(f, attrs, k.attr, k);
             && (k.vsNonleaf ==> now.0.size == AtLeast(was.0.size, given, x))
             && (!k.vsNonleaf && k.gNonleaf ==> now.0.size == AtLeast(was.0.size, given, y))
             && (!k.vsNonleaf && !k.gNonleaf ==> now.0.size == was.0.size)
             && now.1.size == if k.vsNonleaf && k.gNonleaf then AtLeast(was.1.size, given, z) else was.1.size
    ensures Grows(f, attrs, k, was, now, x, y, z)
  {}

  lemma StageAtStep(f: Features, attrs: Attrs, vsPs: PageSize, leafPs: PageSize, nonleafPs: PageSize,
                    bs: (Block, Block), i: nat)
    requires i < 40 && (f.vsMode != Disable ==> LevelExists(f.vsMode, PtLeafLevel(vsPs)))
    ensures StageAt(f, attrs, vsPs, leafPs, nonleafPs, bs, i + 1) ==
            StageBlocksAfter(f, attrs, StageKey(i), vsPs, leafPs, nonleafPs,
                             StageAt(f, attrs, vsPs, leafPs, nonleafPs, bs, i))
  {}

  /** What one stage attribute leaves, the leaf reservation at least x or y and the table's at least z where asked. */
  ghost predicate Grows(f: Features, attrs: Attrs, k: Key, was: (Block, Block), now: (Block, Block),
                        x: nat, y: nat, z: nat)
    requires k.Stage?
  {
    && now.0.size == AtLeast(AtLeast(was.0.size, Asks(f, attrs, k, VsAbove), x), Asks(f, attrs, k, GAboveLeaf), y)
    && now.1.size == AtLeast(was.1.size, Asks(f, attrs, k, GAboveTable), z)
  }

  /** The reservations before the first and after each stage attribute. */
  ghost function Stages(f: Features, attrs: Attrs, vsPs: PageSize, leafPs: PageSize, nonleafPs: PageSize,
                        bs: (Block, Block), n: nat): (stages: seq<(Block, Block)>)
    requires n <= 40 && (f.vsMode != Disable ==> LevelExists(f.vsMode, PtLeafLevel(vsPs)))
    ensures |stages| == n + 1 && stages[0] == bs
    ensures forall i :: 0 <= i <= n ==> stages[i] == StageAt(f, attrs, vsPs, leafPs, nonleafPs, bs, i)
  {
    seq(n + 1, i requires 0 <= i <= n => StageAt(f, attrs, vsPs, leafPs, nonleafPs, bs, i))
  }

  lemma StageGrows(f: Features, attrs: Attrs, vsPs: PageSize, leafPs: PageSize, nonleafPs: PageSize,
                   bs: (Block, Block), i: nat, x: nat, y: nat, z: nat)
    requires LevelExists(f.vsMode, PtLeafLevel(vsPs)) && LevelExists(f.gMode, PtLeafLevel(leafPs))
    requires LevelExists(f.gMode, PtLeafLevel(nonleafPs)) && i < 40
    requires x == Span(f.vsMode, VsAboveLevel(f, vsPs)) && y == Span(f.gMode, Above(f.gMode, leafPs))
    requires z == Span(f.gMode, Above(f.gMode, nonleafPs))
    ensures Grows(f, attrs, StageKey(i), StageAt(f, attrs, vsPs, leafPs, nonleafPs, bs, i),
                  StageAt(f, attrs, vsPs, leafPs, nonleafPs, bs, i + 1), x, y, z)
  {
    var k, was := StageKey(i), StageAt(f, attrs, vsPs, leafPs, nonleafPs, bs, i);
    StageAtStep(f, attrs, vsPs, leafPs, nonleafPs, bs, i);
    OneElse(f, attrs, k, vsPs, leafPs, nonleafPs, was);
    if k.vsNonleaf {
      AboveIsOverride(f.gMode, nonleafPs);
      OneOfTable(f, attrs, k, vsPs, leafPs, nonleafPs, was);
      if k.gNonleaf { OneAboveTable(f, attrs, k, vsPs, leafPs, nonleafPs, was); }
    } else if k.gNonleaf {
      OneAboveLeaf(f, attrs, k, vsPs, leafPs, nonleafPs, was);
    }
    GrowsFrom(f, attrs, k, was, StageAt(f, attrs, vsPs, leafPs, nonleafPs, bs, i + 1), x, y, z);
  }

  ghost predicate GrowsAt(f: Features, attrs: Attrs, stages: seq<(Block, Block)>, i: nat, x: nat, y: nat, z: nat)
    requires i < 40 && |stages| == 41
  {
    Grows(f, attrs, StageKey(i), stages[i], stages[i + 1], x, y, z)
  }

  lemma StagesFold(f: Features, attrs: Attrs, stages: seq<(Block, Block)>, x: nat, y: nat, z: nat)
    requires |stages| == 41
    requires forall i :: 0 <= i < 40 ==> GrowsAt(f, attrs, stages, i, x, y, z)
    ensures stages[40].0.size == AtLeast(AtLeast(stages[0].0.size, Asked(f, attrs, VsAbove), x),
                                         Asked(f, attrs, GAboveLeaf), y)
    ensures stages[40].1.size == AtLeast(stages[0].1.size, Asked(f, attrs, GAboveTable), z)
  {
    var leaves := seq(41, i requires 0 <= i <= 40 => stages[i].0.size);
    var tables := seq(41, i requires 0 <= i <= 40 => stages[i].1.size);
    var a, b, c := AsksList(f, attrs, VsAbove), AsksList(f, attrs, GAboveLeaf), AsksList(f, attrs, GAboveTable);
    forall i | 0 <= i < 40
      ensures leaves[i + 1] == AtLeast(AtLeast(leaves[i], a[i], x), b[i], y)
      ensures tables[i + 1] == AtLeast(tables[i], c[i], z)
    {
      assert GrowsAt(f, attrs, stages, i, x, y, z);
    }
    LastOfTwo(leaves, a, b, x, y);
    LastStep(tables, c, z);
    AskedIff(f, attrs, VsAbove);
    AskedIff(f, attrs, GAboveLeaf);
    AskedIff(f, attrs, GAboveTable);
  }

  lemma AllGrow(f: Features, attrs: Attrs, vsPs: PageSize, leafPs: PageSize, nonleafPs: PageSize,
                bs: (Block, Block), n: nat, x: nat, y: nat, z: nat)
    requires LevelExists(f.vsMode, PtLeafLevel(vsPs)) && LevelExists(f.gMode, PtLeafLevel(leafPs))
    requires LevelExists(f.gMode, PtLeafLevel(nonleafPs)) && n == 40
    requires x == Span(f.vsMode, VsAboveLevel(f, vsPs)) && y == Span(f.gMode, Above(f.gMode, leafPs))
    requires z == Span(f.gMode, Above(f.gMode, nonleafPs))
    ensures forall i :: 0 <= i < n ==>
              GrowsAt(f, attrs, Stages(f, attrs, vsPs, leafPs, nonleafPs, bs, n), i, x, y, z)
  {
    var stages := Stages(f, attrs, vsPs, leafPs, nonleafPs, bs, n);
    forall i | 0 <= i < n ensures GrowsAt(f, attrs, stages, i, x, y, z) {
      StageGrows(f, attrs, vsPs, leafPs, nonleafPs, bs, i, x, y, z);
    }
  }

  /** With VS paging on, the leaf reservation is widened exactly for VS non-leaf attributes and for G non-leaf ones of
      the VS leaf, and the table's exactly for those of VS non-leaves. */
  lemma StageSizesAre(f: Features, attrs: Attrs, vsPs: PageSize, leafPs: PageSize, nonleafPs: PageSize,
                      bs: (Block, Block), n: nat)
    requires LevelExists(f.vsMode, PtLeafLevel(vsPs)) && LevelExists(f.gMode, PtLeafLevel(leafPs))
    requires LevelExists(f.gMode, PtLeafLevel(nonleafPs)) && n == 40
    ensures var r := StageAt(f, attrs, vsPs, leafPs, nonleafPs, bs, n);
            && r.0.size == AtLeast(AtLeast(bs.0.size, Asked(f, attrs, VsAbove), Span(f.vsMode, VsAboveLevel(f, vsPs))),
                                   Asked(f, attrs, GAboveLeaf), Span(f.gMode, Above(f.gMode, leafPs)))
            && r.1.size == AtLeast(bs.1.size, Asked(f, attrs, GAboveTable), Span(f.gMode, Above(f.gMode, nonleafPs)))
  {
    var x, y, z := Span(f.vsMode, VsAboveLevel(f, vsPs)), Span(f.gMode, Above(f.gMode, leafPs)),
                   Span(f.gMode, Above(f.gMode, nonleafPs));
    AllGrow(f, attrs, vsPs, leafPs, nonleafPs, bs, n, x, y, z);
    StagesFold(f, attrs, Stages(f, attrs, vsPs, leafPs, nonleafPs, bs, n), x, y, z);
  }

  /** One stage attribute with VS paging off. */
  lemma OneBare(f: Features, attrs: Attrs, k: Key, vsPs: PageSize, leafPs: PageSize, nonleafPs: PageSize,
                bs: (Block, Block))
    requires k.Stage? && f.vsMode == Disable && LevelExists(f.gMode, PtLeafLevel(leafPs))
    ensures var r := StageBlocksAfter(f, attrs, k, vsPs, leafPs, nonleafPs, bs);
            && r.0.size == AtLeast(bs.0.size, Asks(f, attrs, k, BareAbove), Span(f.gMode, Above(f.gMode, leafPs)))
            && r.1 == bs.1
  {
    assert StageFires(f, attrs, k) <==> Given(f, attrs, k.attr, k);
    if StageFires(f, attrs, k) && k.vsNonleaf {
      OneVs(f, f.gMode, leafPs, attrs[NonLeaf(k.attr) := attrs[k]], k.attr, bs.0);
    }
  }

  lemma BareGrows(f: Features, attrs: Attrs, vsPs: PageSize, leafPs: PageSize, nonleafPs: PageSize,
                  bs: (Block, Block), i: nat, x: nat)
    requires f.vsMode == Disable && LevelExists(f.gMode, PtLeafLevel(leafPs)) && i < 40
    requires x == Span(f.gMode, Above(f.gMode, leafPs))
    ensures var was, now := StageAt(f, attrs, vsPs, leafPs, nonleafPs, bs, i),
                            StageAt(f, attrs, vsPs, leafPs, nonleafPs, bs, i + 1);
            now.0.size == AtLeast(was.0.size, Asks(f, attrs, StageKey(i), BareAbove), x) && now.1 == was.1
  {
    StageAtStep(f, attrs, vsPs, leafPs, nonleafPs, bs, i);
    OneBare(f, attrs, StageKey(i), vsPs, leafPs, nonleafPs, StageAt(f, attrs, vsPs, leafPs, nonleafPs, bs, i));
  }

  ghost predicate BareGrowsAt(f: Features, attrs: Attrs, stages: seq<(Block, Block)>, i: nat, x: nat)
    requires i < 40 && |stages| == 41
  {
    && stages[i + 1].0.size == AtLeast(stages[i].0.size, Asks(f, attrs, StageKey(i), BareAbove), x)
    && stages[i + 1].1 == stages[i].1
  }

  lemma BareFold(f: Features, attrs: Attrs, stages: seq<(Block, Block)>, x: nat)
    requires |stages| == 41 && forall i :: 0 <= i < 40 ==> BareGrowsAt(f, attrs, stages, i, x)
    ensures stages[40].0.size == AtLeast(stages[0].0.size, Asked(f, attrs, BareAbove), x)
    ensures stages[40].1.size == stages[0].1.size
  {
    var leaves := seq(41, i requires 0 <= i <= 40 => stages[i].0.size);
    var tables := seq(41, i requires 0 <= i <= 40 => stages[i].1.size);
    var asks, none := AsksList(f, attrs, BareAbove), seq(40, i => false);
    forall i | 0 <= i < 40
      ensures leaves[i + 1] == AtLeast(leaves[i], asks[i], x) && tables[i + 1] == AtLeast(tables[i], none[i], x)
    {
      assert BareGrowsAt(f, attrs, stages, i, x);
    }
    LastStep(leaves, asks, x);
    LastStep(tables, none, x);
    AskedIff(f, attrs, BareAbove);
  }

  lemma AllBareGrow(f: Features, attrs: Attrs, vsPs: PageSize, leafPs: PageSize, nonleafPs: PageSize,
                    bs: (Block, Block), n: nat, x: nat)
    requires f.vsMode == Disable && LevelExists(f.gMode, PtLeafLevel(leafPs)) && n == 40
    requires x == Span(f.gMode, Above(f.gMode, leafPs))
    ensures forall i :: 0 <= i < n ==>
              BareGrowsAt(f, attrs, Stages(f, attrs, vsPs, leafPs, nonleafPs, bs, n), i, x)
  {
    var stages := Stages(f, attrs, vsPs, leafPs, nonleafPs, bs, n);
    forall i | 0 <= i < n ensures BareGrowsAt(f, attrs, stages, i, x) {
      BareGrows(f, attrs, vsPs, leafPs, nonleafPs, bs, i, x);
    }
  }

  /** With VS paging off, exactly for VS non-leaf attributes of which the page has no own value. */
  lemma BareSizesAre(f: Features, attrs: Attrs, vsPs: PageSize, leafPs: PageSize, nonleafPs: PageSize,
                     bs: (Block, Block), n: nat)
    requires f.vsMode == Disable && LevelExists(f.gMode, PtLeafLevel(leafPs)) && n == 40
    ensures var r := StageAt(f, attrs, vsPs, leafPs, nonleafPs, bs, n);
            && r.0.size == AtLeast(bs.0.size, Asked(f, attrs, BareAbove), Span(f.gMode, Above(f.gMode, leafPs)))
            && r.1.size == bs.1.size
  {
    var x := Span(f.gMode, Above(f.gMode, leafPs));
    AllBareGrow(f, attrs, vsPs, leafPs, nonleafPs, bs, n, x);
    BareFold(f, attrs, Stages(f, attrs, vsPs, leafPs, nonleafPs, bs, n), x);
  }

  // ---------- the page ----------

  /** modify_pt makes it the span of a root entry, modify_nonleaf_pt at least that of an entry above the leaf. */
  ghost function Modified(mode: PagingMode, ps: PageSize, modifyPt: bool, modifyNonleafPt: bool, size: nat): nat
    requires LevelExists(mode, PtLeafLevel(ps))
  {
    var rooted := if modifyPt then Span(mode, MaxLevels(mode) - 1) else size;
    if LevelExists(mode, PtLeafLevel(ps) + 1) then AtLeast(rooted, modifyNonleafPt, Span(mode, PtLeafLevel(ps) + 1))
    else rooted
  }

  lemma ModifiedSize(mode: PagingMode, ps: PageSize, modifyPt: bool, modifyNonleafPt: bool, b: Block)
    requires LevelExists(mode, PtLeafLevel(ps))
    ensures AfterModifyNonleaf(modifyNonleafPt, mode, ps, AfterModifyPt(modifyPt, mode, b)).size ==
            Modified(mode, ps, modifyPt, modifyNonleafPt, b.size)
  {
    RootSize(mode, modifyPt, b);
    NonleafSize(mode, ps, modifyNonleafPt, AfterModifyPt(modifyPt, mode, b));
  }

  lemma RootSize(mode: PagingMode, modifyPt: bool, b: Block)
    requires mode != Disable
    ensures AfterModifyPt(modifyPt, mode, b).size == if modifyPt then Span(mode, MaxLevels(mode) - 1) else b.size
  {}

  lemma NonleafSize(mode: PagingMode, ps: PageSize, modifyNonleafPt: bool, b: Block)
    ensures AfterModifyNonleaf(modifyNonleafPt, mode, ps, b).size ==
            if LevelExists(mode, PtLeafLevel(ps) + 1)
            then AtLeast(b.size, modifyNonleafPt, Span(mode, PtLeafLevel(ps) + 1)) else b.size
  {
    if LevelExists(mode, PtLeafLevel(ps) + 1) {
      RaisedSize(b, modifyNonleafPt, BlockOf(Lo(mode, PtLeafLevel(ps) + 1)));
    }
  }

  /** What the page itself needs, where the attributes have a walk of their own: its size, or what its overrides and
      modify flags need. */
  ghost function OwnSize(f: Features, ps: PageSize, attrs: Attrs, modifyPt: bool, modifyNonleafPt: bool): nat
    requires LevelExists(WalkMode(f), PtLeafLevel(ps))
  {
    var mode := WalkMode(f);
    Modified(mode, ps, modifyPt, modifyNonleafPt,
             AtLeast(Memory(ps), exists a: Attr :: Raised(f, attrs, a), Span(mode, Above(mode, ps))))
  }

  lemma OwnSizeIs(f: Features, ps: PageSize, attrs: Attrs, modifyPt: bool, modifyNonleafPt: bool)
    requires LevelExists(WalkMode(f), PtLeafLevel(ps))
    ensures var b := VsAt(f, WalkMode(f), ps, attrs, BlockOf(SizeBits(ps)), |VS_ATTRS|);
            AfterModifyNonleaf(modifyNonleafPt, WalkMode(f), ps, AfterModifyPt(modifyPt, WalkMode(f), b)).size ==
            OwnSize(f, ps, attrs, modifyPt, modifyNonleafPt)
  {
    PageSizeIsBlock(ps);
    VsSizeIs(f, WalkMode(f), ps, attrs, BlockOf(SizeBits(ps)));
    ModifiedSize(WalkMode(f), ps, modifyPt, modifyNonleafPt,
                 VsAt(f, WalkMode(f), ps, attrs, BlockOf(SizeBits(ps)), |VS_ATTRS|));
  }

  /** The run of the linear reservation ends at exactly that size, or the G-stage leaf's if that is larger. */
  lemma AddressSizeIs(f: Features, ps: PageSize, attrs: Attrs, modifyPt: bool, modifyNonleafPt: bool,
                      steps: seq<Block>, leafSteps: seq<Block>, gLeaf: Block, address: Block)
    requires AddressRun(f, ps, attrs, modifyPt, modifyNonleafPt, steps, leafSteps, gLeaf, address)
    requires LevelExists(WalkMode(f), PtLeafLevel(ps))
    ensures address.size == AtLeast(OwnSize(f, ps, attrs, modifyPt, modifyNonleafPt), f.gMode != Disable, gLeaf.size)
  {
    OwnSizeIs(f, ps, attrs, modifyPt, modifyNonleafPt);
    assert steps[11] == steps[10] == VsAt(f, WalkMode(f), ps, attrs, BlockOf(SizeBits(ps)), |VS_ATTRS|);
  }

  /** And so do those of the G-stage reservations. */
  lemma GStageSizesAre(f: Features, attrs: Attrs, ps: PageSize, leafPs: PageSize, nonleafPs: PageSize,
                       modifyNonleafPt: bool, leafSteps: seq<Block>, nonleafSteps: seq<Block>,
                       gLeaf: Block, gNonleaf: Block)
    requires f.vsMode != Disable && f.gMode != Disable && LevelExists(f.vsMode, PtLeafLevel(ps))
    requires LevelExists(f.gMode, PtLeafLevel(leafPs)) && LevelExists(f.gMode, PtLeafLevel(nonleafPs))
    requires StageRun(f, attrs, ps, leafPs, nonleafPs, modifyNonleafPt, leafSteps, nonleafSteps, gLeaf, gNonleaf)
    ensures gLeaf.size ==
            AtLeast(AtLeast(Memory(leafPs), Asked(f, attrs, VsAbove), Span(f.vsMode, VsAboveLevel(f, ps))),
                    Asked(f, attrs, GAboveLeaf), Span(f.gMode, Above(f.gMode, leafPs)))
    ensures gNonleaf.size ==
            if modifyNonleafPt then Memory(NextPtLevelPagesize(f.gMode, nonleafPs).value)
            else AtLeast(Memory(nonleafPs), Asked(f, attrs, GAboveTable), Span(f.gMode, Above(f.gMode, nonleafPs)))
  {
    StageRunEnds(f, attrs, ps, leafPs, nonleafPs, modifyNonleafPt, leafSteps, nonleafSteps, gLeaf, gNonleaf, 40);
    StageSizesAre(f, attrs, ps, leafPs, nonleafPs, (BlockOf(SizeBits(leafPs)), BlockOf(SizeBits(nonleafPs))), 40);
    PageSizeIsBlock(leafPs);
    PageSizeIsBlock(nonleafPs);
  }

  lemma StageRunEnds(f: Features, attrs: Attrs, ps: PageSize, leafPs: PageSize, nonleafPs: PageSize,
                     modifyNonleafPt: bool, leafSteps: seq<Block>, nonleafSteps: seq<Block>,
                     gLeaf: Block, gNonleaf: Block, n: nat)
    requires f.gMode != Disable && n == 40
    requires StageRun(f, attrs, ps, leafPs, nonleafPs, modifyNonleafPt, leafSteps, nonleafSteps, gLeaf, gNonleaf)
    ensures f.vsMode != Disable ==> LevelExists(f.vsMode, PtLeafLevel(ps))
    ensures var r := StageAt(f, attrs, ps, leafPs, nonleafPs,
                             (BlockOf(SizeBits(leafPs)), BlockOf(SizeBits(nonleafPs))), n);
            && gLeaf.size == r.0.size
            && gNonleaf.size == if modifyNonleafPt then Memory(NextPtLevelPagesize(f.gMode, nonleafPs).value)
                                else r.1.size
  {
    NextPagesizeIsNextLevel(f.gMode, nonleafPs);
    PageSizeIsBlock(NextPtLevelPagesize(f.gMode, nonleafPs).value);
    assert leafSteps[n] == gLeaf;
  }
}
