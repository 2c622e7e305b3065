/** The attributes of page-table levels: which overrides fire, what every level and pair of levels holds in the end
    (riescue/dtest_framework/generator/generator.py, pt_attrs_helper, setup_uwrx_bit and randomize_gstage_pt_attrs). */
module PageAttrs {
  import opened Bits
  import opened PagePicks
  import opened Paging
  import opened Wrappers

  // ---------- which overrides fire ----------

  function Insignificant(f: Features, attr: Attr): int {
    if attr.G? || attr.N? || attr.Pbmt? || (attr.U? && f.superPriv) then 0 else 1
  }

  predicate OwnFires(f: Features, attrs: Attrs, attr: Attr) {
    Own(attr) in attrs && attrs[Own(attr)] != Insignificant(f, attr)
  }

  predicate NonLeafFires(f: Features, attrs: Attrs, attr: Attr) {
    !OwnFires(f, attrs, attr) && NonLeaf(attr) in attrs && attrs[NonLeaf(attr)] != Insignificant(f, attr)
  }

  predicate StageFires(f: Features, attrs: Attrs, key: Key)
    requires key.Stage?
  {
    key in attrs && attrs[key] != Insignificant(f, key.attr)
  }

  const VS_ATTRS: seq<Attr> := [V, A, D, G, U, X, W, R, N, Pbmt]

  /** _VS_NONLEAF_CHECKS: each attribute with its default; None where any value counts. */
  const VS_NONLEAF_CHECKS: seq<(Key, Option<int>)> :=
    [(NonLeaf(V), Some(1)), (NonLeaf(A), Some(1)), (NonLeaf(D), Some(1)), (NonLeaf(R), Some(1)),
     (NonLeaf(W), None), (NonLeaf(X), None), (NonLeaf(U), None),
     (NonLeaf(G), Some(0)), (NonLeaf(Pbmt), Some(0)), (NonLeaf(N), Some(0))]

  const GSTAGE_NONLEAF_CHECKS: seq<(Key, Option<int>)> :=
    [(Stage(V, false, true), Some(1)), (Stage(V, true, true), Some(1)),
     (Stage(A, false, true), Some(1)), (Stage(A, true, true), Some(1)),
     (Stage(D, false, true), Some(1)), (Stage(D, true, true), Some(1)),
     (Stage(R, false, true), Some(1)), (Stage(R, true, true), Some(1)),
     (Stage(W, false, true), None), (Stage(W, true, true), None),
     (Stage(X, false, true), None), (Stage(X, true, true), None),
     (Stage(U, false, true), None), (Stage(U, true, true), None),
     (Stage(G, false, true), Some(0)), (Stage(G, true, true), Some(0)),
     (Stage(N, false, true), Some(0)), (Stage(N, true, true), Some(0)),
     (Stage(Pbmt, false, true), Some(0)), (Stage(Pbmt, true, true), Some(0))]

  predicate Significant(attrs: Attrs, check: (Key, Option<int>)) {
    check.0 in attrs && (check.1.None? || attrs[check.0] != check.1.value)
  }

  ghost predicate AnySignificant(attrs: Attrs, checks: seq<(Key, Option<int>)>) {
    exists i :: 0 <= i < |checks| && Significant(attrs, checks[i])
  }

  /** _has_significant_constraints */
  method HasSignificantConstraints(attrs: Attrs, checks: seq<(Key, Option<int>)>) returns (r: bool)
    ensures r == AnySignificant(attrs, checks)
  {
    for i := 0 to |checks|
      invariant forall j :: 0 <= j < i ==> !Significant(attrs, checks[j])
    {
      if Significant(attrs, checks[i]) { return true; }
    }
    return false;
  }

  /** A significant constraint, attribute by attribute: w, x and u count with any value, v, a, d and r with another one
      than 1, and g, n and pbmt with another one than 0. */
  predicate Counts(attrs: Attrs, a: Attr, k: Key) {
    k in attrs && match a
      case W | X | U => true
      case V | A | D | R => attrs[k] != 1
      case G | N | Pbmt => attrs[k] != 0
  }

  /** The VS check looks at the non-leaf value of every attribute. */
  lemma VsConstraintIff(attrs: Attrs)
    ensures AnySignificant(attrs, VS_NONLEAF_CHECKS) <==> exists a: Attr :: Counts(attrs, a, NonLeaf(a))
  {
    forall i | 0 <= i < |VS_NONLEAF_CHECKS|
      ensures Significant(attrs, VS_NONLEAF_CHECKS[i]) <==>
              Counts(attrs, VS_NONLEAF_CHECKS[i].0.attr, NonLeaf(VS_NONLEAF_CHECKS[i].0.attr))
    {
    }
    forall a: Attr | Counts(attrs, a, NonLeaf(a)) ensures AnySignificant(attrs, VS_NONLEAF_CHECKS) {
      var i := match a
        case V => 0 case A => 1 case D => 2 case R => 3 case W => 4
        case X => 5 case U => 6 case G => 7 case Pbmt => 8 case N => 9;
      assert VS_NONLEAF_CHECKS[i].0 == NonLeaf(a);
      assert Significant(attrs, VS_NONLEAF_CHECKS[i]);
    }
  }

  /** And the G-stage check at the G non-leaf values, for VS leaves and non-leaves. */
  lemma GStageConstraintIff(attrs: Attrs)
    ensures AnySignificant(attrs, GSTAGE_NONLEAF_CHECKS) <==>
              exists a: Attr, vsNonleaf: bool :: Counts(attrs, a, Stage(a, vsNonleaf, true))
  {
    forall i | 0 <= i < |GSTAGE_NONLEAF_CHECKS|
      ensures var k := GSTAGE_NONLEAF_CHECKS[i].0;
              && k == Stage(k.attr, k.vsNonleaf, true)
              && (Significant(attrs, GSTAGE_NONLEAF_CHECKS[i]) <==> Counts(attrs, k.attr, k))
    {
    }
    forall a: Attr, vsNonleaf: bool | Counts(attrs, a, Stage(a, vsNonleaf, true))
      ensures AnySignificant(attrs, GSTAGE_NONLEAF_CHECKS)
    {
      var i := 2 * (match a
        case V => 0 case A => 1 case D => 2 case R => 3 case W => 4
        case X => 5 case U => 6 case G => 7 case N => 8 case Pbmt => 9) + if vsNonleaf then 1 else 0;
      assert GSTAGE_NONLEAF_CHECKS[i].0 == Stage(a, vsNonleaf, true);
      assert Significant(attrs, GSTAGE_NONLEAF_CHECKS[i]);
    }
  }

  /** Without a significant VS non-leaf constraint no non-leaf override fires. */
  lemma NoConstraintNoOverride(f: Features, attrs: Attrs, attr: Attr)
    requires !AnySignificant(attrs, VS_NONLEAF_CHECKS)
    ensures !NonLeafFires(f, attrs, attr)
  {
    var i := match attr
      case V => 0 case A => 1 case D => 2 case R => 3 case W => 4
      case X => 5 case U => 6 case G => 7 case Pbmt => 8 case N => 9;
    assert VS_NONLEAF_CHECKS[i].0 == NonLeaf(attr);
    assert !Significant(attrs, VS_NONLEAF_CHECKS[i]);
  }

  /** The first level of the candidates for a non-leaf override: one above the leaf, except that
      a leaf at the root falls two below the number of levels. None where the
      candidate list is empty and indexing it raises. */
  function OverrideLevel(mode: PagingMode, ps: PageSize): Option<nat> {
    var leaf, max := PtLeafLevel(ps), MaxLevels(mode);
    if max - leaf == 1 then Some(if max >= 2 then max - 2 else 0)
    else if leaf + 1 < max then Some(leaf + 1)
    else None
  }

  lemma OverrideLevelExists(mode: PagingMode, ps: PageSize)
    ensures OverrideLevel(mode, ps).Some? ==> LevelExists(mode, OverrideLevel(mode, ps).value)
    ensures OverrideLevel(mode, ps).Some? <==> LevelExists(mode, PtLeafLevel(ps))
    ensures OverrideLevel(mode, ps) == Some(PtLeafLevel(ps) + 1) <==> PtLeafLevel(ps) + 1 < MaxLevels(mode)
  {}

  // ---------- VS-stage attributes ----------

  predicate SetsDefaults(attr: Attr) { attr.U? || attr.R? || attr.W? || attr.X? || attr.A? || attr.D? }

  function LeafBit(f: Features, mode: PagingMode, attr: Attr): int {
    if attr == U && f.superPriv && mode != Disable then 0 else 1
  }

  /** The levels below `upto` get their defaults: the leaf bit at the leaf, 0 above it. */
  function DefaultLevels(f: Features, mode: PagingMode, ps: PageSize, attr: Attr, attrs: Attrs, upto: nat): Attrs {
    var leaf := PtLeafLevel(ps);
    if upto <= leaf then attrs
    else DefaultLevels(f, mode, ps, attr, attrs, upto - 1)
         [AtLevel(attr, upto - 1) := if upto - 1 == leaf then LeafBit(f, mode, attr) else 0]
  }

  lemma {:induction false} DefaultLevelsMeaning(f: Features, mode: PagingMode, ps: PageSize, attr: Attr, attrs: Attrs,
                                                upto: nat, key: Key)
    ensures var r := DefaultLevels(f, mode, ps, attr, attrs, upto);
            if key.AtLevel? && key.attr == attr && PtLeafLevel(ps) <= key.level < upto
            then key in r && r[key] == if key.level == PtLeafLevel(ps) then LeafBit(f, mode, attr) else 0
            else (key in r <==> key in attrs) && (key in r ==> r[key] == attrs[key])
  {
    if upto > PtLeafLevel(ps) { DefaultLevelsMeaning(f, mode, ps, attr, attrs, upto - 1, key); }
  }

  function WithDefaults(f: Features, mode: PagingMode, ps: PageSize, attrs: Attrs, attr: Attr): Attrs {
    if SetsDefaults(attr) then DefaultLevels(f, mode, ps, attr, attrs, MaxLevels(mode)) else attrs
  }

  function WithOverride(f: Features, mode: PagingMode, ps: PageSize, attrs: Attrs, attr: Attr): Attrs {
    var lvl := OverrideLevel(mode, ps);
    if OwnFires(f, attrs, attr) then attrs[AtLevel(attr, PtLeafLevel(ps)) := attrs[Own(attr)]]
    else if NonLeafFires(f, attrs, attr) && lvl.Some? then attrs[AtLevel(attr, lvl.value) := attrs[NonLeaf(attr)]]
    else attrs
  }

  /** The defaults touch no attribute that decides which override fires. */
  lemma DefaultsKeepFiring(f: Features, mode: PagingMode, ps: PageSize, attrs: Attrs, attr: Attr)
    ensures var base := WithDefaults(f, mode, ps, attrs, attr);
            && (Own(attr) in base <==> Own(attr) in attrs)
            && (NonLeaf(attr) in base <==> NonLeaf(attr) in attrs)
            && (Own(attr) in base ==> base[Own(attr)] == attrs[Own(attr)])
            && (NonLeaf(attr) in base ==> base[NonLeaf(attr)] == attrs[NonLeaf(attr)])
  {
    DefaultLevelsMeaning(f, mode, ps, attr, attrs, MaxLevels(mode), Own(attr));
    DefaultLevelsMeaning(f, mode, ps, attr, attrs, MaxLevels(mode), NonLeaf(attr));
  }

  /** A value an attribute must be given at a level of its own: other than 1 for v, a, d, r, w and x, other than 0 for
      g, n and pbmt; for u other than 0 in supervisor mode and other than 1 outside it. */
  predicate Unusual(f: Features, a: Attr, value: int) {
    match a
    case V | A | D | R | W | X => value != 1
    case G | N | Pbmt => value != 0
    case U => if f.superPriv then value != 0 else value != 1
  }

  predicate Given(f: Features, attrs: Attrs, a: Attr, k: Key) { k in attrs && Unusual(f, a, attrs[k]) }

  function Held(attrs: Attrs, k: Key): Option<int> { if k in attrs then Some(attrs[k]) else None }

  /** What a level must hold for an attribute. The leaf holds the page's own value if that is unusual. Otherwise an
      unusual non-leaf value stands one level above the leaf, or one below a leaf at the root. Everywhere else u, r, w,
      x, a and d are 1 at the leaf - u 0 in supervisor mode - and 0 above it, and the other attributes stay. */
  ghost function LevelValue(f: Features, mode: PagingMode, ps: PageSize, start: Attrs, a: Attr, l: nat): Option<int> {
    var leaf, max := PtLeafLevel(ps), MaxLevels(mode);
    var own := Given(f, start, a, Own(a));
    var above := !own && leaf < max && Given(f, start, a, NonLeaf(a));
    if own && l == leaf then Some(start[Own(a)])
    else if above && l == (if leaf + 1 == max then leaf - 1 else leaf + 1) then Some(start[NonLeaf(a)])
    else LevelDefault(f, mode, ps, start, a, l)
  }

  ghost function LevelDefault(f: Features, mode: PagingMode, ps: PageSize, start: Attrs, a: Attr, l: nat): Option<int> {
    var leaf, max := PtLeafLevel(ps), MaxLevels(mode);
    if leaf <= l < max then
      match a
      case R | W | X | A | D => Some(if l == leaf then 1 else 0)
      case U => Some(if l == leaf && !f.superPriv then 1 else 0)
      case _ => Held(start, AtLevel(a, l))
    else Held(start, AtLevel(a, l))
  }

  ghost predicate LevelsHold(f: Features, mode: PagingMode, ps: PageSize, start: Attrs, after: Attrs, a: Attr) {
    forall l: nat {:trigger AtLevel(a, l)} :: Held(after, AtLevel(a, l)) == LevelValue(f, mode, ps, start, a, l)
  }

  /** Handling an attribute gives its levels exactly those values. */
  lemma LevelsAfter(f: Features, mode: PagingMode, ps: PageSize, attrs: Attrs, attr: Attr)
    requires !(NonLeafFires(f, attrs, attr) && OverrideLevel(mode, ps).None?)
    ensures LevelsHold(f, mode, ps, attrs,
                       WithOverride(f, mode, ps, WithDefaults(f, mode, ps, attrs, attr), attr), attr)
  {
    forall l: nat {:trigger AtLevel(attr, l)}
      ensures Held(WithOverride(f, mode, ps, WithDefaults(f, mode, ps, attrs, attr), attr), AtLevel(attr, l)) ==
              LevelValue(f, mode, ps, attrs, attr, l)
    {
      LevelAfter(f, mode, ps, attrs, attr, l);
    }
  }

  lemma LevelAfter(f: Features, mode: PagingMode, ps: PageSize, attrs: Attrs, attr: Attr, l: nat)
    requires !(NonLeafFires(f, attrs, attr) && OverrideLevel(mode, ps).None?)
    ensures Held(WithOverride(f, mode, ps, WithDefaults(f, mode, ps, attrs, attr), attr), AtLevel(attr, l)) ==
            LevelValue(f, mode, ps, attrs, attr, l)
  {
    var base := WithDefaults(f, mode, ps, attrs, attr);
    DefaultsKeepFiring(f, mode, ps, attrs, attr);
    DefaultAfter(f, mode, ps, attrs, attr, l);
    FiresIff(f, attrs, attr);
    assert Held(base, AtLevel(attr, l)) == LevelDefault(f, mode, ps, attrs, attr, l);
  }

  lemma DefaultAfter(f: Features, mode: PagingMode, ps: PageSize, attrs: Attrs, attr: Attr, l: nat)
    ensures Held(WithDefaults(f, mode, ps, attrs, attr), AtLevel(attr, l)) ==
            LevelDefault(f, mode, ps, attrs, attr, l)
  {
    DefaultLevelsMeaning(f, mode, ps, attr, attrs, MaxLevels(mode), AtLevel(attr, l));
  }

  lemma FiresIff(f: Features, attrs: Attrs, attr: Attr)
    ensures OwnFires(f, attrs, attr) <==> Given(f, attrs, attr, Own(attr))
    ensures NonLeafFires(f, attrs, attr) <==>
              !Given(f, attrs, attr, Own(attr)) && Given(f, attrs, attr, NonLeaf(attr))
  {}

  /** The levels of an attribute depend on its own values alone. */
  lemma LevelsOfSame(f: Features, mode: PagingMode, ps: PageSize, a: Attrs, b: Attrs, after: Attrs, attr: Attr)
    requires LevelsHold(f, mode, ps, a, after, attr) && SameButLevels(a, b) && SameLevels(a, b, attr)
    ensures LevelsHold(f, mode, ps, b, after, attr)
  {
    assert Same(a, b, Own(attr)) && Same(a, b, NonLeaf(attr));
    forall l: nat {:trigger AtLevel(attr, l)}
      ensures Held(after, AtLevel(attr, l)) == LevelValue(f, mode, ps, b, attr, l)
    {
      assert Same(a, b, AtLevel(attr, l));
      LevelOfSame(f, mode, ps, a, b, attr, l);
    }
  }

  lemma LevelOfSame(f: Features, mode: PagingMode, ps: PageSize, a: Attrs, b: Attrs, attr: Attr, l: nat)
    requires Same(a, b, Own(attr)) && Same(a, b, NonLeaf(attr)) && Same(a, b, AtLevel(attr, l))
    ensures LevelValue(f, mode, ps, a, attr, l) == LevelValue(f, mode, ps, b, attr, l)
  {
    DefaultOfSame(f, mode, ps, a, b, attr, l);
    assert forall k: Key :: Same(a, b, k) ==> Given(f, a, attr, k) == Given(f, b, attr, k);
  }

  lemma DefaultOfSame(f: Features, mode: PagingMode, ps: PageSize, a: Attrs, b: Attrs, attr: Attr, l: nat)
    requires Same(a, b, AtLevel(attr, l))
    ensures LevelDefault(f, mode, ps, a, attr, l) == LevelDefault(f, mode, ps, b, attr, l)
  {}

  ghost predicate SameLevels(a: Attrs, b: Attrs, attr: Attr) {
    forall l: nat {:trigger AtLevel(attr, l)} :: Same(a, b, AtLevel(attr, l))
  }

  /** The block a page holds after an attribute has been handled. */
  ghost function VsBlockAfter(f: Features, mode: PagingMode, ps: PageSize, attrs: Attrs, attr: Attr, b: Block): Block {
    var lvl := OverrideLevel(mode, ps);
    OverrideLevelExists(mode, ps);
    if NonLeafFires(f, attrs, attr) && lvl.Some? then Larger(b, BlockOf(Lo(mode, lvl.value))) else b
  }

  /** The reservation after the first i VS attributes. */
  ghost function VsAt(f: Features, mode: PagingMode, ps: PageSize, attrs: Attrs, b: Block, i: nat): Block
    requires i <= |VS_ATTRS|
  {
    if i == 0 then b else VsBlockAfter(f, mode, ps, attrs, VS_ATTRS[i - 1], VsAt(f, mode, ps, attrs, b, i - 1))
  }

  /** The list starts with the reservations from before the first to after the n-th VS attribute. */
  ghost predicate VsTrace(f: Features, mode: PagingMode, ps: PageSize, attrs: Attrs, b: Block,
                          steps: seq<Block>, n: nat)
  {
    n <= |VS_ATTRS| && n < |steps| && forall i :: 0 <= i <= n ==> steps[i] == VsAt(f, mode, ps, attrs, b, i)
  }

  /** Without a walk there is no level to reserve. */
  lemma {:induction false} VsAtWithoutWalk(f: Features, ps: PageSize, attrs: Attrs, b: Block, i: nat)
    requires i <= |VS_ATTRS|
    ensures VsAt(f, Disable, ps, attrs, b, i) == b
  {
    if i > 0 { VsAtWithoutWalk(f, ps, attrs, b, i - 1); }
  }

  // ---------- G-stage attributes ----------

  const STAGE_ATTRS: seq<Attr> := [V, A, D, G, W, R, X, U, N, Pbmt]

  /** The 40 stage attributes in the order they are handled. */
  function StageKey(i: nat): (k: Key)
    requires i < 40
    ensures k.Stage?
  {
    Stage(STAGE_ATTRS[i / 4], i % 4 < 2, i % 2 == 0)
  }

  function StagePosition(k: Key): (i: nat)
    requires k.Stage?
    ensures i < 40 && StageKey(i) == k
  {
    var a := match k.attr
      case V => 0 case A => 1 case D => 2 case G => 3 case W => 4
      case R => 5 case X => 6 case U => 7 case N => 8 case Pbmt => 9;
    4 * a + (if k.vsNonleaf then 0 else 2) + (if k.gNonleaf then 0 else 1)
  }

  /** The G leaf level that translates a VS table or page at the given VS level. */
  function GLeafFor(vsLevel: nat, vsPs: PageSize, leafPs: PageSize, nonleafPs: PageSize): nat {
    PtLeafLevel(if vsLevel == PtLeafLevel(vsPs) then leafPs else nonleafPs)
  }

  /** The VS level a stage attribute applies to: the leaf, or one above it unless the leaf is the root. */
  function StageVsLevel(f: Features, vsPs: PageSize, vsNonleaf: bool): Option<nat> {
    var leaf, max := PtLeafLevel(vsPs), MaxLevels(f.vsMode);
    if !vsNonleaf || max - leaf == 1 then Some(leaf)
    else if leaf + 1 < max then Some(leaf + 1)
    else None
  }

  /** The G level: an override level of the page size that translates the VS table or page, or its leaf. */
  function StageGLevel(f: Features, key: Key, vsLevel: nat, vsPs: PageSize, leafPs: PageSize,
                       nonleafPs: PageSize): Option<nat>
    requires key.Stage?
  {
    if key.gNonleaf then OverrideLevel(f.gMode, if key.vsNonleaf then nonleafPs else leafPs)
    else Some(GLeafFor(vsLevel, vsPs, leafPs, nonleafPs))
  }

  function Grow(b: Block, c: Block): Block { if c.size > b.size then c else b }

  /** What a stage attribute that fired must leave reserved (VS paging on). */
  ghost predicate StageCovered(f: Features, key: Key, vsPs: PageSize, leafPs: PageSize, nonleafPs: PageSize,
                               leaf: Block, nonleaf: Block)
    requires key.Stage?
  {
    var vl := StageVsLevel(f, vsPs, key.vsNonleaf);
    && vl.Some?
    && (key.vsNonleaf && LevelExists(f.vsMode, vl.value) ==> leaf.size >= Pow2(Lo(f.vsMode, vl.value)))
    && var gl := StageGLevel(f, key, vl.value, vsPs, leafPs, nonleafPs);
       && gl.Some?
       && (key.gNonleaf && LevelExists(f.gMode, gl.value) ==>
           (if key.vsNonleaf then nonleaf else leaf).size >= Pow2(Lo(f.gMode, gl.value)))
  }

  /** Successive values of a reservation: well-formed blocks that never shrink. */
  ghost predicate Chain(steps: seq<Block>, first: Block, last: Block) {
    && |steps| > 0 && steps[0] == first && steps[|steps| - 1] == last
    && (forall i :: 0 <= i < |steps| ==> IsBlock(steps[i]))
    && (forall i, j :: 0 <= i <= j < |steps| ==> steps[i].size <= steps[j].size)
  }

  lemma ChainExtend(steps: seq<Block>, first: Block, last: Block, next: Block)
    requires Chain(steps, first, last) && IsBlock(next) && last.size <= next.size
    ensures Chain(steps + [next], first, next)
  {}

  lemma BlockOfIsBlock(k: nat)
    requires 12 <= k <= 48
    ensures IsBlock(BlockOf(k))
  {}

  /** No larger than the span of a root entry, if it started so. */
  ghost predicate WithinRoot(mode: PagingMode, b: Block, r: Block) {
    mode != Disable && b.size <= Pow2(Lo(mode, MaxLevels(mode) - 1)) ==> r.size <= Pow2(Lo(mode, MaxLevels(mode) - 1))
  }

  lemma VsBlockGrows(f: Features, mode: PagingMode, ps: PageSize, attrs: Attrs, attr: Attr, b: Block)
    requires IsBlock(b)
    ensures var r := VsBlockAfter(f, mode, ps, attrs, attr, b);
            && IsBlock(r) && b.size <= r.size && WithinRoot(mode, b, r)
            && (NonLeafFires(f, attrs, attr) && OverrideLevel(mode, ps).Some? ==>
                  && LevelExists(mode, OverrideLevel(mode, ps).value)
                  && Pow2(Lo(mode, OverrideLevel(mode, ps).value)) <= r.size)
  {
    OverrideLevelExists(mode, ps);
    var lvl := OverrideLevel(mode, ps);
    if lvl.Some? { LargerSpan(mode, lvl.value, b); }
  }

  lemma LargerSpan(mode: PagingMode, level: nat, b: Block)
    requires LevelExists(mode, level) && IsBlock(b)
    ensures var r := Larger(b, BlockOf(Lo(mode, level)));
            IsBlock(r) && b.size <= r.size && Pow2(Lo(mode, level)) <= r.size && WithinRoot(mode, b, r)
  {
    BlockOfIsBlock(Lo(mode, level));
    LoMono(mode, level, MaxLevels(mode) - 1);
    Pow2Order(Lo(mode, MaxLevels(mode) - 1), Lo(mode, level));
  }

  ghost predicate Same(a: Attrs, b: Attrs, k: Key) { (k in a <==> k in b) && (k in a ==> a[k] == b[k]) }

  /** Keys other than the per-level ones hold the inputs of the computation; the VS attributes also leave the pairs
      of levels alone. */
  ghost predicate SameButLevels(a: Attrs, b: Attrs) { forall k: Key :: !k.AtLevel? ==> Same(a, b, k) }

  lemma SameButLevelsTrans(a: Attrs, b: Attrs, c: Attrs)
    requires SameButLevels(a, b) && SameButLevels(b, c)
    ensures SameButLevels(a, c)
  {
    forall k: Key | !k.AtLevel? ensures Same(a, c, k) { assert Same(a, b, k) && Same(b, c, k); }
  }

  /** Handling one attribute writes only that attribute's levels. */
  lemma OnlyOwnLevels(f: Features, mode: PagingMode, ps: PageSize, attrs: Attrs, attr: Attr)
    ensures var r := WithOverride(f, mode, ps, WithDefaults(f, mode, ps, attrs, attr), attr);
            && SameButLevels(r, attrs)
            && (forall k: Key :: !(k.AtLevel? && k.attr == attr) ==> Same(r, attrs, k))
            && (NonLeafFires(f, attrs, attr) && OverrideLevel(mode, ps).Some? ==>
                  var k := AtLevel(attr, OverrideLevel(mode, ps).value); k in r && r[k] == attrs[NonLeaf(attr)])
  {
    DefaultsKeepFiring(f, mode, ps, attrs, attr);
    forall k: Key { DefaultLevelsMeaning(f, mode, ps, attr, attrs, MaxLevels(mode), k); }
  }

  ghost function StageLeafAfter(f: Features, key: Key, vl: nat, gl: nat, b: Block): Block
    requires key.Stage? && LevelExists(f.vsMode, vl) && (key.gNonleaf ==> LevelExists(f.gMode, gl))
  {
    if key.vsNonleaf then Grow(b, BlockOf(Lo(f.vsMode, vl)))
    else if key.gNonleaf then Grow(b, BlockOf(Lo(f.gMode, gl)))
    else b
  }

  ghost function StageNonleafAfter(f: Features, key: Key, gl: nat, b: Block): Block
    requires key.Stage? && (key.gNonleaf ==> LevelExists(f.gMode, gl))
  {
    if key.vsNonleaf && key.gNonleaf then Grow(b, BlockOf(Lo(f.gMode, gl))) else b
  }

  lemma StageLevelsExist(f: Features, key: Key, vsPs: PageSize, leafPs: PageSize, nonleafPs: PageSize)
    requires key.Stage? && LevelExists(f.vsMode, PtLeafLevel(vsPs))
    ensures var vl := StageVsLevel(f, vsPs, key.vsNonleaf);
            && vl.Some? && LevelExists(f.vsMode, vl.value)
            && var gl := StageGLevel(f, key, vl.value, vsPs, leafPs, nonleafPs);
               gl.Some? && key.gNonleaf ==> LevelExists(f.gMode, gl.value)
  {
    OverrideLevelExists(f.gMode, leafPs);
    OverrideLevelExists(f.gMode, nonleafPs);
  }

  /** A stage attribute that fires with VS paging on is written at its pair of levels, and the
      blocks grow to the spans of those levels. */
  ghost predicate StageOutcome(f: Features, key: Key, vsPs: PageSize, leafPs: PageSize, nonleafPs: PageSize,
                               before: Attrs, leaf: Block, nonleaf: Block,
                               raised: bool, after: Attrs, leaf': Block, nonleaf': Block)
    requires key.Stage? && key in before && LevelExists(f.vsMode, PtLeafLevel(vsPs))
  {
    StageLevelsExist(f, key, vsPs, leafPs, nonleafPs);
    var vl := StageVsLevel(f, vsPs, key.vsNonleaf).value;
    var gl := StageGLevel(f, key, vl, vsPs, leafPs, nonleafPs);
    (raised <==> gl.None?)
    && (raised ==> after == before)
    && (!raised ==> after == before[AtLevels(key.attr, vl, gl.value) := before[key]]
                    && leaf' == StageLeafAfter(f, key, vl, gl.value, leaf)
                    && nonleaf' == StageNonleafAfter(f, key, gl.value, nonleaf))
  }

  /** The same with VS paging off: a VS non-leaf attribute becomes a non-leaf attribute of the
      G-stage walk, a VS leaf attribute is written at the G leaf. */
  ghost predicate BareOutcome(f: Features, key: Key, leafPs: PageSize, before: Attrs, leaf: Block, raised: bool,
                              after: Attrs, leaf': Block)
    requires key.Stage? && key in before
  {
    if key.vsNonleaf then
      var moved := before[NonLeaf(key.attr) := before[key]];
      && (raised <==> NonLeafFires(f, moved, key.attr) && OverrideLevel(f.gMode, leafPs).None?)
      && after == WithOverride(f, f.gMode, leafPs, WithDefaults(f, f.gMode, leafPs, moved, key.attr), key.attr)
      && leaf' == VsBlockAfter(f, f.gMode, leafPs, moved, key.attr, leaf)
    else
      !raised && after == before[AtLevel(key.attr, PtLeafLevel(leafPs)) := before[key]] && leaf' == leaf
  }

  /** The leaf and table reservations after one stage attribute. */
  ghost function StageBlocksAfter(f: Features, attrs: Attrs, key: Key, vsPs: PageSize, leafPs: PageSize,
                                  nonleafPs: PageSize, bs: (Block, Block)): (Block, Block)
    requires key.Stage? && (f.vsMode != Disable ==> LevelExists(f.vsMode, PtLeafLevel(vsPs)))
  {
    if !StageFires(f, attrs, key) then bs
    else if f.vsMode == Disable then
      (if key.vsNonleaf then BareBlockAfter(f, attrs, key, leafPs, bs.0) else bs.0, bs.1)
    else
      StageLevelsExist(f, key, vsPs, leafPs, nonleafPs);
      var vl := StageVsLevel(f, vsPs, key.vsNonleaf).value;
      var gl := StageGLevel(f, key, vl, vsPs, leafPs, nonleafPs);
      if gl.None? then bs
      else (StageLeafAfter(f, key, vl, gl.value, bs.0), StageNonleafAfter(f, key, gl.value, bs.1))
  }

  /** With VS paging off a VS non-leaf attribute acts as a non-leaf attribute of the G-stage walk. */
  ghost function BareBlockAfter(f: Features, attrs: Attrs, key: Key, leafPs: PageSize, b: Block): Block
    requires key.Stage? && key in attrs
  {
    VsBlockAfter(f, f.gMode, leafPs, attrs[NonLeaf(key.attr) := attrs[key]], key.attr, b)
  }

  /** Both reservations after the first i stage attributes. */
  ghost function StageAt(f: Features, attrs: Attrs, vsPs: PageSize, leafPs: PageSize, nonleafPs: PageSize,
                         bs: (Block, Block), i: nat): (Block, Block)
    requires i <= 40 && (f.vsMode != Disable ==> LevelExists(f.vsMode, PtLeafLevel(vsPs)))
  {
    if i == 0 then bs
    else StageBlocksAfter(f, attrs, StageKey(i - 1), vsPs, leafPs, nonleafPs,
                          StageAt(f, attrs, vsPs, leafPs, nonleafPs, bs, i - 1))
  }

  /** The lists start with both reservations from before the first to after the n-th stage attribute. */
  ghost predicate StageTrace(f: Features, attrs: Attrs, vsPs: PageSize, leafPs: PageSize, nonleafPs: PageSize,
                             bs: (Block, Block), leafSteps: seq<Block>, nonleafSteps: seq<Block>, n: nat)
  {
    && (f.vsMode != Disable ==> LevelExists(f.vsMode, PtLeafLevel(vsPs)))
    && n <= 40 && n < |leafSteps| && n < |nonleafSteps|
    && forall i :: 0 <= i <= n ==> (leafSteps[i], nonleafSteps[i]) == StageAt(f, attrs, vsPs, leafPs, nonleafPs, bs, i)
  }

  /** The inputs that decide what stage attributes do. */
  ghost predicate SameStage(a: Attrs, b: Attrs) { forall k: Key :: k.Stage? || k.Own? ==> Same(a, b, k) }

  lemma StageBlocksSame(f: Features, a: Attrs, b: Attrs, key: Key, vsPs: PageSize, leafPs: PageSize,
                        nonleafPs: PageSize, bs: (Block, Block))
    requires key.Stage? && (f.vsMode != Disable ==> LevelExists(f.vsMode, PtLeafLevel(vsPs))) && SameStage(a, b)
    ensures StageBlocksAfter(f, a, key, vsPs, leafPs, nonleafPs, bs) ==
              StageBlocksAfter(f, b, key, vsPs, leafPs, nonleafPs, bs)
  {
    assert Same(a, b, key) && Same(a, b, Own(key.attr));
  }

  lemma {:induction false} StageAtSame(f: Features, a: Attrs, b: Attrs, vsPs: PageSize, leafPs: PageSize,
                                       nonleafPs: PageSize, bs: (Block, Block), i: nat)
    requires i <= 40 && (f.vsMode != Disable ==> LevelExists(f.vsMode, PtLeafLevel(vsPs))) && SameStage(a, b)
    ensures StageAt(f, a, vsPs, leafPs, nonleafPs, bs, i) == StageAt(f, b, vsPs, leafPs, nonleafPs, bs, i)
  {
    if i > 0 {
      StageAtSame(f, a, b, vsPs, leafPs, nonleafPs, bs, i - 1);
      StageBlocksSame(f, a, b, StageKey(i - 1), vsPs, leafPs, nonleafPs,
                      StageAt(f, b, vsPs, leafPs, nonleafPs, bs, i - 1));
    }
  }

  lemma StageTraceSame(f: Features, a: Attrs, b: Attrs, vsPs: PageSize, leafPs: PageSize, nonleafPs: PageSize,
                       bs: (Block, Block), leafSteps: seq<Block>, nonleafSteps: seq<Block>, n: nat)
    requires StageTrace(f, a, vsPs, leafPs, nonleafPs, bs, leafSteps, nonleafSteps, n) && SameStage(a, b)
    ensures StageTrace(f, b, vsPs, leafPs, nonleafPs, bs, leafSteps, nonleafSteps, n)
  {
    forall i | 0 <= i <= n
      ensures (leafSteps[i], nonleafSteps[i]) == StageAt(f, b, vsPs, leafPs, nonleafPs, bs, i)
    {
      StageAtSame(f, a, b, vsPs, leafPs, nonleafPs, bs, i);
    }
  }

  lemma StageAtNext(f: Features, attrs: Attrs, vsPs: PageSize, leafPs: PageSize, nonleafPs: PageSize,
                    bs: (Block, Block), n: nat)
    requires n < 40 && (f.vsMode != Disable ==> LevelExists(f.vsMode, PtLeafLevel(vsPs)))
    ensures StageAt(f, attrs, vsPs, leafPs, nonleafPs, bs, n + 1) ==
            StageBlocksAfter(f, attrs, StageKey(n), vsPs, leafPs, nonleafPs,
                             StageAt(f, attrs, vsPs, leafPs, nonleafPs, bs, n))
  {}

  lemma StageTraceStep(f: Features, start: Attrs, before: Attrs, vsPs: PageSize, leafPs: PageSize, nonleafPs: PageSize,
                       bs: (Block, Block), leafSteps: seq<Block>, nonleafSteps: seq<Block>, n: nat,
                       next: (Block, Block))
    requires n < 40 && StageTrace(f, start, vsPs, leafPs, nonleafPs, bs, leafSteps, nonleafSteps, n)
    requires |leafSteps| == |nonleafSteps| == n + 1 && SameStage(before, start)
    requires next == StageBlocksAfter(f, before, StageKey(n), vsPs, leafPs, nonleafPs, (leafSteps[n], nonleafSteps[n]))
    ensures StageTrace(f, start, vsPs, leafPs, nonleafPs, bs, leafSteps + [next.0], nonleafSteps + [next.1], n + 1)
  {
    StageNext(f, start, before, vsPs, leafPs, nonleafPs, bs, n, (leafSteps[n], nonleafSteps[n]), next);
    StageTraceSnoc(f, start, vsPs, leafPs, nonleafPs, bs, leafSteps, nonleafSteps, n, next);
  }

  lemma StageNext(f: Features, start: Attrs, before: Attrs, vsPs: PageSize, leafPs: PageSize, nonleafPs: PageSize,
                  bs: (Block, Block), n: nat, at: (Block, Block), next: (Block, Block))
    requires n < 40 && SameStage(before, start) && (f.vsMode != Disable ==> LevelExists(f.vsMode, PtLeafLevel(vsPs)))
    requires at == StageAt(f, start, vsPs, leafPs, nonleafPs, bs, n)
    requires next == StageBlocksAfter(f, before, StageKey(n), vsPs, leafPs, nonleafPs, at)
    ensures next == StageAt(f, start, vsPs, leafPs, nonleafPs, bs, n + 1)
  {
    StageBlocksSame(f, before, start, StageKey(n), vsPs, leafPs, nonleafPs, at);
    StageAtNext(f, start, vsPs, leafPs, nonleafPs, bs, n);
  }

  lemma StageTraceSnoc(f: Features, start: Attrs, vsPs: PageSize, leafPs: PageSize, nonleafPs: PageSize,
                       bs: (Block, Block), leafSteps: seq<Block>, nonleafSteps: seq<Block>, n: nat,
                       next: (Block, Block))
    requires n < 40 && StageTrace(f, start, vsPs, leafPs, nonleafPs, bs, leafSteps, nonleafSteps, n)
    requires |leafSteps| == |nonleafSteps| == n + 1
    requires next == StageAt(f, start, vsPs, leafPs, nonleafPs, bs, n + 1)
    ensures StageTrace(f, start, vsPs, leafPs, nonleafPs, bs, leafSteps + [next.0], nonleafSteps + [next.1], n + 1)
  {
    var ls, ns := leafSteps + [next.0], nonleafSteps + [next.1];
    forall i | 0 <= i <= n + 1 ensures (ls[i], ns[i]) == StageAt(f, start, vsPs, leafPs, nonleafPs, bs, i) {
      if i <= n { assert ls[i] == leafSteps[i] && ns[i] == nonleafSteps[i]; }
    }
  }

  /** The pair of levels a stage attribute is written at: the VS leaf, or one above it if the leaf is not at the root;
      and of the G pages that translate it the leaf, or for a G non-leaf attribute one above it, one below it at the
      root. */
  function StageTarget(f: Features, k: Key, vsPs: PageSize, leafPs: PageSize, nonleafPs: PageSize): Key
    requires k.Stage?
  {
    var leaf := PtLeafLevel(vsPs);
    var v := if k.vsNonleaf && leaf + 1 < MaxLevels(f.vsMode) then leaf + 1 else leaf;
    var tables := if k.gNonleaf then k.vsNonleaf else v != leaf;
    var g := PtLeafLevel(if tables then nonleafPs else leafPs);
    AtLevels(k.attr, v, if !k.gNonleaf then g else if g + 1 == MaxLevels(f.gMode) && g > 0 then g - 1 else g + 1)
  }

  /** What a pair of levels holds once the first n stage attributes have been handled, if it held `base` before: the
      last one given an unusual value for that pair wins. */
  ghost function PairValue(f: Features, start: Attrs, vsPs: PageSize, leafPs: PageSize, nonleafPs: PageSize,
                           k: Key, n: nat, base: Option<int>): Option<int>
    requires n <= 40
  {
    if n == 0 then base
    else
      var s := StageKey(n - 1);
      if Given(f, start, s.attr, s) && StageTarget(f, s, vsPs, leafPs, nonleafPs) == k then Some(start[s])
      else PairValue(f, start, vsPs, leafPs, nonleafPs, k, n - 1, base)
  }

  /** The defaults: from the leaves up 1 where the G page is a leaf and 0 above it. */
  ghost function PairSetup(f: Features, start: Attrs, vsPs: PageSize, leafPs: PageSize, nonleafPs: PageSize,
                           a: Attr, v: nat, g: nat): Option<int>
  {
    var gLeaf := PtLeafLevel(if v == PtLeafLevel(vsPs) then leafPs else nonleafPs);
    if PtLeafLevel(vsPs) <= v < MaxLevels(f.vsMode) && gLeaf <= g < MaxLevels(f.gMode)
    then Some(if g == gLeaf then 1 else 0)
    else Held(start, AtLevels(a, v, g))
  }

  /** Where the defaults of an attribute are set up: u, r, w, x, a and d in this order, the others never. */
  function SetupPosition(a: Attr): nat {
    match a
    case U => 0 case R => 1 case W => 2 case X => 3 case A => 4 case D => 5 case _ => 6
  }

  ghost function PairDefault(f: Features, start: Attrs, vsPs: PageSize, leafPs: PageSize, nonleafPs: PageSize,
                             a: Attr, v: nat, g: nat, upto: nat): Option<int>
  {
    if SetupPosition(a) < upto then PairSetup(f, start, vsPs, leafPs, nonleafPs, a, v, g)
    else Held(start, AtLevels(a, v, g))
  }

  ghost predicate PairsAfter(f: Features, start: Attrs, after: Attrs, vsPs: PageSize, leafPs: PageSize,
                             nonleafPs: PageSize, n: nat)
    requires n <= 40
  {
    forall a: Attr, v: nat, g: nat {:trigger AtLevels(a, v, g)} :: Held(after, AtLevels(a, v, g)) ==
      PairValue(f, start, vsPs, leafPs, nonleafPs, AtLevels(a, v, g), n, Held(start, AtLevels(a, v, g)))
  }

  /** Every pair of levels holds what the defaults and then the stage attributes give it. */
  ghost predicate PairsHold(f: Features, start: Attrs, after: Attrs, vsPs: PageSize, leafPs: PageSize,
                            nonleafPs: PageSize)
  {
    forall a: Attr, v: nat, g: nat {:trigger AtLevels(a, v, g)} :: Held(after, AtLevels(a, v, g)) ==
      PairValue(f, start, vsPs, leafPs, nonleafPs, AtLevels(a, v, g), 40,
                PairDefault(f, start, vsPs, leafPs, nonleafPs, a, v, g, 6))
  }

  lemma StageTargetIs(f: Features, key: Key, vsPs: PageSize, leafPs: PageSize, nonleafPs: PageSize)
    requires key.Stage? && LevelExists(f.vsMode, PtLeafLevel(vsPs))
    ensures StageVsLevel(f, vsPs, key.vsNonleaf).Some?
    ensures var vl := StageVsLevel(f, vsPs, key.vsNonleaf).value;
            var gl := StageGLevel(f, key, vl, vsPs, leafPs, nonleafPs);
            gl.Some? ==> AtLevels(key.attr, vl, gl.value) == StageTarget(f, key, vsPs, leafPs, nonleafPs)
  {}

  lemma GivenIsFiring(f: Features, attrs: Attrs, key: Key)
    requires key.Stage?
    ensures StageFires(f, attrs, key) <==> Given(f, attrs, key.attr, key)
  {}

  /** What handling one stage attribute does, firing or not. */
  ghost predicate StageDone(f: Features, key: Key, vsPs: PageSize, leafPs: PageSize, nonleafPs: PageSize, before: Attrs,
                            l: Block, n: Block, raised: bool, after: Attrs, l': Block, n': Block)
    requires key.Stage? && (f.vsMode != Disable ==> LevelExists(f.vsMode, PtLeafLevel(vsPs)))
  {
    && (!StageFires(f, before, key) ==> !raised && after == before && l' == l && n' == n)
    && (StageFires(f, before, key) && f.vsMode != Disable ==>
          StageOutcome(f, key, vsPs, leafPs, nonleafPs, before, l, n, raised, after, l', n'))
    && (StageFires(f, before, key) && f.vsMode == Disable ==>
          n' == n && BareOutcome(f, key, leafPs, before, l, raised, after, l'))
    && SameStage(after, before)
  }

  lemma PairsStep(f: Features, start: Attrs, before: Attrs, after: Attrs, vsPs: PageSize, leafPs: PageSize,
                  nonleafPs: PageSize, i: nat, l: Block, n: Block, l': Block, n': Block)
    requires i < 40 && f.vsMode != Disable && LevelExists(f.vsMode, PtLeafLevel(vsPs))
    requires PairsAfter(f, start, before, vsPs, leafPs, nonleafPs, i) && SameStage(before, start)
    requires StageDone(f, StageKey(i), vsPs, leafPs, nonleafPs, before, l, n, false, after, l', n')
    ensures PairsAfter(f, start, after, vsPs, leafPs, nonleafPs, i + 1)
  {
    var key := StageKey(i);
    StageTargetIs(f, key, vsPs, leafPs, nonleafPs);
    GivenIsFiring(f, before, key);
    assert Same(before, start, key);
    StageLevelsExist(f, key, vsPs, leafPs, nonleafPs);
  }

  lemma {:induction false} PairValueSame(f: Features, a: Attrs, b: Attrs, vsPs: PageSize, leafPs: PageSize,
                                         nonleafPs: PageSize, k: Key, n: nat, base: Option<int>)
    requires n <= 40 && SameStage(a, b)
    ensures PairValue(f, a, vsPs, leafPs, nonleafPs, k, n, base) == PairValue(f, b, vsPs, leafPs, nonleafPs, k, n, base)
  {
    if n > 0 {
      assert Same(a, b, StageKey(n - 1));
      PairValueSame(f, a, b, vsPs, leafPs, nonleafPs, k, n - 1, base);
    }
  }

  /** From the defaults to the end. */
  lemma PairsFromSetup(f: Features, start: Attrs, setup: Attrs, after: Attrs, vsPs: PageSize, leafPs: PageSize,
                       nonleafPs: PageSize)
    requires PairsAfter(f, setup, after, vsPs, leafPs, nonleafPs, 40) && SameStage(setup, start)
    requires PairsSetUp(f, start, setup, vsPs, leafPs, nonleafPs, 6)
    ensures PairsHold(f, start, after, vsPs, leafPs, nonleafPs)
  {
    forall a: Attr, v: nat, g: nat {:trigger AtLevels(a, v, g)}
      ensures Held(after, AtLevels(a, v, g)) ==
              PairValue(f, start, vsPs, leafPs, nonleafPs, AtLevels(a, v, g), 40,
                        PairDefault(f, start, vsPs, leafPs, nonleafPs, a, v, g, 6))
    {
      PairValueSame(f, setup, start, vsPs, leafPs, nonleafPs, AtLevels(a, v, g), 40, Held(setup, AtLevels(a, v, g)));
    }
  }

  /** The defaults of the first i attributes set up are in place. */
  ghost predicate PairsSetUp(f: Features, start: Attrs, attrs: Attrs, vsPs: PageSize, leafPs: PageSize,
                             nonleafPs: PageSize, i: nat)
  {
    forall a: Attr, v: nat, g: nat {:trigger AtLevels(a, v, g)} ::
      Held(attrs, AtLevels(a, v, g)) == PairDefault(f, start, vsPs, leafPs, nonleafPs, a, v, g, i)
  }

  /** With VS paging off the set-up attributes are 1 at the page's leaf level, and all other levels stay. */
  ghost predicate LeavesSetUp(f: Features, start: Attrs, attrs: Attrs, vsPs: PageSize, i: nat) {
    forall a: Attr, l: nat {:trigger AtLevel(a, l)} :: Held(attrs, AtLevel(a, l)) == LeafSetUp(f, start, vsPs, i, a, l)
  }

  ghost function LeafSetUp(f: Features, start: Attrs, vsPs: PageSize, i: nat, a: Attr, l: nat): Option<int> {
    if f.vsMode == Disable && SetupPosition(a) < i && l == PtLeafLevel(vsPs) then Some(1)
    else Held(start, AtLevel(a, l))
  }

  lemma SetUpStep(f: Features, start: Attrs, before: Attrs, after: Attrs, vsPs: PageSize, leafPs: PageSize,
                  nonleafPs: PageSize, i: nat)
    requires i < |SETUP_ATTRS|
    requires PairsSetUp(f, start, before, vsPs, leafPs, nonleafPs, i) && LeavesSetUp(f, start, before, vsPs, i)
    requires SetUpOne(f, before, after, vsPs, leafPs, nonleafPs, SETUP_ATTRS[i])
    ensures PairsSetUp(f, start, after, vsPs, leafPs, nonleafPs, i + 1) && LeavesSetUp(f, start, after, vsPs, i + 1)
  {
    var now := SETUP_ATTRS[i];
    SetupOrder(i);
    SetUpPairsStep(f, start, before, after, vsPs, leafPs, nonleafPs, i, now);
    SetUpLeavesStep(f, start, before, after, vsPs, leafPs, nonleafPs, i, now);
  }

  lemma SetUpPairsStep(f: Features, start: Attrs, before: Attrs, after: Attrs, vsPs: PageSize, leafPs: PageSize,
                       nonleafPs: PageSize, i: nat, now: Attr)
    requires forall a :: SetupPosition(a) == i <==> a == now
    requires PairsSetUp(f, start, before, vsPs, leafPs, nonleafPs, i)
    requires SetUpOne(f, before, after, vsPs, leafPs, nonleafPs, now)
    ensures PairsSetUp(f, start, after, vsPs, leafPs, nonleafPs, i + 1)
  {
    forall a: Attr, v: nat, g: nat {:trigger AtLevels(a, v, g)}
      ensures Held(after, AtLevels(a, v, g)) == PairDefault(f, start, vsPs, leafPs, nonleafPs, a, v, g, i + 1)
    {
      if a != now { assert Same(after, before, AtLevels(a, v, g)); }
      PairSetUpStep(f, start, before, after, vsPs, leafPs, nonleafPs, i, now, a, v, g);
    }
  }

  lemma SetUpLeavesStep(f: Features, start: Attrs, before: Attrs, after: Attrs, vsPs: PageSize, leafPs: PageSize,
                        nonleafPs: PageSize, i: nat, now: Attr)
    requires forall a :: SetupPosition(a) == i <==> a == now
    requires LeavesSetUp(f, start, before, vsPs, i) && SetUpOne(f, before, after, vsPs, leafPs, nonleafPs, now)
    ensures LeavesSetUp(f, start, after, vsPs, i + 1)
  {
    forall a: Attr, l: nat {:trigger AtLevel(a, l)}
      ensures Held(after, AtLevel(a, l)) == LeafSetUp(f, start, vsPs, i + 1, a, l)
    {
      if !(f.vsMode == Disable && a == now && l == PtLeafLevel(vsPs)) { assert Same(after, before, AtLevel(a, l)); }
      LeafSetUpStep(f, start, before, after, vsPs, i, now, a, l);
    }
  }

  lemma PairSetUpStep(f: Features, start: Attrs, before: Attrs, after: Attrs, vsPs: PageSize, leafPs: PageSize,
                      nonleafPs: PageSize, i: nat, now: Attr, a: Attr, v: nat, g: nat)
    requires SetupPosition(a) == i <==> a == now
    requires Held(before, AtLevels(a, v, g)) == PairDefault(f, start, vsPs, leafPs, nonleafPs, a, v, g, i)
    requires Held(after, AtLevels(a, v, g)) ==
             if a == now then PairSetup(f, before, vsPs, leafPs, nonleafPs, a, v, g)
             else Held(before, AtLevels(a, v, g))
    ensures Held(after, AtLevels(a, v, g)) == PairDefault(f, start, vsPs, leafPs, nonleafPs, a, v, g, i + 1)
  {}

  lemma LeafSetUpStep(f: Features, start: Attrs, before: Attrs, after: Attrs, vsPs: PageSize, i: nat, now: Attr,
                      a: Attr, l: nat)
    requires SetupPosition(a) == i <==> a == now
    requires Held(before, AtLevel(a, l)) == LeafSetUp(f, start, vsPs, i, a, l)
    requires Held(after, AtLevel(a, l)) ==
             if f.vsMode == Disable && a == now && l == PtLeafLevel(vsPs) then Some(1) else Held(before, AtLevel(a, l))
    ensures Held(after, AtLevel(a, l)) == LeafSetUp(f, start, vsPs, i + 1, a, l)
  {}

  lemma SetUpKeeps(f: Features, before: Attrs, after: Attrs, vsPs: PageSize, leafPs: PageSize, nonleafPs: PageSize,
                   a: Attr, start: Attrs)
    requires SetUpOne(f, before, after, vsPs, leafPs, nonleafPs, a) && SameStage(before, start)
    requires f.vsMode != Disable ==> forall k: Key :: !k.AtLevels? ==> Same(before, start, k)
    ensures SameStage(after, start)
    ensures f.vsMode != Disable ==> forall k: Key :: !k.AtLevels? ==> Same(after, start, k)
  {
    forall k: Key | k.Stage? || k.Own? ensures Same(after, start, k) {
      assert Same(after, before, k) && Same(before, start, k);
    }
    forall k: Key | f.vsMode != Disable && !k.AtLevels? ensures Same(after, start, k) {
      assert Same(after, before, k) && Same(before, start, k);
    }
  }

  lemma SetupOrder(i: nat)
    requires i < |SETUP_ATTRS|
    ensures forall a :: SetupPosition(a) == i <==> a == SETUP_ATTRS[i]
  {}

  const SETUP_ATTRS: seq<Attr> := [U, R, W, X, A, D]

  /** setup_uwrx_bit writes the pairs of one attribute and, with VS paging off, its leaf level. */
  ghost predicate SetUpOne(f: Features, before: Attrs, after: Attrs, vsPs: PageSize, leafPs: PageSize,
                           nonleafPs: PageSize, a: Attr)
  {
    && (forall k: Key ::
          !(k.AtLevels? && k.attr == a) && !(f.vsMode == Disable && k == AtLevel(a, PtLeafLevel(vsPs))) ==>
          Same(after, before, k))
    && (forall v: nat, g: nat {:trigger AtLevels(a, v, g)} ::
          Held(after, AtLevels(a, v, g)) == PairSetup(f, before, vsPs, leafPs, nonleafPs, a, v, g))
    && (f.vsMode == Disable ==> Held(after, AtLevel(a, PtLeafLevel(vsPs))) == Some(1))
  }

  /** One VS level of it. */
  ghost predicate RowSetUp(before: Attrs, after: Attrs, a: Attr, v: nat, gLeaf: nat, maxG: nat) {
    && (forall k: Key :: !(k.AtLevels? && k.attr == a && k.vsLevel == v) ==> Same(after, before, k))
    && (forall g: nat {:trigger AtLevels(a, v, g)} :: Held(after, AtLevels(a, v, g)) ==
          if gLeaf <= g < maxG then Some(if g == gLeaf then 1 else 0) else Held(before, AtLevels(a, v, g)))
  }

  ghost predicate RowsSetUp(f: Features, start: Attrs, attrs: Attrs, vsPs: PageSize, leafPs: PageSize,
                            nonleafPs: PageSize, a: Attr, upto: nat)
  {
    && (forall k: Key :: !(k.AtLevels? && k.attr == a) ==> Same(attrs, start, k))
    && (forall v: nat, g: nat {:trigger AtLevels(a, v, g)} :: Held(attrs, AtLevels(a, v, g)) ==
          if v < upto then PairSetup(f, start, vsPs, leafPs, nonleafPs, a, v, g) else Held(start, AtLevels(a, v, g)))
  }

  lemma RowsStart(f: Features, start: Attrs, vsPs: PageSize, leafPs: PageSize, nonleafPs: PageSize, a: Attr)
    ensures RowsSetUp(f, start, start, vsPs, leafPs, nonleafPs, a, PtLeafLevel(vsPs))
  {}

  lemma RowStep(f: Features, start: Attrs, before: Attrs, after: Attrs, vsPs: PageSize, leafPs: PageSize,
                nonleafPs: PageSize, a: Attr, v: nat)
    requires RowsSetUp(f, start, before, vsPs, leafPs, nonleafPs, a, v) && PtLeafLevel(vsPs) <= v < MaxLevels(f.vsMode)
    requires RowSetUp(before, after, a, v, GLeafFor(v, vsPs, leafPs, nonleafPs), MaxLevels(f.gMode))
    ensures RowsSetUp(f, start, after, vsPs, leafPs, nonleafPs, a, v + 1)
  {
    forall w: nat, g: nat {:trigger AtLevels(a, w, g)}
      ensures Held(after, AtLevels(a, w, g)) ==
        if w < v + 1 then PairSetup(f, start, vsPs, leafPs, nonleafPs, a, w, g) else Held(start, AtLevels(a, w, g))
    {
      PairStep(f, start, before, after, vsPs, leafPs, nonleafPs, a, v, w, g);
    }
    forall k: Key | !(k.AtLevels? && k.attr == a) ensures Same(after, start, k) {
      assert Same(after, before, k) && Same(before, start, k);
    }
  }

  lemma PairStep(f: Features, start: Attrs, before: Attrs, after: Attrs, vsPs: PageSize, leafPs: PageSize,
                 nonleafPs: PageSize, a: Attr, v: nat, w: nat, g: nat)
    requires RowsSetUp(f, start, before, vsPs, leafPs, nonleafPs, a, v) && PtLeafLevel(vsPs) <= v < MaxLevels(f.vsMode)
    requires RowSetUp(before, after, a, v, GLeafFor(v, vsPs, leafPs, nonleafPs), MaxLevels(f.gMode))
    ensures Held(after, AtLevels(a, w, g)) ==
      if w < v + 1 then PairSetup(f, start, vsPs, leafPs, nonleafPs, a, w, g) else Held(start, AtLevels(a, w, g))
  {
    if w != v { assert Same(after, before, AtLevels(a, w, g)); }
  }

  lemma RowsDone(f: Features, start: Attrs, attrs: Attrs, after: Attrs, vsPs: PageSize, leafPs: PageSize,
                 nonleafPs: PageSize, a: Attr, upto: nat)
    requires RowsSetUp(f, start, attrs, vsPs, leafPs, nonleafPs, a, upto) && upto >= MaxLevels(f.vsMode)
    requires Held(after, AtLevel(a, PtLeafLevel(vsPs))) ==
             if f.vsMode == Disable then Some(1) else Held(attrs, AtLevel(a, PtLeafLevel(vsPs)))
    requires forall k: Key :: k != AtLevel(a, PtLeafLevel(vsPs)) ==> Same(after, attrs, k)
    ensures SetUpOne(f, start, after, vsPs, leafPs, nonleafPs, a)
  {
    forall k: Key | !(k.AtLevels? && k.attr == a) && !(f.vsMode == Disable && k == AtLevel(a, PtLeafLevel(vsPs)))
      ensures Same(after, start, k)
    {
      assert Same(attrs, start, k);
      assert k != AtLevel(a, PtLeafLevel(vsPs)) ==> Same(after, attrs, k);
    }
    forall v: nat, g: nat {:trigger AtLevels(a, v, g)}
      ensures Held(after, AtLevels(a, v, g)) == PairSetup(f, start, vsPs, leafPs, nonleafPs, a, v, g)
    {
      assert Same(after, attrs, AtLevels(a, v, g));
      PairDone(f, start, attrs, vsPs, leafPs, nonleafPs, a, upto, v, g);
    }
  }

  lemma PairDone(f: Features, start: Attrs, attrs: Attrs, vsPs: PageSize, leafPs: PageSize, nonleafPs: PageSize,
                 a: Attr, upto: nat, v: nat, g: nat)
    requires RowsSetUp(f, start, attrs, vsPs, leafPs, nonleafPs, a, upto) && upto >= MaxLevels(f.vsMode)
    ensures Held(attrs, AtLevels(a, v, g)) == PairSetup(f, start, vsPs, leafPs, nonleafPs, a, v, g)
  {}

  // With VS paging off the stage attributes act on the levels of the G-stage walk.

  ghost function GivenOr(f: Features, start: Attrs, a: Attr, k: Key, otherwise: Option<int>): Option<int> {
    if Given(f, start, a, k) then Some(start[k]) else otherwise
  }

  /** The non-leaf value that the first q of an attribute's four stage attributes give: the later one wins. */
  ghost function BareNonLeaf(f: Features, start: Attrs, a: Attr, q: int): Option<int> {
    var first := if q >= 1 then GivenOr(f, start, a, Stage(a, true, true), None) else None;
    if q >= 2 then GivenOr(f, start, a, Stage(a, true, false), first) else first
  }

  /** And the leaf value. */
  ghost function BareLeaf(f: Features, start: Attrs, a: Attr, q: int): Option<int> {
    var first := if q >= 3 then GivenOr(f, start, a, Stage(a, false, true), None) else None;
    if q >= 4 then GivenOr(f, start, a, Stage(a, false, false), first) else first
  }

  /** A level once the first q stage attributes of a have been handled: a leaf value stands at the leaf; under a
      non-leaf value every level is as if the page had been given that one; otherwise it stays. */
  ghost function BareValue(f: Features, ps: PageSize, start: Attrs, a: Attr, l: nat, q: int): Option<int> {
    if BareLeaf(f, start, a, q).Some? && l == PtLeafLevel(ps) then BareLeaf(f, start, a, q)
    else if BareNonLeaf(f, start, a, q).Some? then
      LevelValue(f, f.gMode, ps, start[NonLeaf(a) := BareNonLeaf(f, start, a, q).value], a, l)
    else Held(start, AtLevel(a, l))
  }

  ghost predicate BareHolds(f: Features, start: Attrs, after: Attrs, ps: PageSize, a: Attr, q: int) {
    forall l: nat {:trigger AtLevel(a, l)} :: Held(after, AtLevel(a, l)) == BareValue(f, ps, start, a, l, q)
  }

  function StageAttrPosition(a: Attr): (p: nat)
    ensures p < 10 && STAGE_ATTRS[p] == a
  {
    StagePosition(Stage(a, true, true)) / 4
  }

  ghost predicate BaresAfter(f: Features, start: Attrs, after: Attrs, ps: PageSize, n: nat) {
    forall a :: BareHolds(f, start, after, ps, a, n - 4 * StageAttrPosition(a))
  }

  lemma StageKeyAt(i: nat)
    requires i < 40
    ensures StageAttrPosition(StageKey(i).attr) == i / 4
    ensures StageKey(i).vsNonleaf <==> i % 4 < 2
    ensures StageKey(i).gNonleaf <==> i % 2 == 0
  {}

  lemma BareStart(f: Features, start: Attrs, ps: PageSize)
    ensures BaresAfter(f, start, start, ps, 0)
  {}

  lemma BaresStep(f: Features, start: Attrs, before: Attrs, after: Attrs, ps: PageSize, i: nat,
                  l: Block, l': Block)
    requires i < 40 && BaresAfter(f, start, before, ps, i) && SameStage(before, start)
    requires !StageFires(f, before, StageKey(i)) ==> after == before
    requires StageFires(f, before, StageKey(i)) ==> BareOutcome(f, StageKey(i), ps, before, l, false, after, l')
    ensures BaresAfter(f, start, after, ps, i + 1)
  {
    var key := StageKey(i);
    StageKeyAt(i);
    forall a ensures BareHolds(f, start, after, ps, a, i + 1 - 4 * StageAttrPosition(a)) {
      if a == key.attr {
        BareOwnStep(f, start, before, after, ps, key, i % 4, l, l');
      } else {
        BareOtherStep(f, start, before, after, ps, key, i, a, l, l');
      }
    }
  }

  lemma BareOtherStep(f: Features, start: Attrs, before: Attrs, after: Attrs, ps: PageSize, key: Key, i: nat, a: Attr,
                      l: Block, l': Block)
    requires i < 40 && key == StageKey(i) && a != key.attr
    requires BareHolds(f, start, before, ps, a, i - 4 * StageAttrPosition(a))
    requires !StageFires(f, before, key) ==> after == before
    requires StageFires(f, before, key) ==> BareOutcome(f, key, ps, before, l, false, after, l')
    ensures BareHolds(f, start, after, ps, a, i + 1 - 4 * StageAttrPosition(a))
  {
    StageKeyAt(i);
    BareOthersStay(f, before, after, ps, key, a, l, l');
    forall v: nat {:trigger AtLevel(a, v)}
      ensures Held(after, AtLevel(a, v)) == BareValue(f, ps, start, a, v, i + 1 - 4 * StageAttrPosition(a))
    {
      assert Same(after, before, AtLevel(a, v));
      BareBeforeOrAfter(f, ps, start, a, v, i - 4 * StageAttrPosition(a));
    }
  }

  lemma BareBeforeOrAfter(f: Features, ps: PageSize, start: Attrs, a: Attr, v: nat, q: int)
    requires q < 0 || q >= 4
    ensures BareValue(f, ps, start, a, v, q + 1) == BareValue(f, ps, start, a, v, q)
  {}

  lemma BareOthersStay(f: Features, before: Attrs, after: Attrs, ps: PageSize, key: Key, a: Attr, l: Block, l': Block)
    requires key.Stage? && a != key.attr && (!StageFires(f, before, key) ==> after == before)
    requires StageFires(f, before, key) ==> BareOutcome(f, key, ps, before, l, false, after, l')
    ensures SameLevels(after, before, a)
  {
    if StageFires(f, before, key) && key.vsNonleaf {
      var moved := before[NonLeaf(key.attr) := before[key]];
      OnlyOwnLevels(f, f.gMode, ps, moved, key.attr);
      forall v: nat {:trigger AtLevel(a, v)} ensures Same(after, before, AtLevel(a, v)) {
        assert Same(after, moved, AtLevel(a, v));
      }
    }
  }

  lemma BareOwnStep(f: Features, start: Attrs, before: Attrs, after: Attrs, ps: PageSize, key: Key, q: nat,
                    l: Block, l': Block)
    requires q < 4 && key == Stage(key.attr, q < 2, q % 2 == 0)
    requires BareHolds(f, start, before, ps, key.attr, q) && SameStage(before, start)
    requires !StageFires(f, before, key) ==> after == before
    requires StageFires(f, before, key) ==> BareOutcome(f, key, ps, before, l, false, after, l')
    ensures BareHolds(f, start, after, ps, key.attr, q + 1)
  {
    var a := key.attr;
    assert Same(before, start, key) && Same(before, start, Own(a));
    GivenIsFiring(f, before, key);
    forall v: nat {:trigger AtLevel(a, v)}
      ensures Held(after, AtLevel(a, v)) == BareValue(f, ps, start, a, v, q + 1)
    {
      assert Held(before, AtLevel(a, v)) == BareValue(f, ps, start, a, v, q);
      if !StageFires(f, before, key) {
        BareNotGiven(f, start, ps, key, q, v);
      } else if key.vsNonleaf {
        BareNonLeafStep(f, start, before, ps, a, q, before[key], v);
        LevelAfter(f, f.gMode, ps, before[NonLeaf(a) := before[key]], a, v);
        BareNonLeafGiven(f, start, ps, key, q, v);
      } else {
        BareLeafGiven(f, start, ps, key, q, v);
      }
    }
  }

  lemma BareNotGiven(f: Features, start: Attrs, ps: PageSize, key: Key, q: nat, v: nat)
    requires q < 4 && key == Stage(key.attr, q < 2, q % 2 == 0) && !Given(f, start, key.attr, key)
    ensures BareValue(f, ps, start, key.attr, v, q + 1) == BareValue(f, ps, start, key.attr, v, q)
  {}

  lemma BareNonLeafGiven(f: Features, start: Attrs, ps: PageSize, key: Key, q: nat, v: nat)
    requires q < 2 && key == Stage(key.attr, true, q % 2 == 0) && Given(f, start, key.attr, key)
    ensures BareValue(f, ps, start, key.attr, v, q + 1) ==
            LevelValue(f, f.gMode, ps, start[NonLeaf(key.attr) := start[key]], key.attr, v)
  {}

  lemma BareLeafGiven(f: Features, start: Attrs, ps: PageSize, key: Key, q: nat, v: nat)
    requires 2 <= q < 4 && key == Stage(key.attr, false, q % 2 == 0) && Given(f, start, key.attr, key)
    ensures BareValue(f, ps, start, key.attr, v, q + 1) ==
            if v == PtLeafLevel(ps) then Some(start[key]) else BareValue(f, ps, start, key.attr, v, q)
  {}

  lemma LevelUnder(f: Features, attrs: Attrs, ps: PageSize, a: Attr, l: nat, value: int)
    requires Unusual(f, a, value)
    ensures var leaf, max, own := PtLeafLevel(ps), MaxLevels(f.gMode), Given(f, attrs, a, Own(a));
            LevelValue(f, f.gMode, ps, attrs[NonLeaf(a) := value], a, l) ==
              if own && l == leaf then Some(attrs[Own(a)])
              else if !own && leaf < max && l == (if leaf + 1 == max then leaf - 1 else leaf + 1) then Some(value)
              else LevelDefault(f, f.gMode, ps, attrs, a, l)
  {}

  /** Where a new non-leaf value leaves a level alone, an earlier one did too. */
  lemma BareNonLeafStep(f: Features, start: Attrs, before: Attrs, ps: PageSize, a: Attr, q: nat, value: int, l: nat)
    requires q < 2 && BareHolds(f, start, before, ps, a, q) && Same(before, start, Own(a)) && Unusual(f, a, value)
    ensures LevelValue(f, f.gMode, ps, before[NonLeaf(a) := value], a, l) ==
            LevelValue(f, f.gMode, ps, start[NonLeaf(a) := value], a, l)
  {
    assert Held(before, AtLevel(a, l)) == BareValue(f, ps, start, a, l, q);
    LevelUnder(f, before, ps, a, l, value);
    LevelUnder(f, start, ps, a, l, value);
  }

  /** What a level holds in the end with VS paging off. The defaults put a 1 over the leaf value the page was given for
      u, r, w, x, a or d; only a stage attribute changes that. */
  ghost function BareLevel(f: Features, ps: PageSize, start: Attrs, a: Attr, l: nat): Option<int> {
    var leaf, nonleaf := BareLeaf(f, start, a, 4), BareNonLeaf(f, start, a, 4);
    if leaf.Some? && l == PtLeafLevel(ps) then leaf
    else if nonleaf.Some? then LevelValue(f, f.gMode, ps, start[NonLeaf(a) := nonleaf.value], a, l)
    else if SetupPosition(a) < 6 && l == PtLeafLevel(ps) then Some(1)
    else LevelValue(f, WalkMode(f), ps, start, a, l)
  }

  ghost predicate BareLevelsHold(f: Features, ps: PageSize, start: Attrs, after: Attrs, a: Attr) {
    forall l: nat {:trigger AtLevel(a, l)} :: Held(after, AtLevel(a, l)) == BareLevel(f, ps, start, a, l)
  }

  /** So with VS paging off the leaf keeps such a value exactly when the stage attributes decide for it: a leaf one that
      repeats it, or no leaf one but a non-leaf one, or when it is 1, as u can be in supervisor mode. */
  lemma OwnLeafKeptIff(f: Features, ps: PageSize, start: Attrs, a: Attr)
    requires f.vsMode == Disable && LevelExists(f.gMode, PtLeafLevel(ps))
    requires a in {U, R, W, X, A, D} && Given(f, start, a, Own(a))
    ensures var own := start[Own(a)];
            BareLevel(f, ps, start, a, PtLeafLevel(ps)) == Some(own) <==>
              if Given(f, start, a, Stage(a, false, false)) then start[Stage(a, false, false)] == own
              else if Given(f, start, a, Stage(a, false, true)) then start[Stage(a, false, true)] == own
              else Given(f, start, a, Stage(a, true, false)) || Given(f, start, a, Stage(a, true, true)) || own == 1
  {
    assert SetupPosition(a) < 6;
    var nonleaf := BareNonLeaf(f, start, a, 4);
    if nonleaf.Some? {
      assert start[NonLeaf(a) := nonleaf.value][Own(a)] == start[Own(a)];
    }
  }

  /** A page given x = 0 and nothing else stays executable there. */
  lemma OwnLeafLost(f: Features, ps: PageSize)
    requires f.vsMode == Disable && LevelExists(f.gMode, PtLeafLevel(ps))
    ensures BareLevel(f, ps, map[Own(X) := 0], X, PtLeafLevel(ps)) == Some(1)
  {
    OwnLeafKeptIff(f, ps, map[Own(X) := 0], X);
    assert SetupPosition(X) < 6;
  }

  lemma BareFromSetup(f: Features, start: Attrs, vs: Attrs, setup: Attrs, after: Attrs, ps: PageSize, a: Attr)
    requires f.vsMode == Disable && LevelExists(f.gMode, PtLeafLevel(ps))
    requires SameButLevels(vs, start) && SameStage(setup, vs)
    requires LevelsHold(f, WalkMode(f), ps, start, vs, a) && LeavesSetUp(f, vs, setup, ps, 6)
    requires BareHolds(f, setup, after, ps, a, 4)
    ensures BareLevelsHold(f, ps, start, after, a)
  {
    forall q: bool, g: bool ensures Same(setup, start, Stage(a, q, g)) {
      assert Same(setup, vs, Stage(a, q, g)) && Same(vs, start, Stage(a, q, g));
    }
    assert Same(setup, vs, Own(a)) && Same(vs, start, Own(a));
    forall l: nat {:trigger AtLevel(a, l)} ensures Held(after, AtLevel(a, l)) == BareLevel(f, ps, start, a, l) {
      assert Held(after, AtLevel(a, l)) == BareValue(f, ps, setup, a, l, 4);
      BareLevelIs(f, start, vs, setup, ps, a, l);
    }
  }

  lemma BareLevelIs(f: Features, start: Attrs, vs: Attrs, setup: Attrs, ps: PageSize, a: Attr, l: nat)
    requires f.vsMode == Disable && LevelExists(f.gMode, PtLeafLevel(ps)) && Same(setup, start, Own(a))
    requires forall q: bool, g: bool :: Same(setup, start, Stage(a, q, g))
    requires LevelsHold(f, WalkMode(f), ps, start, vs, a) && LeavesSetUp(f, vs, setup, ps, 6)
    ensures BareValue(f, ps, setup, a, l, 4) == BareLevel(f, ps, start, a, l)
  {
    BareGivenSame(f, start, setup, a);
    assert Held(setup, AtLevel(a, l)) == LeafSetUp(f, vs, ps, 6, a, l);
    assert Held(vs, AtLevel(a, l)) == LevelValue(f, WalkMode(f), ps, start, a, l);
    var nonleaf := BareNonLeaf(f, start, a, 4);
    if nonleaf.Some? && (l != PtLeafLevel(ps) || BareLeaf(f, start, a, 4) == None) {
      BareNonLeafSame(f, start, vs, setup, ps, a, l, nonleaf.value);
    }
  }

  /** Under a stage non-leaf value the earlier phases leave no trace. */
  lemma BareNonLeafSame(f: Features, start: Attrs, vs: Attrs, setup: Attrs, ps: PageSize, a: Attr, l: nat, value: int)
    requires f.vsMode == Disable && LevelExists(f.gMode, PtLeafLevel(ps)) && Same(setup, start, Own(a))
    requires Held(setup, AtLevel(a, l)) == LeafSetUp(f, vs, ps, 6, a, l) && Unusual(f, a, value)
    requires Held(vs, AtLevel(a, l)) == LevelValue(f, WalkMode(f), ps, start, a, l)
    requires l != PtLeafLevel(ps) || BareLeaf(f, start, a, 4) == None
    ensures LevelValue(f, f.gMode, ps, setup[NonLeaf(a) := value], a, l) ==
            LevelValue(f, f.gMode, ps, start[NonLeaf(a) := value], a, l)
  {
    LevelUnder(f, setup, ps, a, l, value);
    LevelUnder(f, start, ps, a, l, value);
  }

  lemma BareGivenSame(f: Features, start: Attrs, setup: Attrs, a: Attr)
    requires forall q: bool, g: bool :: Same(setup, start, Stage(a, q, g))
    ensures BareLeaf(f, setup, a, 4) == BareLeaf(f, start, a, 4)
    ensures BareNonLeaf(f, setup, a, 4) == BareNonLeaf(f, start, a, 4)
  {}
}
