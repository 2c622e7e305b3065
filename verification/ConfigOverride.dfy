/** Layered instruction configurations (riescue/compliance/lib/config_parser.py). A dictionary read from JSON is a
    sequence of entries with their names; `{**a, **b}` is the map merge a + b. */
module ConfigOverride {
  import opened Wrappers

  datatype Json =
    | Null
    | Truth(b: bool)
    | Int(i: int)
    | Float(r: real)
    | Text(s: string)
    | Items(items: seq<Json>)
    | Object(entries: map<string, Json>)

  /** A number, and true and false as 1 and 0. */
  function Num(j: Json): Option<real> {
    match j
    case Truth(b) => Some(if b then 1.0 else 0.0)
    case Int(i) => Some(i as real)
    case Float(r) => Some(r)
    case _ => None
  }

  /** Python's equality: numbers and truth values by their number, lists and dictionaries by their parts. */
  predicate Same(a: Json, b: Json) {
    match a
    case Null => b == Null
    case Text(s) => b == Text(s)
    case Items(items) => b.Items? && |items| == |b.items| && forall i | 0 <= i < |items| :: Same(items[i], b.items[i])
    case Object(entries) =>
      b.Object? && entries.Keys == b.entries.Keys && forall k | k in entries :: Same(entries[k], b.entries[k])
    case _ => Num(a) == Num(b)
  }

  lemma {:induction false} SameAsItself(a: Json)
    ensures Same(a, a)
  {
    match a
    case Items(items) => forall i | 0 <= i < |items| ensures Same(items[i], items[i]) { SameAsItself(items[i]); }
    case Object(entries) => forall k | k in entries ensures Same(entries[k], entries[k]) { SameAsItself(entries[k]); }
    case _ =>
  }

  /** Every number and truth value written as one kind of number, all the way down. */
  function Normal(j: Json): Json {
    match j
    case Truth(b) => if b then Float(1.0) else Float(0.0)
    case Int(i) => Float(i as real)
    case Items(items) => Items(seq(|items|, n requires 0 <= n < |items| => Normal(items[n])))
    case Object(entries) => Object(map k | k in entries :: Normal(entries[k]))
    case _ => j
  }

  /** So that equality is having the same normal form. */
  lemma {:induction false} SameIffNormal(a: Json, b: Json)
    ensures Same(a, b) <==> Normal(a) == Normal(b)
  {
    match (a, b)
    case (Items(x), Items(y)) =>
      if |x| == |y| {
        forall n | 0 <= n < |x| ensures Same(x[n], y[n]) <==> Normal(x[n]) == Normal(y[n]) {
          SameIffNormal(x[n], y[n]);
        }
      }
      if Normal(a) == Normal(b) {
        forall n | 0 <= n < |x| ensures Normal(x[n]) == Normal(y[n]) {
          assert Normal(a).items[n] == Normal(b).items[n];
        }
      }
    case (Object(x), Object(y)) =>
      forall k | k in x && k in y ensures Same(x[k], y[k]) <==> Normal(x[k]) == Normal(y[k]) {
        SameIffNormal(x[k], y[k]);
      }
      assert Normal(a).entries.Keys == x.Keys && Normal(b).entries.Keys == y.Keys;
      if Normal(a) == Normal(b) {
        forall k | k in x ensures k in y && Normal(x[k]) == Normal(y[k]) {
          assert Normal(a).entries[k] == Normal(b).entries[k];
        }
      }
    case _ =>
  }

  type Layer = map<string, Json>

  datatype Instr = Instr(name: string, configs: Layer)
  datatype Group = Group(name: string, configs: Layer, instrs: seq<Instr>)
  datatype Ext = Ext(name: string, configs: Layer, groups: seq<Group>)

  /** An entry of the user's file: its "configs" entry, if it has one, and the entry as a whole. */
  datatype UserEntry = UserEntry(configs: Option<Layer>, whole: Layer)

  type User = map<string, UserEntry>

  /** What the user gives for an extension, group or instruction; nothing is the empty layer. */
  function UserLayer(user: User, name: string): Layer {
    if name !in user then map[] else if user[name].configs.Some? then user[name].configs.value else user[name].whole
  }

  // ---------------------------------------------------------------------------------------------
  // The maps the two passes compute

  function DefaultGroup(e: Ext, g: Group): Layer { e.configs + g.configs }

  function DefaultInstr(e: Ext, g: Group, i: Instr): Layer { DefaultGroup(e, g) + i.configs }

  function NewGroup(user: User, e: Ext, g: Group): Layer {
    DefaultGroup(e, g) + UserLayer(user, e.name) + UserLayer(user, g.name)
  }

  /** The entries of a group's new layer that its old one lacks or holds with a value that is not equal. */
  function Inherited(before: Layer, now: Layer): Layer {
    map k | k in now && !(k in before && Same(now[k], before[k])) :: now[k]
  }

  function FinalInstr(user: User, e: Ext, g: Group, i: Instr): Layer {
    DefaultInstr(e, g, i) + (Inherited(DefaultGroup(e, g), NewGroup(user, e, g)) + UserLayer(user, i.name))
  }

  // ---------------------------------------------------------------------------------------------
  // The precedence rule, key by key and without merging maps

  function Get(layer: Layer, k: string): Option<Json> { if k in layer then Some(layer[k]) else None }

  function Over(first: Option<Json>, second: Option<Json>): Option<Json> { if first.Some? then first else second }

  /** What the user's file gives a name under a key: from the entry's "configs" if it has that, from the entry itself
      otherwise. */
  function Given(user: User, name: string, k: string): Option<Json> {
    if name !in user then None
    else match user[name].configs
      case Some(c) => if k in c then Some(c[k]) else None
      case None => if k in user[name].whole then Some(user[name].whole[k]) else None
  }

  function Rule(user: User, e: Ext, g: Group, i: Instr, k: string): Option<Json> {
    var groupDefault := Over(Get(g.configs, k), Get(e.configs, k));
    var groupUser := Over(Given(user, g.name, k), Given(user, e.name, k));
    if Given(user, i.name, k).Some? then Given(user, i.name, k)
    else if groupUser.Some? && !(groupDefault.Some? && Normal(groupUser.value) == Normal(groupDefault.value))
    then groupUser
    else Over(Get(i.configs, k), groupDefault)
  }

  lemma GivenIsGet(user: User, name: string, k: string)
    ensures Get(UserLayer(user, name), k) == Given(user, name, k)
  {}

  /** The merged layer of an instruction follows the rule. */
  lemma FinalFollowsRule(user: User, e: Ext, g: Group, i: Instr, k: string)
    ensures Get(FinalInstr(user, e, g, i), k) == Rule(user, e, g, i, k)
  {
    var before, now := DefaultGroup(e, g), NewGroup(user, e, g);
    GivenIsGet(user, i.name, k);
    GivenIsGet(user, g.name, k);
    GivenIsGet(user, e.name, k);
    assert Get(before, k) == Over(Get(g.configs, k), Get(e.configs, k));
    assert Get(now, k) == Over(Over(Given(user, g.name, k), Given(user, e.name, k)), Get(before, k));
    if k in now && k in before { SameIffNormal(now[k], before[k]); }
    assert Get(Inherited(before, now), k) ==
           if Get(now, k).Some? && !(Get(before, k).Some? && Same(now[k], before[k])) then Get(now, k) else None;
  }

  // ---------------------------------------------------------------------------------------------
  // The whole tree

  function ParsedInstr(e: Ext, g: Group, i: Instr): Instr { i.(configs := DefaultInstr(e, g, i)) }

  function ParsedGroup(e: Ext, g: Group): Group {
    Group(g.name, DefaultGroup(e, g), seq(|g.instrs|, n requires 0 <= n < |g.instrs| => ParsedInstr(e, g, g.instrs[n])))
  }

  function ParsedExt(e: Ext): Ext {
    e.(groups := seq(|e.groups|, n requires 0 <= n < |e.groups| => ParsedGroup(e, e.groups[n])))
  }

  function ParsedTree(tree: seq<Ext>): seq<Ext> { seq(|tree|, n requires 0 <= n < |tree| => ParsedExt(tree[n])) }

  /** What override makes of a parsed instruction, group and extension. */
  function NewLayer(user: User, ext: string, g: Group): Layer {
    g.configs + UserLayer(user, ext) + UserLayer(user, g.name)
  }

  function OverriddenInstr(user: User, inherit: Layer, i: Instr): Instr {
    i.(configs := i.configs + (inherit + UserLayer(user, i.name)))
  }

  function OverriddenGroup(user: User, ext: string, g: Group): Group {
    var inherit := Inherited(g.configs, NewLayer(user, ext, g));
    Group(g.name, NewLayer(user, ext, g),
          seq(|g.instrs|, n requires 0 <= n < |g.instrs| => OverriddenInstr(user, inherit, g.instrs[n])))
  }

  function OverriddenExt(user: User, e: Ext): Ext {
    Ext(e.name, e.configs + UserLayer(user, e.name),
        seq(|e.groups|, n requires 0 <= n < |e.groups| => OverriddenGroup(user, e.name, e.groups[n])))
  }

  function OverriddenTree(user: User, tree: seq<Ext>): seq<Ext> {
    seq(|tree|, n requires 0 <= n < |tree| => OverriddenExt(user, tree[n]))
  }

  /** Parsing and overriding give every instruction its final layer. */
  lemma OverriddenIsFinal(user: User, tree: seq<Ext>, x: nat, y: nat, z: nat)
    requires x < |tree| && y < |tree[x].groups| && z < |tree[x].groups[y].instrs|
    ensures var out := OverriddenTree(user, ParsedTree(tree));
            && out[x].groups[y].instrs[z].name == tree[x].groups[y].instrs[z].name
            && out[x].groups[y].instrs[z].configs ==
               FinalInstr(user, tree[x], tree[x].groups[y], tree[x].groups[y].instrs[z])
  {}

  /** The layers of an extension and of a group, which the tree keeps for later use: the user's group entry over the
      user's extension entry over the defaults. */
  ghost predicate LayersFollow(out: seq<Ext>, tree: seq<Ext>, user: User) {
    && |out| == |tree|
    && forall x :: 0 <= x < |tree| ==>
         && |out[x].groups| == |tree[x].groups|
         && (forall k :: Get(out[x].configs, k) == Over(Given(user, tree[x].name, k), Get(tree[x].configs, k)))
         && forall y :: 0 <= y < |tree[x].groups| ==> GroupFollows(out[x].groups[y], user, tree[x], tree[x].groups[y])
  }

  ghost predicate GroupFollows(out: Group, user: User, e: Ext, g: Group) {
    forall k :: Get(out.configs, k) ==
                Over(Over(Given(user, g.name, k), Given(user, e.name, k)), Over(Get(g.configs, k), Get(e.configs, k)))
  }

  lemma OverriddenLayers(user: User, tree: seq<Ext>)
    ensures LayersFollow(OverriddenTree(user, ParsedTree(tree)), tree, user)
  {
    var out := OverriddenTree(user, ParsedTree(tree));
    forall x | 0 <= x < |tree|
      ensures forall k :: Get(out[x].configs, k) == Over(Given(user, tree[x].name, k), Get(tree[x].configs, k))
      ensures forall y :: 0 <= y < |tree[x].groups| ==> GroupFollows(out[x].groups[y], user, tree[x], tree[x].groups[y])
    {
      forall k ensures Get(out[x].configs, k) == Over(Given(user, tree[x].name, k), Get(tree[x].configs, k)) {
        GivenIsGet(user, tree[x].name, k);
      }
      forall y | 0 <= y < |tree[x].groups|
        ensures GroupFollows(out[x].groups[y], user, tree[x], tree[x].groups[y])
      {
        GroupLayer(user, tree[x], tree[x].groups[y]);
        assert out[x].groups[y] == OverriddenGroup(user, tree[x].name, ParsedGroup(tree[x], tree[x].groups[y]));
      }
    }
  }

  lemma GroupLayer(user: User, e: Ext, g: Group)
    ensures GroupFollows(OverriddenGroup(user, e.name, ParsedGroup(e, g)), user, e, g)
  {
    forall k ensures Get(OverriddenGroup(user, e.name, ParsedGroup(e, g)).configs, k) ==
                     Over(Over(Given(user, g.name, k), Given(user, e.name, k)),
                          Over(Get(g.configs, k), Get(e.configs, k)))
    {
      GivenIsGet(user, g.name, k);
      GivenIsGet(user, e.name, k);
    }
  }

  /** Where an entry has "configs", nothing beside it has any effect; where it has none, the entry itself is its
      "configs". */
  lemma OnlyConfigsCount(user: User, name: string, whole: Layer, tree: seq<Ext>)
    requires name in user
    ensures var c := if user[name].configs.Some? then user[name].configs.value else user[name].whole;
            OverriddenTree(user[name := UserEntry(Some(c), whole)], tree) == OverriddenTree(user, tree)
  {
    var c := if user[name].configs.Some? then user[name].configs.value else user[name].whole;
    var other := user[name := UserEntry(Some(c), whole)];
    assert forall n :: UserLayer(other, n) == UserLayer(user, n);
    forall x | 0 <= x < |tree| ensures OverriddenExt(other, tree[x]) == OverriddenExt(user, tree[x]) {
      forall y | 0 <= y < |tree[x].groups|
        ensures OverriddenGroup(other, tree[x].name, tree[x].groups[y])
             == OverriddenGroup(user, tree[x].name, tree[x].groups[y])
      {
        var g := tree[x].groups[y];
        var inherit := Inherited(g.configs, NewLayer(user, tree[x].name, g));
        forall n | 0 <= n < |g.instrs|
          ensures OverriddenInstr(other, inherit, g.instrs[n]) == OverriddenInstr(user, inherit, g.instrs[n])
        {
        }
      }
    }
  }

  /** Without a user file the parsed tree stands: the empty user file changes nothing. */
  lemma EmptyUserChangesNothing(tree: seq<Ext>)
    ensures OverriddenTree(map[], tree) == tree
  {
    forall x | 0 <= x < |tree| ensures OverriddenExt(map[], tree[x]) == tree[x] {
      forall y | 0 <= y < |tree[x].groups|
        ensures OverriddenGroup(map[], tree[x].name, tree[x].groups[y]) == tree[x].groups[y]
      {
        var g := tree[x].groups[y];
        assert NewLayer(map[], tree[x].name, g) == g.configs;
        forall k | k in g.configs ensures Same(g.configs[k], g.configs[k]) { SameAsItself(g.configs[k]); }
        assert Inherited(g.configs, g.configs) == map[];
        assert forall z :: 0 <= z < |g.instrs| ==> OverriddenInstr(map[], map[], g.instrs[z]) == g.instrs[z];
      }
    }
  }

  // ---------------------------------------------------------------------------------------------
  // Extraction

  /** The instructions of the tree in the order they are visited. */
  function AllGroups(tree: seq<Ext>): seq<Group> {
    if tree == [] then [] else AllGroups(tree[..|tree| - 1]) + tree[|tree| - 1].groups
  }

  function AllInstrs(groups: seq<Group>): seq<Instr> {
    if groups == [] then [] else AllInstrs(groups[..|groups| - 1]) + groups[|groups| - 1].instrs
  }

  /** Later instructions of the same name win. */
  function Extracted(instrs: seq<Instr>): map<string, Layer> {
    if instrs == [] then map[] else
      Extracted(instrs[..|instrs| - 1])[instrs[|instrs| - 1].name := instrs[|instrs| - 1].configs]
  }

  ghost predicate DistinctNames(instrs: seq<Instr>) {
    forall i, j :: 0 <= i < j < |instrs| ==> instrs[i].name != instrs[j].name
  }

  lemma {:induction false} ExtractedKeys(instrs: seq<Instr>)
    ensures forall name :: name in Extracted(instrs) <==> exists i :: 0 <= i < |instrs| && instrs[i].name == name
  {
    if instrs != [] { ExtractedKeys(instrs[..|instrs| - 1]); }
  }

  lemma DistinctSnoc(instrs: seq<Instr>, last: Instr)
    ensures DistinctNames(instrs + [last]) <==>
              DistinctNames(instrs) && forall i :: 0 <= i < |instrs| ==> instrs[i].name != last.name
  {
    var all := instrs + [last];
    assert all[|instrs|] == last && forall i :: 0 <= i < |instrs| ==> all[i] == instrs[i];
  }

  /** Extraction keeps as many entries as there are instructions exactly when their names are distinct. */
  lemma {:induction false} ExtractionKeepsAllIff(instrs: seq<Instr>)
    ensures |Extracted(instrs)| <= |instrs|
    ensures |Extracted(instrs)| == |instrs| <==> DistinctNames(instrs)
  {
    if instrs != [] {
      var init, last := instrs[..|instrs| - 1], instrs[|instrs| - 1];
      ExtractionKeepsAllIff(init);
      ExtractedKeys(init);
      DistinctSnoc(init, last);
      assert instrs == init + [last];
      assert Extracted(instrs).Keys == Extracted(init).Keys + {last.name};
      assert |Extracted(instrs)| == |Extracted(instrs).Keys| && |Extracted(init)| == |Extracted(init).Keys|;
    }
  }

  /** Then every instruction has its own configuration. */
  lemma {:induction false} ExtractionKeepsOwn(instrs: seq<Instr>, i: nat)
    requires i < |instrs| && DistinctNames(instrs)
    ensures instrs[i].name in Extracted(instrs) && Extracted(instrs)[instrs[i].name] == instrs[i].configs
  {
    var init, last := instrs[..|instrs| - 1], instrs[|instrs| - 1];
    assert instrs == init + [last];
    DistinctSnoc(init, last);
    if i < |init| { ExtractionKeepsOwn(init, i); }
  }

  // ---------------------------------------------------------------------------------------------
  // Disjoint groups

  predicate Shares(g: Group, name: string) { exists i :: 0 <= i < |g.instrs| && g.instrs[i].name == name }

  ghost predicate Disjoint(g: Group, h: Group) { forall i :: 0 <= i < |g.instrs| ==> !Shares(h, g.instrs[i].name) }

  ghost predicate PairwiseDisjoint(groups: seq<Group>) {
    forall i, j :: 0 <= i < j < |groups| ==> Disjoint(groups[i], groups[j])
  }

  /** The names in one group are keys of one dictionary. */
  ghost predicate DictKeys(groups: seq<Group>) { forall i :: 0 <= i < |groups| ==> DistinctNames(groups[i].instrs) }

  lemma {:induction false} FromGroup(groups: seq<Group>, n: nat) returns (i: nat, j: nat)
    requires n < |AllInstrs(groups)|
    ensures i < |groups| && j < |groups[i].instrs| && groups[i].instrs[j] == AllInstrs(groups)[n]
  {
    var init := groups[..|groups| - 1];
    if n < |AllInstrs(init)| {
      i, j := FromGroup(init, n);
    } else {
      i, j := |groups| - 1, n - |AllInstrs(init)|;
    }
  }

  lemma {:induction false} AllInstrsHas(groups: seq<Group>, i: nat, j: nat) returns (n: nat)
    requires i < |groups| && j < |groups[i].instrs|
    ensures n < |AllInstrs(groups)| && AllInstrs(groups)[n] == groups[i].instrs[j]
  {
    var init := groups[..|groups| - 1];
    if i < |init| {
      n := AllInstrsHas(init, i, j);
    } else {
      n := |AllInstrs(init)| + j;
    }
  }

  ghost predicate Apart(a: seq<Instr>, b: seq<Instr>) {
    forall i, j :: 0 <= i < |a| && 0 <= j < |b| ==> a[i].name != b[j].name
  }

  lemma DistinctConcat(a: seq<Instr>, b: seq<Instr>)
    ensures DistinctNames(a + b) <==>
              DistinctNames(a) && DistinctNames(b) && Apart(a, b)
  {
    var all := a + b;
    assert forall i :: 0 <= i < |a| ==> all[i] == a[i];
    assert forall j :: 0 <= j < |b| ==> all[|a| + j] == b[j];
    if DistinctNames(all) {
      forall i, j | 0 <= i < j < |b| ensures b[i].name != b[j].name { assert all[|a| + i].name != all[|a| + j].name; }
      forall i, j | 0 <= i < |a| && 0 <= j < |b| ensures a[i].name != b[j].name {
        assert all[i].name != all[|a| + j].name;
      }
    }
  }

  /** The disjointness check is the check that no name occurs twice in the whole tree. */
  lemma {:induction false} DisjointIffDistinct(groups: seq<Group>)
    requires DictKeys(groups)
    ensures PairwiseDisjoint(groups) <==> DistinctNames(AllInstrs(groups))
  {
    if groups != [] {
      var init, last := groups[..|groups| - 1], groups[|groups| - 1];
      DisjointIffDistinct(init);
      DistinctConcat(AllInstrs(init), last.instrs);
      DisjointFromAll(init, last);
      assert groups == init + [last];
      assert PairwiseDisjoint(groups) <==>
        PairwiseDisjoint(init) && forall i :: 0 <= i < |init| ==> Disjoint(init[i], last);
    }
  }

  lemma DisjointIsApart(g: Group, h: Group)
    ensures Disjoint(g, h) <==> Apart(g.instrs, h.instrs)
  {
    if Disjoint(g, h) {
      forall i, j | 0 <= i < |g.instrs| && 0 <= j < |h.instrs| ensures g.instrs[i].name != h.instrs[j].name {
        assert !Shares(h, g.instrs[i].name);
      }
    }
  }

  lemma DisjointFromAll(groups: seq<Group>, g: Group)
    ensures (forall i :: 0 <= i < |groups| ==> Disjoint(groups[i], g)) <==> Apart(AllInstrs(groups), g.instrs)
  {
    var all := AllInstrs(groups);
    if forall i :: 0 <= i < |groups| ==> Disjoint(groups[i], g) {
      forall m, n | 0 <= m < |all| && 0 <= n < |g.instrs| ensures all[m].name != g.instrs[n].name {
        var i, j := FromGroup(groups, m);
        DisjointIsApart(groups[i], g);
      }
    }
    if Apart(all, g.instrs) {
      forall i | 0 <= i < |groups| ensures Disjoint(groups[i], g) {
        forall j, n | 0 <= j < |groups[i].instrs| && 0 <= n < |g.instrs|
          ensures groups[i].instrs[j].name != g.instrs[n].name
        {
          var m := AllInstrsHas(groups, i, j);
        }
        DisjointIsApart(groups[i], g);
      }
    }
  }

  // ---------------------------------------------------------------------------------------------
  // Parsing and overriding keep the names

  ghost predicate SameNames(g: Group, h: Group) {
    && g.name == h.name && |g.instrs| == |h.instrs|
    && forall n :: 0 <= n < |g.instrs| ==> g.instrs[n].name == h.instrs[n].name
  }

  ghost predicate SameGroups(gs: seq<Group>, hs: seq<Group>) {
    |gs| == |hs| && forall y :: 0 <= y < |gs| ==> SameNames(gs[y], hs[y])
  }

  lemma SameSharing(gs: seq<Group>, hs: seq<Group>)
    requires SameGroups(gs, hs)
    ensures PairwiseDisjoint(gs) ==> PairwiseDisjoint(hs)
    ensures DictKeys(gs) ==> DictKeys(hs)
    ensures |AllInstrs(gs)| == |AllInstrs(hs)|
  {
    if PairwiseDisjoint(gs) {
      forall i, j | 0 <= i < j < |hs| ensures Disjoint(hs[i], hs[j]) {
        assert Disjoint(gs[i], gs[j]) && SameNames(gs[i], hs[i]) && SameNames(gs[j], hs[j]);
        forall n | 0 <= n < |hs[i].instrs| ensures !Shares(hs[j], hs[i].instrs[n].name) {
          assert !Shares(gs[j], gs[i].instrs[n].name);
        }
      }
    }
    if DictKeys(gs) {
      forall i | 0 <= i < |hs| ensures DistinctNames(hs[i].instrs) { assert SameNames(gs[i], hs[i]); }
    }
    SameCount(gs, hs);
  }

  lemma {:induction false} SameCount(gs: seq<Group>, hs: seq<Group>)
    requires SameGroups(gs, hs)
    ensures |AllInstrs(gs)| == |AllInstrs(hs)|
  {
    if gs != [] {
      SameCount(gs[..|gs| - 1], hs[..|hs| - 1]);
      assert SameNames(gs[|gs| - 1], hs[|hs| - 1]);
    }
  }

  lemma {:induction false} SameAllGroups(tree: seq<Ext>, out: seq<Ext>)
    requires |out| == |tree| && forall x :: 0 <= x < |tree| ==> SameGroups(tree[x].groups, out[x].groups)
    ensures SameGroups(AllGroups(tree), AllGroups(out))
  {
    if tree != [] {
      var n := |tree| - 1;
      SameAllGroups(tree[..n], out[..n]);
      assert SameGroups(tree[n].groups, out[n].groups);
    }
  }

  lemma NamesKept(user: User, tree: seq<Ext>)
    ensures SameGroups(AllGroups(tree), AllGroups(OverriddenTree(user, ParsedTree(tree))))
    ensures SameGroups(AllGroups(OverriddenTree(user, ParsedTree(tree))), AllGroups(tree))
  {
    SameAllGroups(tree, OverriddenTree(user, ParsedTree(tree)));
    SameAllGroups(OverriddenTree(user, ParsedTree(tree)), tree);
  }

  lemma {:induction false} AllGroupsHas(tree: seq<Ext>, x: nat, y: nat)
    requires x < |tree| && y < |tree[x].groups|
    ensures tree[x].groups[y] in AllGroups(tree)
  {
    if x < |tree| - 1 {
      AllGroupsHas(tree[..|tree| - 1], x, y);
    }
  }

  // ---------------------------------------------------------------------------------------------
  // The result

  /** Every instruction of the tree has a configuration of its own, whose every entry follows the rule. */
  ghost predicate Refines(configs: map<string, Layer>, tree: seq<Ext>, user: User) {
    && |configs| == |AllInstrs(AllGroups(tree))|
    && forall x, y, z :: 0 <= x < |tree| && 0 <= y < |tree[x].groups| && 0 <= z < |tree[x].groups[y].instrs| ==>
         FollowsRule(configs, user, tree[x], tree[x].groups[y], tree[x].groups[y].instrs[z])
  }

  ghost predicate FollowsRule(configs: map<string, Layer>, user: User, e: Ext, g: Group, i: Instr) {
    i.name in configs && forall k {:trigger Rule(user, e, g, i, k)} :: Get(configs[i.name], k) == Rule(user, e, g, i, k)
  }

  /** Disjoint groups make the extracted configurations follow the precedence rule. */
  lemma ExtractionRefines(user: User, tree: seq<Ext>)
    requires DictKeys(AllGroups(tree)) && PairwiseDisjoint(AllGroups(tree))
    ensures Refines(Extracted(AllInstrs(AllGroups(OverriddenTree(user, ParsedTree(tree))))), tree, user)
  {
    var out := OverriddenTree(user, ParsedTree(tree));
    var instrs := AllInstrs(AllGroups(out));
    NamesKept(user, tree);
    SameSharing(AllGroups(tree), AllGroups(out));
    DisjointIffDistinct(AllGroups(out));
    ExtractionKeepsAllIff(instrs);
    forall x, y, z | 0 <= x < |tree| && 0 <= y < |tree[x].groups| && 0 <= z < |tree[x].groups[y].instrs|
      ensures FollowsRule(Extracted(instrs), user, tree[x], tree[x].groups[y], tree[x].groups[y].instrs[z])
    {
      InstrRefines(user, tree, x, y, z);
    }
  }

  lemma InstrRefines(user: User, tree: seq<Ext>, x: nat, y: nat, z: nat)
    requires x < |tree| && y < |tree[x].groups| && z < |tree[x].groups[y].instrs|
    requires DistinctNames(AllInstrs(AllGroups(OverriddenTree(user, ParsedTree(tree)))))
    ensures FollowsRule(Extracted(AllInstrs(AllGroups(OverriddenTree(user, ParsedTree(tree))))),
                        user, tree[x], tree[x].groups[y], tree[x].groups[y].instrs[z])
  {
    var out := OverriddenTree(user, ParsedTree(tree));
    var instrs := AllInstrs(AllGroups(out));
    var e, g := tree[x], tree[x].groups[y];
    var i := g.instrs[z];
    OverriddenIsFinal(user, tree, x, y, z);
    var final := out[x].groups[y].instrs[z];
    AllGroupsHas(out, x, y);
    var m :| 0 <= m < |AllGroups(out)| && AllGroups(out)[m] == out[x].groups[y];
    var n := AllInstrsHas(AllGroups(out), m, z);
    ExtractionKeepsOwn(instrs, n);
    forall k ensures Get(Extracted(instrs)[i.name], k) == Rule(user, e, g, i, k) {
      FinalFollowsRule(user, e, g, i, k);
    }
  }

  // ---------------------------------------------------------------------------------------------
  // The parser

  ghost predicate NoDuplicates(names: seq<string>) { forall i, j :: 0 <= i < j < |names| ==> names[i] != names[j] }

  predicate NoneShared(a: seq<string>, b: seq<string>) { forall n :: n in a ==> n !in b }

  /** A list is as long as its set exactly when it has no duplicates. */
  lemma {:induction false} SetSizeIff(names: seq<string>)
    ensures |set n | n in names| <= |names|
    ensures |set n | n in names| == |names| <==> NoDuplicates(names)
  {
    if names != [] {
      var init, last := names[..|names| - 1], names[|names| - 1];
      SetSizeIff(init);
      assert names == init + [last];
      assert (set n | n in names) == (set n | n in init) + {last};
      assert NoDuplicates(names) <==> NoDuplicates(init) && last !in init;
    }
  }

  lemma DisjointSets(a: seq<string>, b: seq<string>, first: set<string>, second: set<string>)
    requires (forall n :: n in first <==> n in a) && forall n :: n in second <==> n in b
    ensures first !! second <==> NoneShared(a, b)
  {
    if first !! second {
      forall n | n in a ensures n !in b { assert n in first; }
    }
    if NoneShared(a, b) {
      forall n | n in first ensures n !in second { assert n in a; }
    }
  }

  class ConfigParser {
    const groupNames: map<string, seq<string>>
    var tree: seq<Ext>

    constructor (groupNames: map<string, seq<string>>, tree: seq<Ext>)
      ensures this.groupNames == groupNames && this.tree == tree
    {
      this.groupNames, this.tree := groupNames, tree;
    }

    predicate ValidInstr(name: string) { exists g :: g in groupNames && name in groupNames[g] }

    ghost predicate ValidGroup(g: Group) {
      g.name in groupNames && forall n :: 0 <= n < |g.instrs| ==> ValidInstr(g.instrs[n].name)
    }

    ghost predicate ValidExt(e: Ext) { forall n :: 0 <= n < |e.groups| ==> ValidGroup(e.groups[n]) }

    ghost predicate ValidTree(tree: seq<Ext>) { forall n :: 0 <= n < |tree| ==> ValidExt(tree[n]) }

    lemma ParsedIsValid(tree: seq<Ext>)
      requires ValidTree(tree)
      ensures ValidTree(ParsedTree(tree))
    {
      forall x | 0 <= x < |tree| ensures ValidExt(ParsedExt(tree[x])) {
        forall y | 0 <= y < |tree[x].groups| ensures ValidGroup(ParsedGroup(tree[x], tree[x].groups[y])) {
          assert ValidGroup(tree[x].groups[y]);
        }
      }
    }

    /** validate_instruction_name */
    method ValidateInstructionName(name: string) returns (ok: bool)
      ensures ok == ValidInstr(name)
    {
      var names := groupNames.Keys;
      while names != {}
        invariant names <= groupNames.Keys
        invariant forall g :: g in groupNames && g !in names ==> name !in groupNames[g]
        decreases |names|
      {
        var g :| g in names;
        if name in groupNames[g] { return true; }
        names := names - {g};
      }
      return false;
    }

    /** The group part of parse_default_config; false is the AssertionError. */
    method ParseGroup(e: Ext, g: Group) returns (ok: bool, out: Group)
      ensures ok == ValidGroup(g)
      ensures ok ==> out == ParsedGroup(e, g)
    {
      out := g;
      if g.name !in groupNames { return false, g; }
      var configs, instrs := e.configs + g.configs, [];
      for n := 0 to |g.instrs|
        invariant |instrs| == n
        invariant forall k :: 0 <= k < n ==> ValidInstr(g.instrs[k].name) && instrs[k] == ParsedInstr(e, g, g.instrs[k])
      {
        var i := g.instrs[n];
        var valid := ValidateInstructionName(i.name);
        if !valid { return false, g; }
        instrs := instrs + [i.(configs := configs + i.configs)];
      }
      return true, Group(g.name, configs, instrs);
    }

    method ParseExt(e: Ext) returns (ok: bool, out: Ext)
      ensures ok == ValidExt(e)
      ensures ok ==> out == ParsedExt(e)
    {
      var groups := [];
      for y := 0 to |e.groups|
        invariant |groups| == y
        invariant forall k :: 0 <= k < y ==> ValidGroup(e.groups[k]) && groups[k] == ParsedGroup(e, e.groups[k])
      {
        var valid, g := ParseGroup(e, e.groups[y]);
        if !valid { return false, e; }
        groups := groups + [g];
      }
      return true, e.(groups := groups);
    }

    /** parse_default_config */
    method ParseDefaultConfig() returns (ok: bool)
      modifies this
      ensures ok == ValidTree(old(tree))
      ensures ok ==> tree == ParsedTree(old(tree))
    {
      ghost var was := tree;
      for x := 0 to |tree|
        invariant |tree| == |was| && forall k :: x <= k < |was| ==> tree[k] == was[k]
        invariant forall k :: 0 <= k < x ==> ValidExt(was[k]) && tree[k] == ParsedExt(was[k])
      {
        var valid, e := ParseExt(tree[x]);
        if !valid { return false; }
        tree := tree[x := e];
      }
      return true;
    }

    /** The loops that find what a group's instructions inherit. */
    method Inherit(before: Layer, now: Layer) returns (inherit: Layer)
      ensures inherit == Inherited(before, now)
    {
      var keys := now.Keys;
      inherit := map[];
      while keys != {}
        invariant keys <= now.Keys
        invariant inherit == map k | k in now && k !in keys && !(k in before && Same(now[k], before[k])) :: now[k]
        decreases |keys|
      {
        var k :| k in keys;
        if k !in before || !Same(now[k], before[k]) { inherit := inherit[k := now[k]]; }
        keys := keys - {k};
      }
    }

    /** The group part of override. */
    method OverrideGroup(user: User, ext: string, g: Group) returns (ok: bool, out: Group)
      ensures ok == ValidGroup(g)
      ensures ok ==> out == OverriddenGroup(user, ext, g)
    {
      out := g;
      if g.name !in groupNames { return false, g; }
      var configs := g.configs;
      if ext in user { configs := configs + UserLayer(user, ext); }
      if g.name in user { configs := configs + UserLayer(user, g.name); }
      assert configs == NewLayer(user, ext, g);
      var inherit := Inherit(g.configs, configs);
      var instrs := [];
      for n := 0 to |g.instrs|
        invariant |instrs| == n
        invariant forall k :: 0 <= k < n ==>
                    ValidInstr(g.instrs[k].name) && instrs[k] == OverriddenInstr(user, inherit, g.instrs[k])
      {
        var i := g.instrs[n];
        var valid := ValidateInstructionName(i.name);
        if !valid { return false, g; }
        var replacements := if i.name in user then inherit + UserLayer(user, i.name) else inherit;
        assert replacements == inherit + UserLayer(user, i.name);
        instrs := instrs + [i.(configs := i.configs + replacements)];
      }
      return true, Group(g.name, configs, instrs);
    }

    method OverrideExt(user: User, e: Ext) returns (ok: bool, out: Ext)
      ensures ok == ValidExt(e)
      ensures ok ==> out == OverriddenExt(user, e)
    {
      var groups := [];
      for y := 0 to |e.groups|
        invariant |groups| == y
        invariant forall k :: 0 <= k < y ==>
                    ValidGroup(e.groups[k]) && groups[k] == OverriddenGroup(user, e.name, e.groups[k])
      {
        var valid, g := OverrideGroup(user, e.name, e.groups[y]);
        if !valid { return false, e; }
        groups := groups + [g];
      }
      var configs := e.configs;
      if e.name in user { configs := configs + UserLayer(user, e.name); }
      assert configs == e.configs + UserLayer(user, e.name);
      return true, Ext(e.name, configs, groups);
    }

    /** override */
    method Override(user: User) returns (ok: bool)
      modifies this
      ensures ok == ValidTree(old(tree))
      ensures ok ==> tree == OverriddenTree(user, old(tree))
    {
      ghost var was := tree;
      for x := 0 to |tree|
        invariant |tree| == |was| && forall k :: x <= k < |was| ==> tree[k] == was[k]
        invariant forall k :: 0 <= k < x ==> ValidExt(was[k]) && tree[k] == OverriddenExt(user, was[k])
      {
        var valid, e := OverrideExt(user, tree[x]);
        if !valid { return false; }
        tree := tree[x := e];
      }
      return true;
    }

    /** extract_instr_configs */
    method ExtractInstrConfigs() returns (configs: map<string, Layer>)
      ensures configs == Extracted(AllInstrs(AllGroups(tree)))
    {
      var groups := Groups();
      configs := map[];
      for y := 0 to |groups|
        invariant configs == Extracted(AllInstrs(groups[..y]))
      {
        configs := ExtractGroup(configs, groups[y], AllInstrs(groups[..y]));
        assert groups[..y + 1][..y] == groups[..y];
      }
      assert groups[..|groups|] == groups;
    }

    /** Its inner loop. */
    method ExtractGroup(start: map<string, Layer>, g: Group, ghost before: seq<Instr>)
      returns (configs: map<string, Layer>)
      requires start == Extracted(before)
      ensures configs == Extracted(before + g.instrs)
    {
      configs := start;
      assert before + g.instrs[..0] == before;
      for z := 0 to |g.instrs|
        invariant configs == Extracted(before + g.instrs[..z])
      {
        configs := configs[g.instrs[z].name := g.instrs[z].configs];
        assert (before + g.instrs[..z + 1])[..|before| + z] == before + g.instrs[..z];
      }
      assert g.instrs[..|g.instrs|] == g.instrs;
    }

    /** The groups of all extensions, in order. */
    method Groups() returns (groups: seq<Group>)
      ensures groups == AllGroups(tree)
    {
      groups := [];
      for x := 0 to |tree|
        invariant groups == AllGroups(tree[..x])
      {
        groups := groups + tree[x].groups;
        assert tree[..x + 1][..x] == tree[..x];
      }
      assert tree[..|tree|] == tree;
    }

    /** validate_default_config_groups_contents_disjoint */
    method ValidateDefaultConfigGroupsContentsDisjoint() returns (ok: bool)
      ensures ok == PairwiseDisjoint(AllGroups(tree))
    {
      var groups := Groups();
      for i := 0 to |groups|
        invariant forall k, l :: 0 <= k < i && k < l < |groups| ==> Disjoint(groups[k], groups[l])
      {
        for j := i + 1 to |groups|
          invariant forall l :: i < l < j ==> Disjoint(groups[i], groups[l])
        {
          for n := 0 to |groups[i].instrs|
            invariant forall k :: 0 <= k < n ==> !Shares(groups[j], groups[i].instrs[k].name)
          {
            if Shares(groups[j], groups[i].instrs[n].name) {
              assert !Disjoint(groups[i], groups[j]);
              return false;
            }
          }
        }
      }
      return true;
    }

    /** Every list of the group names is free of duplicates and no two share a name. */
    ghost predicate NamesDisjoint() {
      && (forall g :: g in groupNames ==> NoDuplicates(groupNames[g]))
      && forall g, h :: g in groupNames && h in groupNames && g != h ==> NoneShared(groupNames[g], groupNames[h])
    }

    /** validate_groups_contents_disjoint */
    method ValidateGroupsContentsDisjoint() returns (ok: bool)
      ensures ok == NamesDisjoint()
    {
      var left, keys := groupNames.Keys, [];
      while left != {}
        invariant left <= groupNames.Keys
        invariant forall g :: g in groupNames <==> g in left || g in keys
        invariant forall i, j :: 0 <= i < j < |keys| ==> keys[i] != keys[j]
        invariant forall g :: g in keys ==> g !in left && NoDuplicates(groupNames[g])
        decreases |left|
      {
        var g :| g in left;
        var names := set n | n in groupNames[g];
        SetSizeIff(groupNames[g]);
        if |names| != |groupNames[g]| { return false; }
        keys := keys + [g];
        left := left - {g};
      }
      ok := ListsDisjoint(keys);
      if !ok { return; }
      forall g, h | g in groupNames && h in groupNames && g != h ensures NoneShared(groupNames[g], groupNames[h]) {
        var i :| 0 <= i < |keys| && keys[i] == g;
        var j :| 0 <= j < |keys| && keys[j] == h;
      }
    }

    /** Its second loop, over the pairs of lists. */
    method ListsDisjoint(keys: seq<string>) returns (ok: bool)
      requires forall g :: g in keys ==> g in groupNames
      requires forall i, j :: 0 <= i < j < |keys| ==> keys[i] != keys[j]
      ensures ok <==> forall i, j :: 0 <= i < |keys| && 0 <= j < |keys| && i != j ==>
                                       NoneShared(groupNames[keys[i]], groupNames[keys[j]])
    {
      for i := 0 to |keys|
        invariant forall k, l :: 0 <= k < i && k < l < |keys| ==> NoneShared(groupNames[keys[k]], groupNames[keys[l]])
      {
        for j := i + 1 to |keys|
          invariant forall l :: i < l < j ==> NoneShared(groupNames[keys[i]], groupNames[keys[l]])
        {
          var first := set n | n in groupNames[keys[i]];
          var second := set n | n in groupNames[keys[j]];
          DisjointSets(groupNames[keys[i]], groupNames[keys[j]], first, second);
          if !(first !! second) { return false; }
        }
      }
      return true;
    }

    /** The constructor's order: parse, override, extract, and only then check. None is an AssertionError. */
    method Configure(user: Option<User>) returns (r: Option<map<string, Layer>>)
      requires DictKeys(AllGroups(tree))
      modifies this
      ensures r.Some? <==> ValidTree(old(tree)) && NamesDisjoint() && PairwiseDisjoint(AllGroups(old(tree)))
      ensures r.Some? ==> Refines(r.value, old(tree), if user.Some? then user.value else map[])
      ensures r.Some? ==> LayersFollow(tree, old(tree), if user.Some? then user.value else map[])
    {
      ghost var was := tree;
      ghost var given := if user.Some? then user.value else map[];
      var ok := ParseDefaultConfig();
      if !ok { return None; }
      EmptyUserChangesNothing(ParsedTree(was));
      if user.Some? {
        ok := Override(user.value);
        ParsedIsValid(was);
      }
      assert tree == OverriddenTree(given, ParsedTree(was));
      NamesKept(given, was);
      SameSharing(AllGroups(was), AllGroups(tree));
      SameSharing(AllGroups(tree), AllGroups(was));
      var configs := ExtractInstrConfigs();
      ok := ValidateGroupsContentsDisjoint();
      if !ok { return None; }
      ok := ValidateDefaultConfigGroupsContentsDisjoint();
      if !ok { return None; }
      ExtractionRefines(given, was);
      OverriddenLayers(given, was);
      return Some(configs);
    }
  }
}
