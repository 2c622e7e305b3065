/** Trigger directives, parsed in one pass over the file and expanded in another
    (riescue/dtest_framework/parser.py:65-141 and 1074-1168,
    riescue/dtest_framework/generator/assembly_writer.py:228-395; the trigger registers are those of section 5.7
    of the RISC-V Debug Specification 1.0). */
module Triggers {
  import opened Wrappers

  datatype TriggerType = Mcontrol6 | Icount | Itrigger | Etrigger

  /** icount does not use tdata2. */
  predicate NeedsTdata2(t: TriggerType) { t != Icount }

  /** What the argument text of a directive gives: no match of its pattern, a value that int() or an enumeration
      refuses, or the values. tdata1 and tdata2 stand for the words built from the other arguments. */
  datatype Args =
    | NoMatch
    | BadValue
    | Config(index: int, kind: TriggerType, addr: string, tdata1: nat, tdata2: int)
    | Index(index: int)

  datatype Kind = ConfigLine | DisableLine | EnableLine

  /** A line of the file, as far as the two passes look at it. */
  datatype Content = Trigger(kind: Kind, args: Args) | PmaHint | DebugTest(wellFormed: bool) | Other

  /** directive: the line starts with ";#" unindented; section: with ".section"; paren: it holds a ")" and does not
      start with "#". */
  datatype Line = Line(content: Content, directive: bool, section: bool, paren: bool)

  /** A parsed directive; tdata1 and tdata2 are used for configurations only. */
  datatype Record = Record(index: int, kind: TriggerType, tdata1: nat, tdata2: int, id: nat)

  datatype Error = ValueError

  // ---------------------------------------------------------------------------------------------
  // Pass 1: the parser

  /** An mcontrol6 configuration without an address is dropped with a warning. */
  predicate Accepted(kind: Kind, args: Args) {
    match kind
    case ConfigLine => args.Config? && (args.kind == Mcontrol6 ==> args.addr != "")
    case _ => args.Index?
  }

  function RecordOf(args: Args, id: nat): Record
    requires args.Config? || args.Index?
  {
    if args.Config? then Record(args.index, args.kind, args.tdata1, args.tdata2, id)
    else Record(args.index, Mcontrol6, 0, 0, id)
  }

  datatype Parsed = Failed | Parsed(collecting: bool, seen: bool, records: map<Kind, seq<Record>>, nextId: nat)

  const NO_RECORDS: map<Kind, seq<Record>> := map[ConfigLine := [], DisableLine := [], EnableLine := []]

  predicate AllKinds(records: map<Kind, seq<Record>>) {
    ConfigLine in records && DisableLine in records && EnableLine in records
  }

  /** A line of a debug test body, which the parser only stores. */
  predicate Swallows(p: Parsed, line: Line) { p.Parsed? && p.collecting && !(line.directive || line.section) }

  function ParseLine(p: Parsed, line: Line): Parsed
    requires p.Parsed? ==> AllKinds(p.records)
  {
    if p == Failed || Swallows(p, line) then p
    else
      var q := p.(collecting := false);
      match line.content
      case DebugTest(ok) => if p.seen || !ok then Failed else q.(collecting := true, seen := true)
      case Trigger(kind, args) =>
        if args.BadValue? then Failed
        else if Accepted(kind, args) then
          q.(records := p.records[kind := p.records[kind] + [RecordOf(args, p.nextId)]], nextId := p.nextId + 1)
        else q
      case _ => q
  }

  /** The parser after the first n lines. */
  function ParseTo(lines: seq<Line>, n: nat): (p: Parsed)
    requires n <= |lines|
    ensures p.Parsed? ==> AllKinds(p.records)
  {
    if n == 0 then Parsed(false, false, NO_RECORDS, 1) else ParseLine(ParseTo(lines, n - 1), lines[n - 1])
  }

  /** The loop over the lines in Parser.parse. */
  method Parse(lines: seq<Line>) returns (p: Parsed)
    ensures p == ParseTo(lines, |lines|)
  {
    var collecting, seen, nextId := false, false, 1;
    var configs, disables, enables := [], [], [];
    for i := 0 to |lines|
      invariant ParseTo(lines, i) ==
                Parsed(collecting, seen, map[ConfigLine := configs, DisableLine := disables, EnableLine := enables],
                       nextId)
    {
      ghost var before := ParseTo(lines, i);
      assert ParseTo(lines, i + 1) == ParseLine(before, lines[i]);
      var line := lines[i];
      if collecting {
        if line.directive || line.section { collecting := false; } else { continue; }
      }
      match line.content
      case DebugTest(ok) =>
        if seen || !ok {
          FailedStays(lines, i + 1, |lines|);
          return Failed;
        }
        collecting, seen := true, true;
      case Trigger(kind, args) =>
        if args == BadValue {
          FailedStays(lines, i + 1, |lines|);
          return Failed;
        }
        if Accepted(kind, args) {
          var record := RecordOf(args, nextId);
          nextId := nextId + 1;
          match kind
          case ConfigLine => configs := configs + [record];
          case DisableLine => disables := disables + [record];
          case EnableLine => enables := enables + [record];
        }
      case _ =>
    }
    p := Parsed(collecting, seen, map[ConfigLine := configs, DisableLine := disables, EnableLine := enables], nextId);
  }

  lemma {:induction false} FailedStays(lines: seq<Line>, n: nat, m: nat)
    requires n <= m <= |lines| && ParseTo(lines, n) == Failed
    ensures ParseTo(lines, m) == Failed
  {
    if n < m { FailedStays(lines, n, m - 1); }
  }

  /** What the two skipping rules mean, without the parser's and the writer's flags. A line is in a debug body if a
      debug test line precedes it with neither a directive nor a section line between or on it. */
  ghost predicate InDebugBody(lines: seq<Line>, p: nat)
    requires p < |lines|
  {
    exists q :: 0 <= q < p && lines[q].content.DebugTest? && NoEnd(lines, q, p + 1)
  }

  /** No line after q and before n ends a debug body. */
  ghost predicate NoEnd(lines: seq<Line>, q: nat, n: nat)
    requires n <= |lines|
  {
    forall r :: q < r < n ==> !Ends(lines[r])
  }

  predicate Ends(line: Line) { line.directive || line.section }

  lemma {:induction false} CollectingIff(lines: seq<Line>, n: nat)
    requires n <= |lines| && ParseTo(lines, n).Parsed?
    ensures ParseTo(lines, n).collecting <==>
              exists q :: 0 <= q < n && lines[q].content.DebugTest? && NoEnd(lines, q, n)
  {
    if n > 0 {
      CollectingIff(lines, n - 1);
      forall q | 0 <= q < n - 1 ensures NoEnd(lines, q, n) <==> NoEnd(lines, q, n - 1) && !Ends(lines[n - 1]) {
        NoEndSnoc(lines, q, n - 1);
      }
    }
  }

  lemma NoEndSnoc(lines: seq<Line>, q: nat, p: nat)
    requires q < p < |lines|
    ensures NoEnd(lines, q, p + 1) <==> NoEnd(lines, q, p) && !Ends(lines[p])
  {}

  lemma SwallowsIff(lines: seq<Line>, p: nat)
    requires p < |lines| && ParseTo(lines, p).Parsed?
    ensures Swallows(ParseTo(lines, p), lines[p]) <==> InDebugBody(lines, p)
  {
    CollectingIff(lines, p);
    forall q | 0 <= q < p ensures NoEnd(lines, q, p + 1) <==> NoEnd(lines, q, p) && !Ends(lines[p]) {
      NoEndSnoc(lines, q, p);
    }
  }

  /** A line outside debug bodies that the parser refuses: a trigger with a bad value, a malformed debug test line, or
      a second debug test. */
  ghost predicate Refused(lines: seq<Line>, p: nat)
    requires p < |lines|
  {
    var content := lines[p].content;
    && !InDebugBody(lines, p)
    && ((content.Trigger? && content.args.BadValue?)
        || (content.DebugTest? && (!content.wellFormed || exists q :: 0 <= q < p && lines[q].content.DebugTest?)))
  }

  lemma {:induction false} SeenIff(lines: seq<Line>, n: nat)
    requires n <= |lines| && ParseTo(lines, n).Parsed?
    ensures ParseTo(lines, n).seen <==> exists q :: 0 <= q < n && lines[q].content.DebugTest?
  {
    if n > 0 {
      SeenIff(lines, n - 1);
      SwallowsIff(lines, n - 1);
    }
  }

  /** Parsing fails exactly at such a line. */
  lemma {:induction false} FailsIff(lines: seq<Line>, n: nat)
    requires n <= |lines|
    ensures ParseTo(lines, n) == Failed <==> exists p :: 0 <= p < n && Refused(lines, p)
  {
    if n > 0 {
      FailsIff(lines, n - 1);
      if ParseTo(lines, n - 1).Parsed? {
        SeenIff(lines, n - 1);
        SwallowsIff(lines, n - 1);
        assert ParseTo(lines, n) == Failed <==> Refused(lines, n - 1);
      }
    }
  }

  // ---------------------------------------------------------------------------------------------
  // Pass 2: the writer

  /** Whether the writer is skipping, after the first n lines, the rest of a PMA hint. */
  function InHint(lines: seq<Line>, n: nat): bool
    requires n <= |lines|
  {
    if n == 0 then false
    else if lines[n - 1].content.PmaHint? then true
    else InHint(lines, n - 1) && !lines[n - 1].paren
  }

  /** The writer expands a trigger line it does not skip. */
  predicate Reached(lines: seq<Line>, p: nat, kind: Kind)
    requires p < |lines|
  {
    lines[p].content.Trigger? && lines[p].content.kind == kind && !InHint(lines, p)
  }

  /** The writer's index for a kind after the first n lines. */
  function IndexAt(lines: seq<Line>, n: nat, kind: Kind): nat
    requires n <= |lines|
  {
    if n == 0 then 0 else IndexAt(lines, n - 1, kind) + if Reached(lines, n - 1, kind) then 1 else 0
  }

  /** A line is skipped with a hint if a hint line precedes it with no closing line between. */
  lemma {:induction false} InHintIff(lines: seq<Line>, n: nat)
    requires n <= |lines|
    ensures InHint(lines, n) <==>
              exists q :: 0 <= q < n && lines[q].content.PmaHint? && forall r :: q < r < n ==>
                !lines[r].paren || lines[r].content.PmaHint?
  {
    if n > 0 { InHintIff(lines, n - 1); }
  }

  // ---------------------------------------------------------------------------------------------
  // The emitted CSR writes

  datatype Write = Tselect(index: int) | Tdata1(value: nat) | Tdata2(address: int)

  function ConfigCode(c: Record): seq<Write> {
    [Tselect(c.index), Tdata1(0)] + (if NeedsTdata2(c.kind) then [Tdata2(c.tdata2)] else []) + [Tdata1(c.tdata1)]
  }

  function DisableCode(r: Record): seq<Write> { [Tselect(r.index), Tdata1(0)] }

  /** The configuration an enable restores: the last one in the file with its index. */
  function LastConfig(configs: seq<Record>, index: int): (c: Option<Record>)
    ensures c.Some? ==> c.value in configs && c.value.index == index
    ensures c == None ==> forall d :: d in configs ==> d.index != index
  {
    if configs == [] then None
    else if configs[|configs| - 1].index == index then Some(configs[|configs| - 1])
    else LastConfig(configs[..|configs| - 1], index)
  }

  function EnableCode(r: Record, configs: seq<Record>): seq<Write> {
    var c := LastConfig(configs, r.index);
    if c.Some? then [Tselect(r.index), Tdata1(c.value.tdata1)] else []
  }

  /** The record the writer uses for line p. */
  function Used(lines: seq<Line>, records: map<Kind, seq<Record>>, p: nat, kind: Kind): Option<Record>
    requires p < |lines| && AllKinds(records)
  {
    var k := IndexAt(lines, p, kind);
    if Reached(lines, p, kind) && k < |records[kind]| then Some(records[kind][k]) else None
  }

  /** The writes emitted at line p. forced: other directives already made the forced accesses that disabling and
      enabling look up. */
  function CodeAt(lines: seq<Line>, records: map<Kind, seq<Record>>, supported: bool, forced: bool, p: nat): seq<Write>
    requires p < |lines| && AllKinds(records)
  {
    if !supported || !lines[p].content.Trigger? then []
    else
      var kind := lines[p].content.kind;
      var used, found := Used(lines, records, p, kind), forced || records[ConfigLine] != [];
      if used == None then []
      else match kind
        case ConfigLine => ConfigCode(used.value)
        case DisableLine => if found then DisableCode(used.value) else []
        case EnableLine => if found then EnableCode(used.value, records[ConfigLine]) else []
  }

  /** The trigger part of find_and_replace_assembly: the writes emitted for each line. */
  method Expand(lines: seq<Line>, records: map<Kind, seq<Record>>, supported: bool, forced: bool)
    returns (code: seq<seq<Write>>)
    requires AllKinds(records)
    ensures |code| == |lines| && forall p :: 0 <= p < |lines| ==>
              code[p] == CodeAt(lines, records, supported, forced, p)
  {
    code := [];
    var inHint, configIdx, disableIdx, enableIdx := false, 0, 0, 0;
    var configs, disables, enables := records[ConfigLine], records[DisableLine], records[EnableLine];
    for i := 0 to |lines|
      invariant inHint == InHint(lines, i) && |code| == i
      invariant configIdx == IndexAt(lines, i, ConfigLine)
      invariant disableIdx == IndexAt(lines, i, DisableLine) && enableIdx == IndexAt(lines, i, EnableLine)
      invariant forall p :: 0 <= p < i ==> code[p] == CodeAt(lines, records, supported, forced, p)
    {
      var writes := [];
      if lines[i].content.PmaHint? {
        inHint := true;
      } else if inHint {
        if lines[i].paren { inHint := false; }
      } else if lines[i].content.Trigger? {
        match lines[i].content.kind
        case ConfigLine =>
          if configIdx < |configs| && supported { writes := ConfigCode(configs[configIdx]); }
          configIdx := configIdx + 1;
        case DisableLine =>
          if disableIdx < |disables| && supported {
            if forced || configs != [] { writes := DisableCode(disables[disableIdx]); }
          }
          disableIdx := disableIdx + 1;
        case EnableLine =>
          if enableIdx < |enables| && supported {
            if forced || configs != [] { writes := EnableCode(enables[enableIdx], configs); }
          }
          enableIdx := enableIdx + 1;
      }
      assert writes == CodeAt(lines, records, supported, forced, i);
      code := code + [writes];
    }
  }

  // ---------------------------------------------------------------------------------------------
  // When the two passes agree

  /** The parser's own record for line p. */
  function RecordAt(lines: seq<Line>, p: nat, kind: Kind): Option<Record>
    requires p < |lines|
  {
    var before, content := ParseTo(lines, p), lines[p].content;
    if before.Parsed? && !Swallows(before, lines[p]) && content.Trigger? && content.kind == kind &&
      Accepted(kind, content.args)
    then Some(RecordOf(content.args, before.nextId)) else None
  }

  ghost predicate Increasing(records: seq<Record>, next: nat) {
    && (forall i :: 0 <= i < |records| ==> records[i].id < next)
    && (forall i, j :: 0 <= i < j < |records| ==> records[i].id < records[j].id)
  }

  lemma {:induction false} IdsIncrease(lines: seq<Line>, n: nat, kind: Kind)
    requires n <= |lines| && ParseTo(lines, n).Parsed?
    ensures Increasing(ParseTo(lines, n).records[kind], ParseTo(lines, n).nextId)
  {
    if n > 0 { IdsIncrease(lines, n - 1, kind); }
  }

  lemma {:induction false} RecordsGrow(lines: seq<Line>, n: nat, m: nat, kind: Kind)
    requires n <= m <= |lines| && ParseTo(lines, m).Parsed?
    ensures ParseTo(lines, n).Parsed? && ParseTo(lines, n).records[kind] <= ParseTo(lines, m).records[kind]
  {
    if n < m { RecordsGrow(lines, n, m - 1, kind); }
  }

  /** The writer expands line p from the parser's own record for it exactly when it does not skip the line, the
      parser accepted it, and as many lines of its kind were reached by the writer before it as were recorded by
      the parser. */
  lemma OwnRecordIff(lines: seq<Line>, p: nat, kind: Kind)
    requires p < |lines| && ParseTo(lines, |lines|).Parsed?
    ensures var own := RecordAt(lines, p, kind);
            (own.Some? && Used(lines, ParseTo(lines, |lines|).records, p, kind) == own) <==>
            (own.Some? && Reached(lines, p, kind) && IndexAt(lines, p, kind) == |ParseTo(lines, p).records[kind]|)
  {
    RecordsGrow(lines, p, |lines|, kind);
    RecordsGrow(lines, p + 1, |lines|, kind);
    IdsIncrease(lines, |lines|, kind);
    var own := RecordAt(lines, p, kind);
    if own.Some? {
      var all, k := ParseTo(lines, |lines|).records[kind], |ParseTo(lines, p).records[kind]|;
      assert ParseTo(lines, p + 1) == ParseLine(ParseTo(lines, p), lines[p]);
      assert ParseTo(lines, p + 1).records[kind][k] == own.value;
      assert all[k] == own.value;
    }
  }

  /** Every trigger directive is accepted and outside debug bodies, and there are no PMA hints. */
  ghost predicate Clean(lines: seq<Line>) {
    forall p :: 0 <= p < |lines| ==>
      && !lines[p].content.PmaHint?
      && (lines[p].content.Trigger? ==>
          Accepted(lines[p].content.kind, lines[p].content.args) && !InDebugBody(lines, p))
  }

  lemma {:induction false} CleanIndex(lines: seq<Line>, n: nat, kind: Kind)
    requires n <= |lines| && Clean(lines) && ParseTo(lines, n).Parsed?
    ensures !InHint(lines, n) && IndexAt(lines, n, kind) == |ParseTo(lines, n).records[kind]|
  {
    if n > 0 {
      CleanIndex(lines, n - 1, kind);
      SwallowsIff(lines, n - 1);
    }
  }

  /** In such a file every trigger directive is expanded from its own record. */
  lemma CleanUsesOwn(lines: seq<Line>, p: nat)
    requires p < |lines| && Clean(lines) && ParseTo(lines, |lines|).Parsed? && lines[p].content.Trigger?
    ensures var kind := lines[p].content.kind;
            && RecordAt(lines, p, kind).Some?
            && Used(lines, ParseTo(lines, |lines|).records, p, kind) == RecordAt(lines, p, kind)
  {
    var kind := lines[p].content.kind;
    RecordsGrow(lines, p, |lines|, kind);
    CleanIndex(lines, p, kind);
    SwallowsIff(lines, p);
    OwnRecordIff(lines, p, kind);
  }

  /** A rejected configuration still advances the writer: the first directive below is expanded as the second, and
      the second not at all. */
  lemma RejectedConfigShifts(tdata1: nat, tdata2: int)
    ensures var first := Line(Trigger(ConfigLine, Config(0, Mcontrol6, "", tdata1, tdata2)), true, false, true);
            var second := Line(Trigger(ConfigLine, Config(1, Mcontrol6, "0x1000", tdata1, tdata2)), true, false, true);
            var lines := [first, second];
            var p := ParseTo(lines, 2);
            && p.Parsed?
            && RecordAt(lines, 0, ConfigLine) == None
            && Used(lines, p.records, 0, ConfigLine) == RecordAt(lines, 1, ConfigLine)
            && Used(lines, p.records, 1, ConfigLine) == None
  {
    var first := Line(Trigger(ConfigLine, Config(0, Mcontrol6, "", tdata1, tdata2)), true, false, true);
    var second := Line(Trigger(ConfigLine, Config(1, Mcontrol6, "0x1000", tdata1, tdata2)), true, false, true);
    var lines := [first, second];
    assert ParseTo(lines, 1) == ParseLine(ParseTo(lines, 0), first) == ParseTo(lines, 0);
    assert ParseTo(lines, 2) == ParseLine(ParseTo(lines, 1), second);
    assert IndexAt(lines, 1, ConfigLine) == 1;
  }

  /** A hint on one line makes the writer skip the lines after it, up to and with the first that holds ")": here a
      directive that the parser accepted. */
  lemma HintSkipsDirective(args: Args)
    requires args.Config? && args.addr != ""
    ensures var hint := Line(PmaHint, true, false, true);
            var config := Line(Trigger(ConfigLine, args), true, false, true);
            var lines := [hint, config];
            var p := ParseTo(lines, 2);
            && p.Parsed?
            && RecordAt(lines, 1, ConfigLine).Some?
            && forall supported, forced :: CodeAt(lines, p.records, supported, forced, 1) == []
  {
    var hint := Line(PmaHint, true, false, true);
    var config := Line(Trigger(ConfigLine, args), true, false, true);
    var lines := [hint, config];
    assert ParseTo(lines, 1) == ParseLine(ParseTo(lines, 0), hint) == ParseTo(lines, 0);
    assert ParseTo(lines, 2) == ParseLine(ParseTo(lines, 1), config);
    assert InHint(lines, 1);
  }

  // ---------------------------------------------------------------------------------------------
  // Runs of the emitted code

  /** The trigger registers of one hart; registers not written hold zero. */
  datatype Hart = Hart(selected: int, tdata1: map<int, nat>, tdata2: map<int, int>)

  function T1(h: Hart, i: int): nat { if i in h.tdata1 then h.tdata1[i] else 0 }

  function T2(h: Hart, i: int): int { if i in h.tdata2 then h.tdata2[i] else 0 }

  function Apply(h: Hart, w: Write): Hart {
    match w
    case Tselect(i) => h.(selected := i)
    case Tdata1(v) => h.(tdata1 := h.tdata1[h.selected := v])
    case Tdata2(v) => h.(tdata2 := h.tdata2[h.selected := v])
  }

  function ApplyAll(h: Hart, writes: seq<Write>): Hart {
    if writes == [] then h else Apply(ApplyAll(h, writes[..|writes| - 1]), writes[|writes| - 1])
  }

  lemma ApplySnoc(h: Hart, writes: seq<Write>, w: Write)
    ensures ApplyAll(h, writes + [w]) == Apply(ApplyAll(h, writes), w)
  {
    assert (writes + [w])[..|writes|] == writes;
  }

  /** Selecting trigger k and writing its tdata1 changes that register alone. */
  lemma WriteRegisters(h: Hart, k: int, v: nat, i: int)
    ensures var h' := ApplyAll(h, [Tselect(k), Tdata1(v)]);
            && T1(h', i) == (if i == k then v else T1(h, i)) && T2(h', i) == T2(h, i) && h'.selected == k
  {
    ApplySnoc(h, [], Tselect(k));
    ApplySnoc(h, [Tselect(k)], Tdata1(v));
    assert [] + [Tselect(k)] == [Tselect(k)] && [Tselect(k)] + [Tdata1(v)] == [Tselect(k), Tdata1(v)];
  }

  /** The code of a configuration leaves its tdata1, its tdata2 where used, and every other trigger alone. */
  lemma ConfigRegisters(h: Hart, c: Record, i: int)
    ensures var h' := ApplyAll(h, ConfigCode(c));
            && T1(h', i) == (if i == c.index then c.tdata1 else T1(h, i))
            && T2(h', i) == (if i == c.index && c.kind != Icount then c.tdata2 else T2(h, i))
  {
    var off := [Tselect(c.index), Tdata1(0)];
    WriteRegisters(h, c.index, 0, i);
    if c.kind != Icount {
      ApplySnoc(h, off, Tdata2(c.tdata2));
      ApplySnoc(h, off + [Tdata2(c.tdata2)], Tdata1(c.tdata1));
    } else {
      ApplySnoc(h, off, Tdata1(c.tdata1));
      assert off + [] == off;
    }
  }

  /** Some configuration of index i has this tdata1, and this tdata2 if it uses tdata2. */
  ghost predicate Fits(configs: seq<Record>, i: int, tdata1: nat, tdata2: int) {
    exists c :: c in configs && c.index == i && c.tdata1 == tdata1 && (NeedsTdata2(c.kind) ==> c.tdata2 == tdata2)
  }

  /** Every trigger is off, or holds the tdata1 of a configuration of its index together with the tdata2 of the same
      configuration, if that one uses tdata2. */
  ghost predicate Paired(h: Hart, configs: seq<Record>) {
    forall i {:trigger T1(h, i)} :: T1(h, i) != 0 ==> Fits(configs, i, T1(h, i), T2(h, i))
  }

  /** Paired in every state between the writes. */
  ghost predicate PairedThroughout(h: Hart, writes: seq<Write>, configs: seq<Record>) {
    forall n :: 0 <= n <= |writes| ==> Paired(ApplyAll(h, writes[..n]), configs)
  }

  /** Each index is configured once. */
  ghost predicate Once(configs: seq<Record>) {
    forall i, j :: 0 <= i < |configs| && 0 <= j < |configs| && configs[i].index == configs[j].index ==> i == j
  }

  /** The tdata2 of a trigger that only d has configured, on a hart that started as h0. */
  function Left(h0: Hart, d: Record): int { if NeedsTdata2(d.kind) then d.tdata2 else T2(h0, d.index) }

  /** What holds after each write. Triggers not configured so far in the run are off, with the tdata2 they started
      with; the others hold a tdata2 that one of their configurations leaves; all are paired. */
  ghost predicate Settled(h0: Hart, h: Hart, configs: seq<Record>, configured: set<int>) {
    && (forall i {:trigger T1(h, i)} :: i !in configured ==> T1(h, i) == 0 && T2(h, i) == T2(h0, i))
    && (forall i {:trigger i in configured} :: i in configured ==>
          exists d :: d in configs && d.index == i && T2(h, i) == Left(h0, d))
    && Paired(h, configs)
  }

  /** Enabling index i always fits: the configuration restored is off, or fits whichever configuration ran. */
  ghost predicate EnableFits(h0: Hart, configs: seq<Record>, i: int) {
    var last := LastConfig(configs, i);
    last.Some? && last.value.tdata1 != 0 ==>
      forall d :: d in configs && d.index == i ==> Fits(configs, i, last.value.tdata1, Left(h0, d))
  }

  lemma ThroughoutSnoc(h: Hart, writes: seq<Write>, w: Write, configs: seq<Record>)
    requires PairedThroughout(h, writes, configs)
    requires Paired(Apply(ApplyAll(h, writes), w), configs)
    ensures PairedThroughout(h, writes + [w], configs)
    ensures ApplyAll(h, writes + [w]) == Apply(ApplyAll(h, writes), w)
  {
    var all := writes + [w];
    assert all[..|writes|] == writes && all[..|all|] == all;
    forall n | 0 <= n <= |all| ensures Paired(ApplyAll(h, all[..n]), configs) {
      if n <= |writes| { assert all[..n] == writes[..n]; }
    }
  }

  /** What one write does to every trigger. */
  lemma Effect(h: Hart, w: Write)
    ensures forall j {:trigger T1(Apply(h, w), j)} ::
              T1(Apply(h, w), j) == if w.Tdata1? && j == h.selected then w.value else T1(h, j)
    ensures forall j {:trigger T2(Apply(h, w), j)} ::
              T2(Apply(h, w), j) == if w.Tdata2? && j == h.selected then w.address else T2(h, j)
    ensures Apply(h, w).selected == if w.Tselect? then w.index else h.selected
  {
    forall j
      ensures T1(Apply(h, w), j) == if w.Tdata1? && j == h.selected then w.value else T1(h, j)
      ensures T2(Apply(h, w), j) == if w.Tdata2? && j == h.selected then w.address else T2(h, j)
    {
    }
  }

  lemma SamePaired(h: Hart, h': Hart, configs: seq<Record>)
    requires Paired(h, configs)
    requires forall j {:trigger T1(h', j)} :: T1(h', j) == 0 || (T1(h', j) == T1(h, j) && T2(h', j) == T2(h, j))
    ensures Paired(h', configs)
  {
    forall i {:trigger T1(h', i)} | T1(h', i) != 0 ensures Fits(configs, i, T1(h', i), T2(h', i)) {
      PairedFits(h, configs, i);
    }
  }

  lemma PairedFits(h: Hart, configs: seq<Record>, i: int)
    requires Paired(h, configs) && T1(h, i) != 0
    ensures Fits(configs, i, T1(h, i), T2(h, i))
  {}

  /** Settled looks at the registers only, and allows turning triggers off. */
  lemma SameSettled(h0: Hart, h: Hart, h': Hart, configs: seq<Record>, configured: set<int>)
    requires Settled(h0, h, configs, configured)
    requires forall j {:trigger T1(h', j)} :: T1(h', j) == 0 || T1(h', j) == T1(h, j)
    requires forall j {:trigger T2(h', j)} :: T2(h', j) == T2(h, j)
    ensures Settled(h0, h', configs, configured)
  {
    forall i {:trigger i in configured} | i in configured
      ensures exists d :: d in configs && d.index == i && T2(h', i) == Left(h0, d)
    {
      assert T2(h', i) == T2(h, i);
    }
    forall j {:trigger T1(h', j)} ensures T1(h', j) == 0 || (T1(h', j) == T1(h, j) && T2(h', j) == T2(h, j)) {
      assert T2(h', j) == T2(h, j);
    }
    SamePaired(h, h', configs);
    forall i {:trigger T1(h', i)} | i !in configured ensures T1(h', i) == 0 && T2(h', i) == T2(h0, i) {
      assert T1(h, i) == 0 && T2(h', i) == T2(h, i);
    }
  }

  /** Selecting index i and turning its trigger off. */
  lemma OffStep(h0: Hart, h: Hart, configs: seq<Record>, configured: set<int>, i: int)
    requires Settled(h0, h, configs, configured)
    ensures var off := [Tselect(i), Tdata1(0)];
            && PairedThroughout(h, off, configs)
            && Settled(h0, ApplyAll(h, off), configs, configured)
            && ApplyAll(h, off).selected == i && T1(ApplyAll(h, off), i) == 0
  {
    var h1 := Apply(h, Tselect(i));
    var h2 := Apply(h1, Tdata1(0));
    Effect(h, Tselect(i));
    Effect(h1, Tdata1(0));
    SameSettled(h0, h, h1, configs, configured);
    SameSettled(h0, h1, h2, configs, configured);
    ThroughoutSnoc(h, [], Tselect(i), configs);
    assert [] + [Tselect(i)] == [Tselect(i)];
    ThroughoutSnoc(h, [Tselect(i)], Tdata1(0), configs);
    assert [Tselect(i)] + [Tdata1(0)] == [Tselect(i), Tdata1(0)];
  }

  /** Writing tdata2 while the trigger is off settles it as configured. */
  lemma Tdata2Step(h0: Hart, h: Hart, configs: seq<Record>, configured: set<int>, c: Record)
    requires Settled(h0, h, configs, configured) && c in configs
    requires h.selected == c.index && T1(h, c.index) == 0
    ensures var h' := if NeedsTdata2(c.kind) then Apply(h, Tdata2(c.tdata2)) else h;
            && Settled(h0, h', configs, configured + {c.index})
            && h'.selected == c.index && T1(h', c.index) == 0 && (NeedsTdata2(c.kind) ==> T2(h', c.index) == c.tdata2)
  {
    var h' := if NeedsTdata2(c.kind) then Apply(h, Tdata2(c.tdata2)) else h;
    Effect(h, Tdata2(c.tdata2));
    var now := configured + {c.index};
    forall i {:trigger i in now} | i in now
      ensures exists d :: d in configs && d.index == i && T2(h', i) == Left(h0, d)
    {
      if i == c.index && (NeedsTdata2(c.kind) || i !in configured) {
        assert i !in configured ==> T1(h, i) == 0;
        assert T2(h', i) == Left(h0, c);
      } else {
        assert i in configured && T2(h', i) == T2(h, i);
      }
    }
    forall j {:trigger T1(h', j)} ensures T1(h', j) == 0 || (T1(h', j) == T1(h, j) && T2(h', j) == T2(h, j)) {
      assert T1(h', j) == T1(h, j) && (j != c.index ==> T2(h', j) == T2(h, j));
    }
    SamePaired(h, h', configs);
    forall i {:trigger T1(h', i)} | i !in now ensures T1(h', i) == 0 && T2(h', i) == T2(h0, i) {
      assert T1(h', i) == T1(h, i) && T2(h', i) == T2(h, i);
    }
  }

  /** Writing a tdata1 that fits to a configured trigger. */
  lemma Tdata1Step(h0: Hart, h: Hart, configs: seq<Record>, configured: set<int>, v: nat)
    requires Settled(h0, h, configs, configured) && h.selected in configured
    requires v != 0 ==> Fits(configs, h.selected, v, T2(h, h.selected))
    ensures Settled(h0, Apply(h, Tdata1(v)), configs, configured)
  {
    var h' := Apply(h, Tdata1(v));
    Effect(h, Tdata1(v));
    forall i {:trigger i in configured} | i in configured
      ensures exists d :: d in configs && d.index == i && T2(h', i) == Left(h0, d)
    {
      assert T2(h', i) == T2(h, i);
    }
    forall i {:trigger T1(h', i)} | T1(h', i) != 0 ensures Fits(configs, i, T1(h', i), T2(h', i)) {
      assert T2(h', i) == T2(h, i) && (i != h.selected ==> T1(h', i) == T1(h, i));
      if i != h.selected { PairedFits(h, configs, i); }
    }
    forall i {:trigger T1(h', i)} | i !in configured ensures T1(h', i) == 0 && T2(h', i) == T2(h0, i) {
      assert T1(h', i) == T1(h, i) && T2(h', i) == T2(h, i);
    }
  }

  /** Configuring keeps everything settled whatever the other configurations are. */
  lemma ConfigStep(h0: Hart, h: Hart, configs: seq<Record>, configured: set<int>, c: Record)
    requires Settled(h0, h, configs, configured) && c in configs
    ensures PairedThroughout(h, ConfigCode(c), configs)
    ensures Settled(h0, ApplyAll(h, ConfigCode(c)), configs, configured + {c.index})
  {
    var off, now := [Tselect(c.index), Tdata1(0)], configured + {c.index};
    OffStep(h0, h, configs, configured, c.index);
    var h2 := ApplyAll(h, off);
    Tdata2Step(h0, h2, configs, configured, c);
    if NeedsTdata2(c.kind) {
      ThroughoutSnoc(h, off, Tdata2(c.tdata2), configs);
      ConfigEnd(h0, h, configs, now, c, off + [Tdata2(c.tdata2)]);
    } else {
      ConfigEnd(h0, h, configs, now, c, off);
      assert off + [] == off;
    }
  }

  lemma ConfigEnd(h0: Hart, h: Hart, configs: seq<Record>, configured: set<int>, c: Record, writes: seq<Write>)
    requires c in configs && c.index in configured && PairedThroughout(h, writes, configs)
    requires var ready := ApplyAll(h, writes);
             && Settled(h0, ready, configs, configured) && ready.selected == c.index
             && (NeedsTdata2(c.kind) ==> T2(ready, c.index) == c.tdata2)
    ensures var code := writes + [Tdata1(c.tdata1)];
            PairedThroughout(h, code, configs) && Settled(h0, ApplyAll(h, code), configs, configured)
  {
    var ready := ApplyAll(h, writes);
    assert Fits(configs, c.index, c.tdata1, T2(ready, c.index));
    Tdata1Step(h0, ready, configs, configured, c.tdata1);
    ThroughoutSnoc(h, writes, Tdata1(c.tdata1), configs);
  }

  lemma EnableStep(h0: Hart, h: Hart, configs: seq<Record>, configured: set<int>, r: Record)
    requires Settled(h0, h, configs, configured) && r.index in configured && EnableFits(h0, configs, r.index)
    ensures PairedThroughout(h, EnableCode(r, configs), configs)
    ensures Settled(h0, ApplyAll(h, EnableCode(r, configs)), configs, configured)
  {
    var i := r.index;
    var d :| d in configs && d.index == i && T2(h, i) == Left(h0, d);
    var c := LastConfig(configs, i).value;
    var h1 := Apply(h, Tselect(i));
    Effect(h, Tselect(i));
    SameSettled(h0, h, h1, configs, configured);
    ThroughoutSnoc(h, [], Tselect(i), configs);
    assert [] + [Tselect(i)] == [Tselect(i)];
    assert T2(h1, i) == T2(h, i);
    Tdata1Step(h0, h1, configs, configured, c.tdata1);
    ThroughoutSnoc(h, [Tselect(i)], Tdata1(c.tdata1), configs);
    assert [Tselect(i)] + [Tdata1(c.tdata1)] == EnableCode(r, configs);
  }

  /** The indices configured by the first n lines of a run. */
  ghost function Configured(lines: seq<Line>, run: seq<nat>, n: nat): set<int>
    requires n <= |run| && forall k :: 0 <= k < |run| ==> run[k] < |lines|
  {
    if n == 0 then {} else Grown(lines, run[n - 1], Configured(lines, run, n - 1))
  }

  /** A run is any sequence of lines of the file, in any order and any number of times, that enables a trigger only
      after configuring its index. */
  ghost predicate Run(lines: seq<Line>, run: seq<nat>) {
    && (forall k :: 0 <= k < |run| ==> run[k] < |lines|)
    && forall k :: 0 <= k < |run| && EnablesAt(lines, run[k]) ==>
      lines[run[k]].content.args.index in Configured(lines, run, k)
  }

  predicate EnablesAt(lines: seq<Line>, p: nat)
    requires p < |lines|
  {
    lines[p].content.Trigger? && lines[p].content.kind == EnableLine && lines[p].content.args.Index?
  }

  /** The hart after the code of the first n lines of a run. */
  ghost function HartAt(h: Hart, lines: seq<Line>, records: map<Kind, seq<Record>>, forced: bool, run: seq<nat>,
                        n: nat): Hart
    requires n <= |run| && AllKinds(records) && forall k :: 0 <= k < |run| ==> run[k] < |lines|
  {
    if n == 0 then h
    else ApplyAll(HartAt(h, lines, records, forced, run, n - 1), CodeAt(lines, records, true, forced, run[n - 1]))
  }

  /** A clean file, and what the parser makes of it. */
  ghost predicate Input(lines: seq<Line>, records: map<Kind, seq<Record>>) {
    Clean(lines) && ParseTo(lines, |lines|).Parsed? && records == ParseTo(lines, |lines|).records
  }

  /** The indices configured when line p has run too. */
  function Grown(lines: seq<Line>, p: nat, configured: set<int>): set<int>
    requires p < |lines|
  {
    var content := lines[p].content;
    if content.Trigger? && content.kind == ConfigLine && content.args.Config? then configured + {content.args.index}
    else configured
  }

  /** The code emitted at line p keeps the triggers settled, and paired in every state between its writes, unless it
      enables an index that need not fit. */
  lemma LineStep(h0: Hart, h: Hart, lines: seq<Line>, records: map<Kind, seq<Record>>, forced: bool, p: nat,
                 configured: set<int>)
    requires p < |lines| && Input(lines, records) && Settled(h0, h, records[ConfigLine], configured)
    requires EnablesAt(lines, p) ==>
               lines[p].content.args.index in configured &&
                 EnableFits(h0, records[ConfigLine], lines[p].content.args.index)
    ensures AllKinds(records)
    ensures var code := CodeAt(lines, records, true, forced, p);
            && PairedThroughout(h, code, records[ConfigLine])
            && Settled(h0, ApplyAll(h, code), records[ConfigLine], Grown(lines, p, configured))
  {
    var content, configs := lines[p].content, records[ConfigLine];
    if content.Trigger? {
      CleanUsesOwn(lines, p);
      var record := RecordAt(lines, p, content.kind).value;
      match content.kind
      case ConfigLine =>
        ConfigStep(h0, h, configs, configured, record);
      case DisableLine =>
        OffStep(h0, h, configs, configured, record.index);
      case EnableLine =>
        EnableStep(h0, h, configs, configured, record);
    }
  }

  // What a line leaves in the registers of a trigger, read off the file itself.

  predicate Configures(line: Line, i: int) {
    var content := line.content;
    content.Trigger? && content.kind == ConfigLine && content.args.Config? && content.args.index == i
  }

  predicate Switches(line: Line, kind: Kind, i: int) {
    var content := line.content;
    content.Trigger? && content.kind == kind && content.args.Index? && content.args.index == i
  }

  /** The tdata1 of the last of the first n lines that configures trigger i, or `was` if none does. */
  function LastTdata1(lines: seq<Line>, n: nat, i: int, was: nat): nat
    requires n <= |lines|
  {
    if n == 0 then was
    else if Configures(lines[n - 1], i) then lines[n - 1].content.args.tdata1
    else LastTdata1(lines, n - 1, i, was)
  }

  predicate IsConfig(line: Line) { line.content.Trigger? && line.content.kind == ConfigLine }

  /** Some line configures a trigger. */
  ghost predicate HasConfig(lines: seq<Line>, n: nat)
    requires n <= |lines|
  {
    exists q :: 0 <= q < n && IsConfig(lines[q])
  }

  /** tdata1 of trigger i after line p: a configuration sets its own, a disable 0, and an enable that of the last
      configuration in the file. */
  ghost function Tdata1Left(lines: seq<Line>, forced: bool, p: nat, i: int, was: nat): nat
    requires p < |lines|
  {
    if Configures(lines[p], i) then lines[p].content.args.tdata1
    else if Switches(lines[p], DisableLine, i) && (forced || HasConfig(lines, |lines|)) then 0
    else if Switches(lines[p], EnableLine, i) then LastTdata1(lines, |lines|, i, was)
    else was
  }

  /** tdata2 of trigger i after line p: only a configuration that uses it sets it. */
  function Tdata2Left(lines: seq<Line>, p: nat, i: int, was: int): int
    requires p < |lines|
  {
    if Configures(lines[p], i) && lines[p].content.args.kind != Icount then lines[p].content.args.tdata2 else was
  }

  /** In a clean file every configuration line adds its record, and no other line does. */
  lemma ConfigsGrow(lines: seq<Line>, n: nat)
    requires n < |lines| && Clean(lines) && ParseTo(lines, n + 1).Parsed?
    ensures var before, after := ParseTo(lines, n), ParseTo(lines, n + 1);
            && before.Parsed?
            && if IsConfig(lines[n]) then
                 && lines[n].content.args.Config?
                 && after.records[ConfigLine] ==
                    before.records[ConfigLine] + [RecordOf(lines[n].content.args, before.nextId)]
               else after.records[ConfigLine] == before.records[ConfigLine]
  {
    assert ParseTo(lines, n + 1) == ParseLine(ParseTo(lines, n), lines[n]);
    SwallowsIff(lines, n);
  }

  lemma LastConfigSnoc(configs: seq<Record>, c: Record, i: int)
    ensures LastConfig(configs + [c], i) == if c.index == i then Some(c) else LastConfig(configs, i)
  {
    assert (configs + [c])[..|configs|] == configs;
  }

  /** So the parser's configurations are those of the lines. */
  lemma {:induction false} LastOfLines(lines: seq<Line>, n: nat, i: int, was: nat)
    requires n <= |lines| && Clean(lines) && ParseTo(lines, n).Parsed?
    ensures var last := LastConfig(ParseTo(lines, n).records[ConfigLine], i);
            LastTdata1(lines, n, i, was) == if last.Some? then last.value.tdata1 else was
  {
    if n > 0 {
      ConfigsGrow(lines, n - 1);
      LastOfLines(lines, n - 1, i, was);
      var before := ParseTo(lines, n - 1);
      if IsConfig(lines[n - 1]) {
        LastConfigSnoc(before.records[ConfigLine], RecordOf(lines[n - 1].content.args, before.nextId), i);
      }
    }
  }

  lemma {:induction false} HasConfigIff(lines: seq<Line>, n: nat)
    requires n <= |lines| && Clean(lines) && ParseTo(lines, n).Parsed?
    ensures ParseTo(lines, n).records[ConfigLine] != [] <==> HasConfig(lines, n)
  {
    if n > 0 {
      ConfigsGrow(lines, n - 1);
      HasConfigIff(lines, n - 1);
      if IsConfig(lines[n - 1]) {
        assert HasConfig(lines, n);
      } else {
        assert HasConfig(lines, n) <==> HasConfig(lines, n - 1);
      }
    }
  }

  /** What the code of one line does to both registers of every trigger, from any state. */
  lemma LineRegisters(h: Hart, lines: seq<Line>, records: map<Kind, seq<Record>>, supported: bool, forced: bool,
                      p: nat, i: int)
    requires p < |lines| && Input(lines, records)
    ensures AllKinds(records)
    ensures var h' := ApplyAll(h, CodeAt(lines, records, supported, forced, p));
            && T1(h', i) == (if supported then Tdata1Left(lines, forced, p, i, T1(h, i)) else T1(h, i))
            && T2(h', i) == (if supported then Tdata2Left(lines, p, i, T2(h, i)) else T2(h, i))
  {
    var content, configs := lines[p].content, records[ConfigLine];
    HasConfigIff(lines, |lines|);
    LastOfLines(lines, |lines|, i, T1(h, i));
    if supported && content.Trigger? {
      CleanUsesOwn(lines, p);
      var record := RecordAt(lines, p, content.kind).value;
      match content.kind
      case ConfigLine => ConfigRegisters(h, record, i);
      case DisableLine => WriteRegisters(h, record.index, 0, i);
      case EnableLine =>
        var last := LastConfig(configs, record.index);
        if last.Some? { WriteRegisters(h, record.index, last.value.tdata1, i); }
    }
  }

  /** Both registers of trigger i after the first n lines of a run. */
  ghost function Tdata1After(h: Hart, lines: seq<Line>, forced: bool, run: seq<nat>, n: nat, i: int): nat
    requires n <= |run| && forall k :: 0 <= k < |run| ==> run[k] < |lines|
  {
    if n == 0 then T1(h, i)
    else Tdata1Left(lines, forced, run[n - 1], i, Tdata1After(h, lines, forced, run, n - 1, i))
  }

  ghost function Tdata2After(h: Hart, lines: seq<Line>, run: seq<nat>, n: nat, i: int): int
    requires n <= |run| && forall k :: 0 <= k < |run| ==> run[k] < |lines|
  {
    if n == 0 then T2(h, i) else Tdata2Left(lines, run[n - 1], i, Tdata2After(h, lines, run, n - 1, i))
  }

  /** The registers of every trigger at every point of every run of a clean file, from any state. */
  lemma {:induction false} RunRegisters(h: Hart, lines: seq<Line>, records: map<Kind, seq<Record>>, forced: bool,
                                        run: seq<nat>, n: nat, i: int)
    requires Input(lines, records) && AllKinds(records)
    requires n <= |run| && forall k :: 0 <= k < |run| ==> run[k] < |lines|
    ensures T1(HartAt(h, lines, records, forced, run, n), i) == Tdata1After(h, lines, forced, run, n, i)
    ensures T2(HartAt(h, lines, records, forced, run, n), i) == Tdata2After(h, lines, run, n, i)
  {
    if n > 0 {
      RunRegisters(h, lines, records, forced, run, n - 1, i);
      LineRegisters(HartAt(h, lines, records, forced, run, n - 1), lines, records, true, forced, run[n - 1], i);
    }
  }

  ghost predicate AllOff(h: Hart) { forall i {:trigger T1(h, i)} :: T1(h, i) == 0 }

  /** Every index the file enables fits. This looks at the file and at the tdata2 the hart starts with. */
  ghost predicate EnablesFit(h: Hart, lines: seq<Line>, configs: seq<Record>) {
    forall p :: 0 <= p < |lines| && EnablesAt(lines, p) ==> EnableFits(h, configs, lines[p].content.args.index)
  }

  lemma {:induction false} RunSettled(h: Hart, lines: seq<Line>, records: map<Kind, seq<Record>>, forced: bool,
                                      run: seq<nat>, n: nat)
    requires Input(lines, records) && AllKinds(records) && Run(lines, run) && n <= |run|
    requires AllOff(h) && EnablesFit(h, lines, records[ConfigLine])
    ensures Settled(h, HartAt(h, lines, records, forced, run, n), records[ConfigLine], Configured(lines, run, n))
  {
    if n > 0 {
      RunSettled(h, lines, records, forced, run, n - 1);
      var before := HartAt(h, lines, records, forced, run, n - 1);
      LineStep(h, before, lines, records, forced, run[n - 1], Configured(lines, run, n - 1));
    }
  }

  /** The k-th line of a run is paired in every state between its writes. */
  ghost predicate PairedAt(h: Hart, lines: seq<Line>, records: map<Kind, seq<Record>>, forced: bool, run: seq<nat>,
                           k: nat)
    requires AllKinds(records) && k < |run| && forall j :: 0 <= j < |run| ==> run[j] < |lines|
  {
    PairedThroughout(HartAt(h, lines, records, forced, run, k), CodeAt(lines, records, true, forced, run[k]),
                     records[ConfigLine])
  }

  /** The forward half of the theorem below. */
  lemma RunPaired(h: Hart, lines: seq<Line>, records: map<Kind, seq<Record>>, forced: bool, run: seq<nat>, k: nat)
    requires Input(lines, records) && AllKinds(records) && Run(lines, run) && k < |run|
    requires AllOff(h) && EnablesFit(h, lines, records[ConfigLine])
    ensures PairedAt(h, lines, records, forced, run, k)
  {
    RunSettled(h, lines, records, forced, run, k);
    var before := HartAt(h, lines, records, forced, run, k);
    LineStep(h, before, lines, records, forced, run[k], Configured(lines, run, k));
  }

  /** Every record comes from a line of its kind. */
  lemma {:induction false} RecordHasLine(lines: seq<Line>, n: nat, kind: Kind, record: Record) returns (p: nat)
    requires n <= |lines| && ParseTo(lines, n).Parsed? && record in ParseTo(lines, n).records[kind]
    ensures p < n && RecordAt(lines, p, kind) == Some(record)
  {
    var before := ParseTo(lines, n - 1);
    assert ParseTo(lines, n) == ParseLine(before, lines[n - 1]);
    if record in before.records[kind] {
      p := RecordHasLine(lines, n - 1, kind, record);
    } else {
      p := n - 1;
    }
  }

  /** Configuring with d and then enabling leaves the tdata1 of the last configuration over the tdata2 d left. */
  lemma ConfigThenEnable(h: Hart, configs: seq<Record>, d: Record, r: Record)
    requires AllOff(h) && d in configs && r.index == d.index
    ensures var last := LastConfig(configs, d.index);
            var enabled := ApplyAll(ApplyAll(h, ConfigCode(d)), EnableCode(r, configs));
            last.Some? && T1(enabled, d.index) == last.value.tdata1 && T2(enabled, d.index) == Left(h, d)
  {
    ConfigRegisters(h, d, d.index);
    WriteRegisters(ApplyAll(h, ConfigCode(d)), d.index, LastConfig(configs, d.index).value.tdata1, d.index);
  }

  /** The two-line run "configure with d, enable" is not paired if the configuration restored does not fit what d
      leaves. */
  lemma MisfitBreaks(h: Hart, lines: seq<Line>, records: map<Kind, seq<Record>>, forced: bool, q: nat, p: nat,
                     d: Record)
    requires Input(lines, records) && AllKinds(records) && AllOff(h) && p < |lines| && EnablesAt(lines, p)
    requires q < |lines| && RecordAt(lines, q, ConfigLine) == Some(d) && d in records[ConfigLine]
    requires d.index == lines[p].content.args.index
    requires var last := LastConfig(records[ConfigLine], d.index);
             last.Some? && last.value.tdata1 != 0 && !Fits(records[ConfigLine], d.index, last.value.tdata1, Left(h, d))
    ensures Run(lines, [q, p]) && !PairedAt(h, lines, records, forced, [q, p], 1)
  {
    var configs := records[ConfigLine];
    var run := [q, p];
    CleanUsesOwn(lines, q);
    CleanUsesOwn(lines, p);
    assert Configured(lines, run, 0) == {};
    assert Configured(lines, run, 1) == {d.index};
    assert CodeAt(lines, records, true, forced, q) == ConfigCode(d);
    assert HartAt(h, lines, records, forced, run, 0) == h;
    var before := HartAt(h, lines, records, forced, run, 1);
    assert before == ApplyAll(h, ConfigCode(d));
    var r := RecordAt(lines, p, EnableLine).value;
    var code := EnableCode(r, configs);
    assert CodeAt(lines, records, true, forced, p) == code;
    ConfigThenEnable(h, configs, d, r);
    assert code[..|code|] == code;
    assert !Paired(ApplyAll(before, code[..|code|]), configs);
  }

  /** Trigger safety over all runs, exactly: from a hart with all triggers off, every run of a clean file that enables
      after configuring is paired in every state between two writes if and only if every index the file enables
      fits: the last configuration of the index in the file is off or agrees with whatever tdata2 any configuration
      of the index leaves. */
  lemma TriggerSafetyIff(h: Hart, lines: seq<Line>, records: map<Kind, seq<Record>>, forced: bool)
    requires Input(lines, records) && AllKinds(records) && AllOff(h)
    ensures (forall run, k {:trigger PairedAt(h, lines, records, forced, run, k)} ::
               Run(lines, run) && 0 <= k < |run| ==> PairedAt(h, lines, records, forced, run, k))
        <==> EnablesFit(h, lines, records[ConfigLine])
  {
    var configs := records[ConfigLine];
    if EnablesFit(h, lines, configs) {
      forall run, k | Run(lines, run) && 0 <= k < |run| ensures PairedAt(h, lines, records, forced, run, k) {
        RunPaired(h, lines, records, forced, run, k);
      }
    } else {
      var p :| 0 <= p < |lines| && EnablesAt(lines, p) && !EnableFits(h, configs, lines[p].content.args.index);
      var i := lines[p].content.args.index;
      var last := LastConfig(configs, i).value;
      var d :| d in configs && d.index == i && !Fits(configs, i, last.tdata1, Left(h, d));
      var q := RecordHasLine(lines, |lines|, ConfigLine, d);
      MisfitBreaks(h, lines, records, forced, q, p, d);
      assert Run(lines, [q, p]) && !PairedAt(h, lines, records, forced, [q, p], 1);
    }
  }

  /** In particular a file that configures each index once is safe, whatever the hart starts with. */
  lemma TriggerSafety(h: Hart, lines: seq<Line>, records: map<Kind, seq<Record>>, forced: bool, run: seq<nat>, k: nat)
    requires Input(lines, records) && AllKinds(records) && Run(lines, run) && k < |run|
    requires Once(records[ConfigLine]) && AllOff(h)
    ensures PairedAt(h, lines, records, forced, run, k)
  {
    var configs := records[ConfigLine];
    forall p | 0 <= p < |lines| && EnablesAt(lines, p) ensures EnableFits(h, configs, lines[p].content.args.index) {
      var i := lines[p].content.args.index;
      var last := LastConfig(configs, i);
      forall d | d in configs && d.index == i ensures Fits(configs, i, last.value.tdata1, Left(h, d)) {
        assert d == last.value;
      }
    }
    RunPaired(h, lines, records, forced, run, k);
  }

  function TriggerLine(kind: Kind, args: Args): Line { Line(Trigger(kind, args), true, false, true) }

  /** With an index configured twice it can fail: in this file the run of the first two lines enables index i with the
      tdata1 of the configuration that comes later, over the tdata2 of the one that ran. */
  lemma EnableRestoresLaterConfig(h: Hart, i: int, a1: nat, a2: int, b1: nat, b2: int, forced: bool)
    requires AllOff(h) && a1 != b1 && a2 != b2 && b1 != 0
    ensures var lines := [TriggerLine(ConfigLine, Config(i, Mcontrol6, "a", a1, a2)), TriggerLine(EnableLine, Index(i)),
                          TriggerLine(ConfigLine, Config(i, Mcontrol6, "b", b1, b2))];
            var p := ParseTo(lines, 3);
            && p.Parsed? && Input(lines, p.records) && Run(lines, [0, 1])
            && !PairedAt(h, lines, p.records, forced, [0, 1], 1)
  {
    var first := TriggerLine(ConfigLine, Config(i, Mcontrol6, "a", a1, a2));
    var enable := TriggerLine(EnableLine, Index(i));
    var later := TriggerLine(ConfigLine, Config(i, Mcontrol6, "b", b1, b2));
    var lines := [first, enable, later];
    var a, b := Record(i, Mcontrol6, a1, a2, 1), Record(i, Mcontrol6, b1, b2, 3);
    assert ParseTo(lines, 1) == ParseLine(ParseTo(lines, 0), first);
    assert ParseTo(lines, 2) == ParseLine(ParseTo(lines, 1), enable);
    assert ParseTo(lines, 3) == ParseLine(ParseTo(lines, 2), later);
    var records := ParseTo(lines, 3).records;
    assert records[ConfigLine] == [a, b];
    assert LastConfig([a, b], i) == Some(b);
    assert RecordAt(lines, 0, ConfigLine) == Some(a);
    MisfitBreaks(h, lines, records, forced, 0, 1, a);
  }
}
