/** Placing the runtime and code pages (riescue/dtest_framework/generator/generator.py:2259-2515 and 2739-3020,
    riescue/dtest_framework/pool.py:471-492) and the linker script made of them
    (riescue/dtest_framework/generator/assembly_writer.py:1096-1168). */
module Sections {
  import opened Bits
  import opened Wrappers

  const PAGE: nat := 0x1000

  datatype Config = Config(
    vsOff: bool,          // paging_mode is DISABLE
    gOff: bool,           // paging_g_mode is DISABLE
    machine: bool,        // the test runs in machine mode
    wysiwyg: bool,
    randomizeCode: bool,
    identityCode: bool,
    cUsed: bool,
    resetPc: nat)

  datatype Counts = Counts(code: nat, text: nat, super: nat, user: nat, machine: nat, machineCsr: nat, superCsr: nat,
                           pte: nat)

  datatype Kind = Runtime | RuntimeUser | RuntimeS | Code | Text | Super | User | Machine | MachineCsr | SuperCsr

  /** A section's name; index 0 of Runtime, RuntimeUser, RuntimeS, Code and Text is the name without a number. */
  datatype Name = Name(kind: Kind, index: nat)

  /** A placed section: linear and physical address, requested size, and whether it gets page-table entries. */
  datatype Page = Page(name: Name, lin: nat, phys: nat, size: nat, mapped: bool)

  /** An entry of the pool's sections. */
  datatype Section = Section(name: Name, vma: nat, lma: nat)

  /** What the address generator would answer: a physical and a canonical linear block, or None. */
  datatype Choice = Choice(phys: Option<nat>, lin: Option<nat>)

  /** The (linear, physical) address add_section_handler settles on. */
  function Placement(cfg: Config, start: Option<nat>, startLin: Option<nat>, identity: bool, skip: bool,
                     gen: Choice): Option<(nat, nat)>
  {
    if Identity(cfg, identity) then
      if start.Some? then Some((start.value, start.value))
      else if startLin.Some? then Some((startLin.value, startLin.value))
      else Same(gen.phys)
    else if start.Some? && startLin.Some? then Some((startLin.value, start.value))
    else if start.Some? then
      if Skips(cfg, skip) then Some((start.value, start.value))
      else if gen.lin.Some? then Some((gen.lin.value, start.value)) else None
    else if startLin.Some? then
      if Skips(cfg, skip) then Some((startLin.value, startLin.value))
      else if gen.phys.Some? then Some((startLin.value, gen.phys.value)) else None
    else if Skips(cfg, skip) then Same(gen.phys)
    else if gen.phys.Some? && gen.lin.Some? then Some((gen.lin.value, gen.phys.value)) else None
  }

  function Same(a: Option<nat>): Option<(nat, nat)> { if a.Some? then Some((a.value, a.value)) else None }

  function Both(lin: Option<nat>, phys: Option<nat>): Option<(nat, nat)> {
    if lin.Some? && phys.Some? then Some((lin.value, phys.value)) else None
  }

  /** Where the code block starts: in wysiwyg mode at the physical reset address, randomized at the physical address
      generated, otherwise at the linear address where the runtime ends. The other half is generated as well if the code
      is paged and not identity mapped. */
  function CodeStart(cfg: Config, runtimeEnd: nat, gen: Choice): Option<(nat, nat)> {
    var paged := !cfg.vsOff && !cfg.machine;
    if cfg.wysiwyg then Both(if paged then gen.lin else Some(cfg.resetPc), Some(cfg.resetPc))
    else if cfg.randomizeCode then Both(if paged then gen.lin else gen.phys, gen.phys)
    else Both(Some(runtimeEnd), if paged && !cfg.identityCode then gen.phys else Some(runtimeEnd))
  }

  /** Without any paging nothing gets page-table entries, and without first-stage paging everything is identity
      mapped. */
  predicate Skips(cfg: Config, skip: bool) { skip || (cfg.vsOff && cfg.gOff) }

  predicate Identity(cfg: Config, identity: bool) { identity || cfg.vsOff }

  /** pool.add_section: a section without page-table entries is registered as physical, at its linear address. */
  function Registered(p: Page): Section { Section(p.name, p.lin, if p.mapped then p.phys else p.lin) }

  function RegisteredAll(pages: seq<Page>): seq<Section> {
    seq(|pages|, i requires 0 <= i < |pages| => Registered(pages[i]))
  }

  /** Sections the source places without page-table entries of their own. */
  predicate SkipOf(cfg: Config, kind: Kind) {
    kind == Runtime || kind == Machine || kind == MachineCsr || (kind == Code && cfg.machine)
  }

  /** Page j of a block stands j pages above its start, in both address spaces. */
  ghost predicate Tiles(pages: seq<Page>, lin: nat, phys: nat) {
    forall j :: 0 <= j < |pages| ==> pages[j].lin == lin + j * PAGE && pages[j].phys == phys + j * PAGE
  }

  function NamesOf(pages: seq<Page>): seq<Name> { seq(|pages|, i requires 0 <= i < |pages| => pages[i].name) }

  /** The pages added since `was` tile a block at (lin, phys) under these names, mapped as their kind says. */
  ghost predicate Grew(cfg: Config, was: seq<Page>, now: seq<Page>, lin: nat, phys: nat, names: seq<Name>) {
    && was <= now && Tiles(now[|was|..], lin, phys) && NamesOf(now[|was|..]) == names
    && forall j :: |was| <= j < |now| ==> now[j].mapped == !Skips(cfg, SkipOf(cfg, now[j].name.kind))
  }

  lemma GrewMore(cfg: Config, was: seq<Page>, mid: seq<Page>, now: seq<Page>, lin: nat, phys: nat, names: seq<Name>,
                 more: seq<Name>)
    requires Grew(cfg, was, mid, lin, phys, names)
    requires Grew(cfg, mid, now, lin + |names| * PAGE, phys + |names| * PAGE, more)
    ensures Grew(cfg, was, now, lin, phys, names + more)
  {
    var a, b, all := mid[|was|..], now[|mid|..], now[|was|..];
    assert all == a + b && |a| == |NamesOf(a)| == |names|;
    forall j | 0 <= j < |all| ensures all[j].lin == lin + j * PAGE && all[j].phys == phys + j * PAGE {
      if j >= |a| { assert all[j] == b[j - |a|]; }
    }
    assert NamesOf(all) == NamesOf(a) + NamesOf(b);
    forall j | |was| <= j < |now| ensures now[j].mapped == !Skips(cfg, SkipOf(cfg, now[j].name.kind)) {
      if j < |mid| { assert now[j] == mid[j]; }
    }
  }

  function Names(kind: Kind, first: nat, n: nat): seq<Name> { seq(n, i requires 0 <= i < n => Name(kind, first + i)) }

  /** A loop from 1 after a first page: at least one page. */
  function AtLeastOne(n: nat): nat { if n == 0 then 1 else n }

  function TextPages(cfg: Config, c: Counts): nat { if cfg.cUsed then AtLeastOne(c.text) else 0 }

  /** The sections of the code branch in the order they are added. */
  function CodeNames(cfg: Config, c: Counts): seq<Name> {
    Names(Code, 0, AtLeastOne(c.code)) + Names(Text, 0, TextPages(cfg, c)) + Names(Super, 0, c.super) +
      Names(User, 0, c.user)
    + Names(Machine, 0, c.machine) + Names(MachineCsr, 0, c.machineCsr) + Names(SuperCsr, 0, c.superCsr)
  }

  /** The pages the code branch asks for up front. */
  function BlockPages(cfg: Config, c: Counts): nat {
    c.code + c.super + c.user + c.machine + c.machineCsr + c.superCsr + c.text
    + if cfg.wysiwyg then 1 else if cfg.randomizeCode then 0 else c.pte
  }

  function PrivilegedNames(c: Counts): seq<Name> {
    Names(Super, 0, c.super) + Names(User, 0, c.user) + Names(Machine, 0, c.machine) +
      Names(MachineCsr, 0, c.machineCsr)
    + Names(SuperCsr, 0, c.superCsr)
  }

  lemma CodeNamesAre(cfg: Config, c: Counts)
    ensures CodeNames(cfg, c) == Names(Code, 0, AtLeastOne(c.code)) + Names(Text, 0, TextPages(cfg, c)) +
              PrivilegedNames(c)
  {}

  class Generator {
    const cfg: Config
    var runtimeEnd: nat
    var pages: seq<Page>
    var sections: seq<Section>

    ghost predicate Valid()
      reads this
    {
      sections == RegisteredAll(pages)
    }

    constructor (cfg: Config)
      ensures Valid() && this.cfg == cfg && pages == []
    {
      this.cfg, runtimeEnd, pages, sections := cfg, 0, [], [];
    }

    /** add_section_handler; None is an address the generator cannot find. */
    method AddSectionHandler(name: Name, size: nat, startAddr: Option<nat>, startLinAddr: Option<nat>,
                             identityMap: bool, skipPageMap: bool, gen: Choice)
      returns (r: Option<(nat, nat)>)
      requires Valid()
      modifies this`pages, this`sections
      ensures Valid()
      ensures r == Placement(cfg, startAddr, startLinAddr, identityMap, skipPageMap, gen)
      ensures pages == old(pages) + if r.Some? then [Page(name, r.value.0, r.value.1, size, !Skips(cfg, skipPageMap))]
                else []
      // with nothing given and both stages of addresses in use, the linear half is linear and the physical physical
      ensures startAddr == None && startLinAddr == None && !identityMap && !skipPageMap && !cfg.vsOff && r.Some? ==>
                gen.lin == Some(pages[|old(pages)|].lin) && gen.phys == Some(pages[|old(pages)|].phys)
      // the section is linked at the linear address, and loaded at the physical one if it has page-table entries
      ensures |sections| == |pages|
      ensures r.Some? ==>
                var page, section := pages[|old(pages)|], sections[|old(pages)|];
                && section.name == name && section.vma == page.lin
                && section.lma == if skipPageMap || (cfg.vsOff && cfg.gOff) then page.lin else page.phys
    {
      var start, startLin, identity, skip := startAddr, startLinAddr, identityMap, skipPageMap;
      if cfg.vsOff && cfg.gOff { skip := true; }
      if cfg.vsOff { identity := true; }
      if identity {
        if start == None && startLin.Some? { start := startLin; }
        startLin := None;
      }
      var lin, phys: Option<nat> := None, None;
      if skip {
        if start.Some? && startLin.Some? {
          phys, lin := start, startLin;
        } else if start.Some? {
          phys, lin := start, start;
        } else if startLin.Some? {
          phys, lin := startLin, startLin;
        } else {
          phys := gen.phys;
          if phys == None { return None; }
          lin := phys;
        }
      } else if start.Some? && startLin.Some? {
        phys, lin := start, startLin;
      } else if start.Some? {
        phys := start;
        if identity { lin := phys; } else { lin := gen.lin; }
      } else if startLin.Some? {
        lin := startLin;
        if identity { phys := startLin; } else { phys := gen.phys; }
      } else {
        phys := gen.phys;
        if phys == None { return None; }
        if identity { lin := phys; } else { lin := gen.lin; }
      }
      if lin == None || phys == None { return None; }
      var page := Page(name, lin.value, phys.value, size, !skip);
      pages := pages + [page];
      AddSection(page);
      return Some((lin.value, phys.value));
    }

    /** pool.add_section, for a section added by the handler. */
    method AddSection(page: Page)
      modifies this`sections
      ensures sections == old(sections) + [Registered(page)]
    {
      var physical := if page.mapped then page.phys else page.lin;
      sections := sections + [Section(page.name, page.lin, physical)];
    }

    /** One page whose addresses are known. alone: it is started at one address, which serves as both. */
    method PlaceOne(name: Name, size: nat, alone: bool, lin: nat, phys: nat)
      requires Valid()
      requires cfg.vsOff || alone ==> lin == phys
      requires alone ==> SkipOf(cfg, name.kind)
      modifies this`pages, this`sections
      ensures Valid() && pages == old(pages) + [Page(name, lin, phys, size, !Skips(cfg, SkipOf(cfg, name.kind)))]
    {
      var skip, none := SkipOf(cfg, name.kind), Choice(None, None);
      if alone {
        var r := AddSectionHandler(name, size, Some(if name.kind == Code then lin else phys), None, false, skip, none);
      } else {
        var r := AddSectionHandler(name, size, Some(phys), Some(lin), false, skip, none);
      }
    }

    /** One loop of single pages, from index `first` up; `firstSize` is the size asked for with the first. */
    method PlacePages(kind: Kind, first: nat, n: nat, firstSize: nat, alone: bool, lin: nat, phys: nat)
      requires Valid()
      requires cfg.vsOff || alone ==> lin == phys
      requires alone ==> SkipOf(cfg, kind)
      modifies this`pages, this`sections
      ensures Valid() && Grew(cfg, old(pages), pages, lin, phys, Names(kind, first, n))
    {
      ghost var was := pages;
      var allocLin, allocPhys := lin, phys;
      for i := 0 to n
        invariant Valid() && was <= pages && |pages| == |was| + i
        invariant allocLin == lin + i * PAGE && allocPhys == phys + i * PAGE
        invariant forall k :: |was| <= k < |pages| ==>
                    && pages[k].lin == lin + (k - |was|) * PAGE && pages[k].phys == phys + (k - |was|) * PAGE
                    && pages[k].name == Name(kind, first + (k - |was|)) &&
                      pages[k].mapped == !Skips(cfg, SkipOf(cfg, kind))
      {
        PlaceOne(Name(kind, first + i), if i == 0 then firstSize else PAGE, alone, allocLin, allocPhys);
        allocLin, allocPhys := allocLin + PAGE, allocPhys + PAGE;
      }
    }

    /** The first section of the code branch, which asks for the whole block. */
    method PlaceCodeBlock(c: Counts, gen: Choice) returns (r: Option<(nat, nat)>)
      requires Valid()
      modifies this`pages, this`sections
      ensures Valid() && r == CodeStart(cfg, runtimeEnd, gen)
      ensures r.Some? ==>
                && Grew(cfg, old(pages), pages, r.value.0, r.value.1, Names(Code, 0, 1))
                && pages[|old(pages)|].size == BlockPages(cfg, c) * PAGE
    {
      var size := PAGE * (c.code + c.super + c.user + c.machine + c.machineCsr + c.superCsr + c.text);
      if cfg.wysiwyg {
        r := AddSectionHandler(Name(Code, 0), size + PAGE, Some(cfg.resetPc), None, false, cfg.machine, gen);
      } else if cfg.randomizeCode {
        r := AddSectionHandler(Name(Code, 0), size, None, None, false, cfg.machine, gen);
      } else {
        r := AddSectionHandler(Name(Code, 0), size + PAGE * c.pte, None, Some(runtimeEnd), cfg.identityCode,
                               cfg.machine, gen);
      }
      assert NamesOf([Page(Name(Code, 0), 0, 0, 0, true)]) == Names(Code, 0, 1);
    }

    /** The code and text pages of the code branch. */
    method PlaceCodeText(c: Counts, gen: Choice) returns (r: Option<(nat, nat)>)
      requires Valid()
      modifies this`pages, this`sections
      ensures Valid() && r == CodeStart(cfg, runtimeEnd, gen)
      ensures r.Some? ==>
                && Grew(cfg, old(pages), pages, r.value.0, r.value.1,
                        Names(Code, 0, AtLeastOne(c.code)) + Names(Text, 0, TextPages(cfg, c)))
                && pages[|old(pages)|].size == BlockPages(cfg, c) * PAGE
    {
      ghost var was := pages;
      r := PlaceCodeBlock(c, gen);
      if r == None { return; }
      var lin, phys := r.value.0, r.value.1;
      ghost var mid := pages;
      PlacePages(Code, 1, AtLeastOne(c.code) - 1, PAGE, cfg.machine, lin + PAGE, phys + PAGE);
      GrewMore(cfg, was, mid, pages, lin, phys, Names(Code, 0, 1), Names(Code, 1, AtLeastOne(c.code) - 1));
      ghost var names := Names(Code, 0, AtLeastOne(c.code));
      assert names == Names(Code, 0, 1) + Names(Code, 1, AtLeastOne(c.code) - 1);
      if cfg.cUsed {
        var n := AtLeastOne(c.code);
        mid := pages;
        PlacePages(Text, 0, AtLeastOne(c.text), PAGE, false, lin + n * PAGE, phys + n * PAGE);
        GrewMore(cfg, was, mid, pages, lin, phys, names, Names(Text, 0, AtLeastOne(c.text)));
      } else {
        assert names + [] == names && Names(Text, 0, 0) == [];
      }
    }

    /** The code branch of handle_sections. */
    method PlaceCode(c: Counts, gen: Choice) returns (r: Option<(nat, nat)>)
      requires Valid()
      modifies this`pages, this`sections
      ensures Valid() && r == CodeStart(cfg, runtimeEnd, gen)
      ensures r.Some? ==>
                && Grew(cfg, old(pages), pages, r.value.0, r.value.1, CodeNames(cfg, c))
                && pages[|old(pages)|].size == BlockPages(cfg, c) * PAGE
    {
      ghost var was := pages;
      r := PlaceCodeText(c, gen);
      if r == None { return; }
      var lin, phys, n := r.value.0, r.value.1, AtLeastOne(c.code) + TextPages(cfg, c);
      ghost var mid, names := pages, Names(Code, 0, AtLeastOne(c.code)) + Names(Text, 0, TextPages(cfg, c));
      PlacePrivileged(c, lin + n * PAGE, phys + n * PAGE);
      GrewMore(cfg, was, mid, pages, lin, phys, names, PrivilegedNames(c));
      CodeNamesAre(cfg, c);
      assert |names| > 0 && pages[|was|] == mid[|was|];
    }

    /** The loops for supervisor, user and machine code and the CSR jump tables. */
    method PlacePrivileged(c: Counts, lin: nat, phys: nat)
      requires Valid() && (cfg.vsOff ==> lin == phys)
      modifies this`pages, this`sections
      ensures Valid() && Grew(cfg, old(pages), pages, lin, phys, PrivilegedNames(c))
    {
      ghost var was := pages;
      var n := c.super;
      PlacePages(Super, 0, c.super, PAGE, false, lin, phys);
      ghost var names, mid := Names(Super, 0, c.super), pages;
      PlacePages(User, 0, c.user, PAGE, false, lin + n * PAGE, phys + n * PAGE);
      GrewMore(cfg, was, mid, pages, lin, phys, names, Names(User, 0, c.user));
      names, mid, n := names + Names(User, 0, c.user), pages, n + c.user;
      PlacePages(Machine, 0, c.machine, PAGE, false, lin + n * PAGE, phys + n * PAGE);
      GrewMore(cfg, was, mid, pages, lin, phys, names, Names(Machine, 0, c.machine));
      names, mid, n := names + Names(Machine, 0, c.machine), pages, n + c.machine;
      PlacePages(MachineCsr, 0, c.machineCsr, PAGE, false, lin + n * PAGE, phys + n * PAGE);
      GrewMore(cfg, was, mid, pages, lin, phys, names, Names(MachineCsr, 0, c.machineCsr));
      names, mid, n := names + Names(MachineCsr, 0, c.machineCsr), pages, n + c.machineCsr;
      PlacePages(SuperCsr, 0, c.superCsr, PAGE, false, lin + n * PAGE, phys + n * PAGE);
      GrewMore(cfg, was, mid, pages, lin, phys, names, Names(SuperCsr, 0, c.superCsr));
    }

    /** The runtime branch of handle_sections: everything at the reset address and on, VA equal to PA. */
    method PlaceRuntime(runtime: nat, user: nat, super: nat, c: Counts) returns (ok: bool)
      requires Valid() && runtime >= 1
      modifies this
      ensures Valid() && ok
      ensures Grew(cfg, old(pages), pages, cfg.resetPc, cfg.resetPc,
                   Names(Runtime, 0, runtime) + Names(RuntimeUser, 0, user) + Names(RuntimeS, 0, super))
      ensures runtimeEnd == cfg.resetPc + (runtime + user + super) * PAGE
      ensures pages[|old(pages)|].size ==
              (runtime + user + super + if cfg.randomizeCode then 0 else BlockPages(cfg.(wysiwyg := false), c)) * PAGE
    {
      ghost var was := pages;
      var reserve := runtime + user + super;
      if !cfg.randomizeCode {
        reserve := reserve + (c.code + c.super + c.user + c.machine + c.machineCsr + c.superCsr + c.pte + c.text);
      }
      var base := cfg.resetPc;
      PlaceOne(Name(Runtime, 0), PAGE * reserve, true, base, base);
      ghost var names, mid := Names(Runtime, 0, 1), pages;
      assert NamesOf([pages[|was|]]) == names && mid[|was|..] == [pages[|was|]];
      PlacePages(Runtime, 1, runtime - 1, PAGE, true, base + PAGE, base + PAGE);
      GrewMore(cfg, was, mid, pages, base, base, names, Names(Runtime, 1, runtime - 1));
      assert names + Names(Runtime, 1, runtime - 1) == Names(Runtime, 0, runtime);
      names, mid := Names(Runtime, 0, runtime), pages;
      var n := runtime;
      PlacePages(RuntimeUser, 0, user, PAGE * user, false, base + n * PAGE, base + n * PAGE);
      GrewMore(cfg, was, mid, pages, base, base, names, Names(RuntimeUser, 0, user));
      names, mid, n := names + Names(RuntimeUser, 0, user), pages, n + user;
      PlacePages(RuntimeS, 0, super, PAGE * super, false, base + n * PAGE, base + n * PAGE);
      GrewMore(cfg, was, mid, pages, base, base, names, Names(RuntimeS, 0, super));
      runtimeEnd := base + (n + super) * PAGE;
      ok := true;
    }
  }

  /** Code page j stands at VA0 + 4096 j and PA0 + 4096 j, so VA - PA is the same for all of them. */
  lemma OffsetIsConstant(cfg: Config, was: seq<Page>, now: seq<Page>, lin: nat, phys: nat, names: seq<Name>, j: nat)
    requires Grew(cfg, was, now, lin, phys, names) && j < |names|
    ensures |now| == |was| + |names|
    ensures now[|was| + j].name == names[j]
    ensures now[|was| + j].lin == lin + j * PAGE && now[|was| + j].phys == phys + j * PAGE
    ensures now[|was| + j].lin - now[|was| + j].phys == lin - phys
  {
    assert |NamesOf(now[|was|..])| == |names|;
    assert now[|was|..][j] == now[|was| + j];
    assert NamesOf(now[|was|..])[j] == names[j];
  }

  /** Its section is linked at its linear address. It is loaded at its physical address, or at its linear one if it has
      no page-table entries: without paging, in the runtime, in machine-mode code and CSR pages, and in the code pages
      of a machine-mode test. */
  lemma SectionAddresses(cfg: Config, was: seq<Page>, now: seq<Page>, lin: nat, phys: nat, names: seq<Name>, j: nat)
    requires Grew(cfg, was, now, lin, phys, names) && j < |names|
    ensures |now| == |was| + |names|
    ensures var section := RegisteredAll(now)[|was| + j];
            && section.name == names[j] && section.vma == lin + j * PAGE
            && section.lma ==
                 if (cfg.vsOff && cfg.gOff) || names[j].kind in {Runtime, Machine, MachineCsr}
                    || (cfg.machine && names[j].kind == Code)
                 then lin + j * PAGE else phys + j * PAGE
  {
    OffsetIsConstant(cfg, was, now, lin, phys, names, j);
  }

  /** The pages placed fill the block asked for exactly (with one page to spare in wysiwyg mode) exactly when the
      pages asked for without being placed are as many as those placed without being asked for. */
  lemma FillsBlockIff(cfg: Config, c: Counts)
    ensures var spare := if cfg.wysiwyg then 1 else 0;
            |CodeNames(cfg, c)| + spare == BlockPages(cfg, c) <==>
              (if cfg.wysiwyg || cfg.randomizeCode then 0 else c.pte) + (if cfg.cUsed then 0 else c.text)
              == (if c.code == 0 then 1 else 0) + (if cfg.cUsed && c.text == 0 then 1 else 0)
  {}

  /** The counts handle_sections uses: 30 text pages with C code, otherwise none, and no page-table page. */
  lemma CodeFillsItsBlock(cfg: Config, moreOsPages: bool)
    ensures var text: nat := if cfg.cUsed then 30 else 0;
            var c := Counts(if moreOsPages then 500 else 128, text, 128, 128, 128, 1, 1, 0);
            |CodeNames(cfg, c)| + (if cfg.wysiwyg then 1 else 0) == BlockPages(cfg, c)
  {
    var text: nat := if cfg.cUsed then 30 else 0;
    FillsBlockIff(cfg, Counts(if moreOsPages then 500 else 128, text, 128, 128, 128, 1, 1, 0));
  }

  /** No two sections share a name, so none replaces another in the pool's dictionary. */
  lemma CodeNamesDistinct(cfg: Config, c: Counts, i: nat, j: nat)
    requires i < j < |CodeNames(cfg, c)|
    ensures CodeNames(cfg, c)[i] != CodeNames(cfg, c)[j]
  {
    var names := CodeNames(cfg, c);
    assert Order(names[i].kind) < Order(names[j].kind) ||
      (names[i].kind == names[j].kind && names[i].index < names[j].index);
  }

  function Order(k: Kind): nat {
    match k
    case Code => 3
    case Text => 4
    case Super => 5
    case User => 6
    case Machine => 7
    case MachineCsr => 8
    case SuperCsr => 9
    case _ => 0
  }

  /** The linker script loads a machine-mode page at its linear address, so at its own physical address exactly when
      the code block has the same start in both spaces. */
  lemma MachinePagesLoadLinear(cfg: Config, was: seq<Page>, now: seq<Page>, lin: nat, phys: nat, names: seq<Name>,
                               j: nat)
    requires Grew(cfg, was, now, lin, phys, names) && j < |names|
    requires names[j].kind == Machine || names[j].kind == MachineCsr
    ensures |now| == |was| + |names|
    ensures Registered(now[|was| + j]).lma == lin + j * PAGE
    ensures Registered(now[|was| + j]).lma == now[|was| + j].phys <==> lin == phys
  {
    OffsetIsConstant(cfg, was, now, lin, phys, names, j);
  }

  // ---------------------------------------------------------------------------------------------
  // The linker script

  /** A line of the linker script: where the section is asked to be, and its segment. */
  datatype Entry = Entry(vma: nat, lma: nat)

  /** Bit 55 of a load address is cleared if it is set. */
  const UNUSED_BIT: nat := 55

  function ClearBit(lma: nat, n: nat): nat { if And(lma, Shl(1, n)) != 0 then And(lma, Not(Shl(1, n))) else lma }

  function EntryOf(s: Section, codeOffset: nat): Entry {
    var offset := if s.name == Name(Code, 0) then codeOffset else 0;
    Entry(s.vma + offset, ClearBit(s.lma + offset, UNUSED_BIT))
  }

  /** Clearing takes 2^n off the numbers with that bit, and nothing off the others. */
  lemma ClearBitValue(lma: nat, n: nat)
    ensures ClearBit(lma, n) == lma - (if BitN(lma, n) then Pow2(n) else 0)
    ensures !BitN(ClearBit(lma, n), n)
  {
    ShlOne(n);
    AndNot(lma, Shl(1, n));
    AndBit(lma, n);
    if BitN(lma, n) { WithoutBit(lma, n); }
  }

  lemma WithoutBit(lma: nat, n: nat)
    requires BitN(lma, n)
    ensures lma >= Pow2(n) && !BitN(lma - Pow2(n), n)
  {
    Split(lma, n);
    BitNMeaning(lma, n);
    var q := Shr(lma, n);
    MulSucc(Pow2(n), q - 1);
    SplitUnique(lma - Pow2(n), n, q - 1, Low(lma, n));
    BitNMeaning(lma - Pow2(n), n);
  }

  lemma {:induction false} ShlOne(n: nat)
    ensures Shl(1, n) == Pow2(n)
  {
    if n > 0 { ShlOne(n - 1); }
  }

  /** And with a single bit reads it. */
  lemma {:induction false} AndBit(x: nat, n: nat)
    ensures And(x, Pow2(n)) == if BitN(x, n) then Pow2(n) else 0
  {
    BitNMeaning(x, n);
    if n == 0 {
      AndMask(x, 1, 0);
    } else {
      AndDouble(x, Pow2(n - 1));
      AndBit(x / 2, n - 1);
      BitNMeaning(x / 2, n - 1);
    }
  }

  /** One page after the entry before it, in both. */
  predicate Follows(entries: seq<Entry>, i: nat)
    requires 0 < i < |entries|
  {
    entries[i].vma - entries[i - 1].vma == PAGE && entries[i].lma - entries[i - 1].lma == PAGE
  }

  /** The segment of entry i: how many entries up to it start a new one. */
  function Segment(entries: seq<Entry>, i: nat): nat
    requires i < |entries|
  {
    if i == 0 then 0 else Segment(entries, i - 1) + if Follows(entries, i) then 0 else 1
  }

  /** The loop of create_linker_script that resolves the addresses. */
  method LinkerEntries(sections: seq<Section>, codeOffset: nat) returns (entries: seq<Entry>)
    ensures |entries| == |sections|
    ensures forall i :: 0 <= i < |sections| ==> entries[i] == EntryOf(sections[i], codeOffset)
  {
    entries := [];
    for i := 0 to |sections|
      invariant |entries| == i && forall k :: 0 <= k < i ==> entries[k] == EntryOf(sections[k], codeOffset)
    {
      var vma, lma := sections[i].vma, sections[i].lma;
      if sections[i].name == Name(Code, 0) { vma, lma := vma + codeOffset, lma + codeOffset; }
      if And(lma, Shl(1, UNUSED_BIT)) != 0 { lma := And(lma, Not(Shl(1, UNUSED_BIT))); }
      entries := entries + [Entry(vma, lma)];
    }
  }

  /** The loop that numbers the segments. */
  method NumberSegments(entries: seq<Entry>) returns (segments: seq<nat>, count: nat)
    ensures |segments| == |entries| && forall i :: 0 <= i < |entries| ==> segments[i] == Segment(entries, i) < count
    ensures count == 0 <==> entries == []
  {
    segments := [];
    var seg := 0;
    for i := 0 to |entries|
      invariant |segments| == i && seg == (if i == 0 then 0 else Segment(entries, i - 1))
      invariant forall k :: 0 <= k < i ==> segments[k] == Segment(entries, k) <= seg
    {
      if i > 0 && !(entries[i].vma - entries[i - 1].vma == PAGE && entries[i].lma - entries[i - 1].lma == PAGE) {
        assert !Follows(entries, i);
        seg := seg + 1;
      } else {
        assert i > 0 ==> Follows(entries, i);
      }
      assert seg == Segment(entries, i);
      segments := segments + [seg];
    }
    count := if entries == [] then 0 else seg + 1;
  }

  /** Two sections get the same segment exactly when every consecutive pair between them is one page apart in both
      addresses. */
  lemma {:induction false} SameSegmentIff(entries: seq<Entry>, i: nat, j: nat)
    requires i <= j < |entries|
    ensures Segment(entries, i) <= Segment(entries, j)
    ensures Segment(entries, i) == Segment(entries, j) <==>
              forall k {:trigger Follows(entries, k)} :: i < k <= j ==> Follows(entries, k)
  {
    if i < j { SameSegmentIff(entries, i, j - 1); }
  }

  /** In one segment the distance from VMA to LMA is constant, and the sections are pages of one block. */
  lemma {:induction false} SegmentIsBlock(entries: seq<Entry>, i: nat, j: nat)
    requires i <= j < |entries| && Segment(entries, i) == Segment(entries, j)
    ensures entries[j].vma == entries[i].vma + (j - i) * PAGE && entries[j].lma == entries[i].lma + (j - i) * PAGE
  {
    if i < j {
      SameSegmentIff(entries, i, j);
      assert Follows(entries, j);
      SameSegmentIff(entries, i, j - 1);
      SegmentIsBlock(entries, i, j - 1);
    }
  }

  /** AT(lma + ADDR(.name) - vma) for a section the linker really puts at `addr`. */
  function LoadAddress(e: Entry, addr: nat): int { e.lma + addr - e.vma }

  /** However far the linker bumps the sections of a segment, the distance from load address to address stays the
      one that was asked for, the same in the whole segment; a literal AT(lma) keeps it only without a bump. */
  lemma BumpKeepsDistance(entries: seq<Entry>, i: nat, j: nat, addrI: nat, addrJ: nat)
    requires i <= j < |entries| && Segment(entries, i) == Segment(entries, j)
    ensures LoadAddress(entries[i], addrI) - addrI == LoadAddress(entries[j], addrJ) - addrJ ==
              entries[i].lma - entries[i].vma
    ensures entries[j].lma - addrJ == entries[j].lma - entries[j].vma <==> addrJ == entries[j].vma
  {
    SegmentIsBlock(entries, i, j);
  }

  /** The pages of a code block whose registered addresses are their own, with bit 55 the same in all of them, make
      one segment, except that a code offset takes the first page out of it. */
  lemma CodeBlockIsOneSegment(cfg: Config, pages: seq<Page>, lin: nat, phys: nat, codeOffset: nat,
                              entries: seq<Entry>, i: nat, j: nat)
    requires Tiles(pages, lin, phys) && |entries| == |pages| && i <= j < |pages|
    requires forall k :: 0 <= k < |pages| ==> entries[k] == EntryOf(Registered(pages[k]), codeOffset)
    requires forall k :: 0 <= k < |pages| ==> (pages[k].name == Name(Code, 0) <==> k == 0)
    requires forall k :: 0 <= k < |pages| ==>
               (pages[k].mapped || lin == phys) && BitN(pages[k].phys, UNUSED_BIT) == BitN(phys, UNUSED_BIT)
    ensures Segment(entries, i) == Segment(entries, j) <==> i == j || codeOffset == 0 || i > 0
  {
    SameSegmentIff(entries, i, j);
    if codeOffset == 0 || i > 0 {
      forall k {:trigger Follows(entries, k)} | i < k <= j ensures Follows(entries, k) {
        CodePageFollows(pages, lin, phys, codeOffset, entries, k);
      }
    } else if i < j {
      CodePageFollows(pages, lin, phys, codeOffset, entries, 1);
      assert !Follows(entries, 1);
    }
  }

  lemma CodePageFollows(pages: seq<Page>, lin: nat, phys: nat, codeOffset: nat, entries: seq<Entry>, k: nat)
    requires Tiles(pages, lin, phys) && |entries| == |pages| && 0 < k < |pages|
    requires entries[k] == EntryOf(Registered(pages[k]), codeOffset)
    requires entries[k - 1] == EntryOf(Registered(pages[k - 1]), codeOffset)
    requires pages[k].name != Name(Code, 0) && (pages[k - 1].name == Name(Code, 0) <==> k == 1)
    requires (pages[k].mapped && pages[k - 1].mapped) || lin == phys
    requires BitN(pages[k].phys, UNUSED_BIT) == BitN(pages[k - 1].phys, UNUSED_BIT)
    ensures Follows(entries, k) <==> codeOffset == 0 || k > 1
  {
    NextPageFollows(pages[k - 1].phys, pages[k].phys, UNUSED_BIT);
  }

  lemma NextPageFollows(a: nat, b: nat, n: nat)
    requires b == a + PAGE && BitN(a, n) == BitN(b, n)
    ensures ClearBit(b, n) - ClearBit(a, n) == PAGE
  {
    ClearBitValue(a, n);
    ClearBitValue(b, n);
  }
}
