/** Emitting a tree of page tables as assembler directives, and what the assembled memory holds
    (riescue/dtest_framework/lib/page_map.py, riescue/dtest_framework/pool.py). */
module PageTables {
  import opened Bits
  import opened Paging

  /** A page table: its entries in insertion order, each under an index. */
  datatype Table = Table(base: nat, leaf: bool, entries: seq<Entry>)

  datatype Entry = Entry(index: nat, value: nat, level: nat, child: Table)

  /** The section of a page table is named after the map and the table's base. */
  datatype Section = Text | PtSection(mapName: string, base: nat)

  datatype SectionInfo = SectionInfo(vma: nat, lma: nat)

  datatype Directive =
    | InSection(section: Section)
    | Label(section: Section)
    | Org(offset: nat)
    | Bytes(size: nat, value: nat)
    | Comment

  // ---------- emission ----------

  function InsertByIndex(s: seq<Entry>, e: Entry): seq<Entry> {
    if s == [] || s[|s| - 1].index <= e.index then s + [e] else InsertByIndex(s[..|s| - 1], e) + [s[|s| - 1]]
  }

  /** sorted(table.items()); indices are distinct, so entries are never compared. */
  function SortByIndex(s: seq<Entry>): seq<Entry> {
    if s == [] then [] else InsertByIndex(SortByIndex(s[..|s| - 1]), s[|s| - 1])
  }

  function EntryLine(size: nat, e: Entry): seq<Directive> {
    [Org(size * e.index), Bytes(size, e.value), Comment, Comment]
  }

  function EntryLines(size: nat, s: seq<Entry>): seq<Directive> {
    if s == [] then [] else EntryLines(size, s[..|s| - 1]) + EntryLine(size, s[|s| - 1])
  }

  function TableLines(name: string, mode: PagingMode, t: Table): seq<Directive> {
    var sec := PtSection(name, t.base);
    (if t.leaf then [] else [InSection(sec), Label(sec)]) + EntryLines(PtEntrySize(mode), SortByIndex(t.entries))
  }

  function Emit(name: string, mode: PagingMode, t: Table): seq<Directive>
    decreases t, 1
  {
    TableLines(name, mode, t) + EmitChildren(name, mode, t.entries)
  }

  function EmitChildren(name: string, mode: PagingMode, s: seq<Entry>): seq<Directive>
    decreases s, 0
  {
    if s == [] then []
    else
      var last := s[|s| - 1];
      assert s decreases to last;
      assert last decreases to last.child;
      EmitChildren(name, mode, s[..|s| - 1]) + Emit(name, mode, last.child)
  }

  /** The non-leaf tables of a tree, in the order they are emitted. */
  function Tables(t: Table): seq<Table>
    decreases t, 1
  {
    (if t.leaf then [] else [t]) + ChildTables(t.entries)
  }

  function ChildTables(s: seq<Entry>): seq<Table>
    decreases s, 0
  {
    if s == [] then []
    else
      var last := s[|s| - 1];
      assert s decreases to last;
      assert last decreases to last.child;
      ChildTables(s[..|s| - 1]) + Tables(last.child)
  }

  function Register(name: string, sections: map<Section, SectionInfo>, ts: seq<Table>): map<Section, SectionInfo> {
    if ts == [] then sections
    else
      var base := ts[|ts| - 1].base;
      Register(name, sections, ts[..|ts| - 1])[PtSection(name, base) := SectionInfo(base, base)]
  }

  class Pool {
    var sections: map<Section, SectionInfo>

    /** add_section with an explicit address: VMA and LMA are both that address. */
    method AddSection(section: Section, address: nat)
      modifies this
      ensures sections == old(sections)[section := SectionInfo(address, address)]
    {
      sections := sections[section := SectionInfo(address, address)];
    }
  }

  class PageMap {
    const name: string
    const mode: PagingMode
    const pool: Pool

    constructor (name: string, mode: PagingMode, pool: Pool)
      ensures this.name == name && this.mode == mode && this.pool == pool
    {
      this.name, this.mode, this.pool := name, mode, pool;
    }

    /** _print_table_entries */
    method PrintTableEntries(t: Table) returns (content: seq<Directive>)
      modifies pool
      ensures content == TableLines(name, mode, t)
      ensures pool.sections == Register(name, old(pool.sections), if t.leaf then [] else [t])
    {
      content := [];
      if !t.leaf {
        var sec := PtSection(name, t.base);
        content := content + [InSection(sec)];
        pool.AddSection(sec, t.base);
        content := content + [Label(sec)];
      }
      ghost var header := content;
      var sorted := SortByIndex(t.entries);
      for i := 0 to |sorted|
        invariant content == header + EntryLines(PtEntrySize(mode), sorted[..i])
        invariant pool.sections == Register(name, old(pool.sections), if t.leaf then [] else [t])
      {
        var size := PtEntrySize(mode);
        content := content + [Org(size * sorted[i].index), Bytes(size, sorted[i].value), Comment, Comment];
        assert sorted[..i + 1][..i] == sorted[..i];
      }
      assert sorted[..|sorted|] == sorted;
    }

    /** _generate_pagetable_hierarchy */
    method GenerateHierarchy(t: Table) returns (content: seq<Directive>)
      modifies pool
      ensures content == Emit(name, mode, t)
      ensures pool.sections == Register(name, old(pool.sections), Tables(t))
      decreases t
    {
      content := PrintTableEntries(t);
      ghost var own, before := if t.leaf then [] else [t], pool.sections;
      for i := 0 to |t.entries|
        invariant content == TableLines(name, mode, t) + EmitChildren(name, mode, t.entries[..i])
        invariant pool.sections == Register(name, before, ChildTables(t.entries[..i]))
      {
        ChildStep(name, mode, t.entries, i);
        var more := GenerateHierarchy(t.entries[i].child);
        content := content + more;
        RegisterAppend(name, before, ChildTables(t.entries[..i]), Tables(t.entries[i].child));
      }
      assert t.entries[..|t.entries|] == t.entries;
      RegisterAppend(name, old(pool.sections), own, ChildTables(t.entries));
    }
  }

  lemma ChildStep(name: string, mode: PagingMode, s: seq<Entry>, i: nat)
    requires i < |s|
    ensures EmitChildren(name, mode, s[..i + 1]) == EmitChildren(name, mode, s[..i]) + Emit(name, mode, s[i].child)
    ensures ChildTables(s[..i + 1]) == ChildTables(s[..i]) + Tables(s[i].child)
  {
    assert s[..i + 1][..i] == s[..i];
  }

  lemma {:induction false} RegisterAppend(name: string, sections: map<Section, SectionInfo>, a: seq<Table>,
                                          b: seq<Table>)
    ensures Register(name, Register(name, sections, a), b) == Register(name, sections, a + b)
  {
    if b == [] {
      assert a + b == a;
    } else {
      RegisterAppend(name, sections, a, b[..|b| - 1]);
      assert (a + b)[..|a + b| - 1] == a + b[..|b| - 1];
    }
  }

  // ---------- the assembler ----------

  /** n little-endian bytes of a value. */
  function Little(value: nat, n: nat): (b: seq<nat>)
    ensures |b| == n
    decreases n
  {
    if n == 0 then [] else [value % 256] + Little(value / 256, n - 1)
  }

  function ReadLittle(b: seq<nat>): nat {
    if b == [] then 0 else b[0] + 256 * ReadLittle(b[1..])
  }

  function Pow256(n: nat): (r: nat)
    ensures r > 0
  {
    if n == 0 then 1 else 256 * Pow256(n - 1)
  }

  function Zeros(n: nat): (z: seq<nat>)
    ensures |z| == n
  {
    seq(n, _ => 0)
  }

  /** Sections as assembled so far, the current one, and whether no `.org` has moved backwards. */
  datatype Image = Image(cur: Section, content: map<Section, seq<nat>>, ok: bool) {
    function Here(): seq<nat> { if cur in content then content[cur] else [] }
  }

  function Step(img: Image, d: Directive): Image {
    match d
    case InSection(s) => img.(cur := s, content := if s in img.content then img.content else img.content[s := []])
    case Label(_) => img
    case Comment => img
    case Org(k) =>
      if |img.Here()| <= k then img.(content := img.content[img.cur := img.Here() + Zeros(k - |img.Here()|)])
      else img.(ok := false)
    case Bytes(n, v) => img.(content := img.content[img.cur := img.Here() + Little(v, n)])
  }

  function Assemble(img: Image, ds: seq<Directive>): Image {
    if ds == [] then img else Step(Assemble(img, ds[..|ds| - 1]), ds[|ds| - 1])
  }

  /** Assembling succeeds exactly when every `.org` moves forwards or stays. */
  lemma {:induction false} AssembleOkIff(img: Image, ds: seq<Directive>)
    ensures Assemble(img, ds).ok <==> img.ok && forall i :: 0 <= i < |ds| ==> Forwards(img, ds, i)
  {
    if ds != [] {
      var init, last := ds[..|ds| - 1], |ds| - 1;
      AssembleOkIff(img, init);
      forall i | 0 <= i < last ensures Forwards(img, ds, i) <==> Forwards(img, init, i) {
        assert ds[..i] == init[..i];
      }
      assert ds[..last] == init;
      assert Assemble(img, ds).ok <==> Assemble(img, init).ok && Forwards(img, ds, last);
    }
  }

  ghost predicate Forwards(img: Image, ds: seq<Directive>, i: nat)
    requires i < |ds|
  {
    ds[i].Org? ==> |Assemble(img, ds[..i]).Here()| <= ds[i].offset
  }

  lemma {:induction false} AssembleAppend(img: Image, a: seq<Directive>, b: seq<Directive>)
    ensures Assemble(img, a + b) == Assemble(Assemble(img, a), b)
  {
    if b == [] {
      assert a + b == a;
    } else {
      AssembleAppend(img, a, b[..|b| - 1]);
      assert (a + b)[..|a + b| - 1] == a + b[..|b| - 1];
    }
  }

  // ---------- one table ----------

  ghost predicate SortedByIndex(s: seq<Entry>) { forall i, j :: 0 <= i < j < |s| ==> s[i].index < s[j].index }

  ghost predicate DistinctIndices(s: seq<Entry>) { forall i, j :: 0 <= i < j < |s| ==> s[i].index != s[j].index }

  lemma {:induction false} InsertByIndexSorts(s: seq<Entry>, e: Entry)
    requires SortedByIndex(s) && forall i :: 0 <= i < |s| ==> s[i].index != e.index
    ensures SortedByIndex(InsertByIndex(s, e)) && forall x :: x in InsertByIndex(s, e) <==> x in s || x == e
  {
    if s != [] && s[|s| - 1].index > e.index {
      var w, last := s[..|s| - 1], s[|s| - 1];
      InsertByIndexSorts(w, e);
      var r := InsertByIndex(w, e);
      assert s == w + [last];
      forall i | 0 <= i < |r| ensures r[i].index < last.index { assert r[i] in r; }
    }
  }

  lemma {:induction false} SortByIndexSorts(s: seq<Entry>)
    requires DistinctIndices(s)
    ensures SortedByIndex(SortByIndex(s)) && forall x :: x in SortByIndex(s) <==> x in s
  {
    if s != [] {
      var w, last := s[..|s| - 1], s[|s| - 1];
      SortByIndexSorts(w);
      assert s == w + [last];
      var r := SortByIndex(w);
      forall i | 0 <= i < |r| ensures r[i].index != last.index { assert r[i] in r && r[i] in w; }
      InsertByIndexSorts(r, last);
    }
  }

  /** The bytes of a table whose entries come in index order: each entry in its slot, zeros between. */
  function Packed(size: nat, s: seq<Entry>): (b: seq<nat>)
    requires SortedByIndex(s)
    ensures |b| == if s == [] then 0 else size * s[|s| - 1].index + size
  {
    if s == [] then []
    else
      var w, last := s[..|s| - 1], s[|s| - 1];
      var before := Packed(size, w);
      PackedFits(size, w, last.index);
      before + Zeros(size * last.index - |before|) + Little(last.value, size)
  }

  lemma PackedFits(size: nat, w: seq<Entry>, next: nat)
    requires w != [] ==> w[|w| - 1].index < next
    ensures (if w == [] then 0 else size * w[|w| - 1].index + size) <= size * next
  {
    if w != [] { assert size * (w[|w| - 1].index + 1) <= size * next; }
  }

  /** Assembling the entries of an empty current section never moves `.org` backwards and leaves the
      packed bytes. */
  lemma {:induction false} AssembleEntries(img: Image, size: nat, s: seq<Entry>)
    requires SortedByIndex(s) && img.cur in img.content && img.content[img.cur] == []
    ensures Assemble(img, EntryLines(size, s)) == img.(content := img.content[img.cur := Packed(size, s)])
  {
    if s == [] {
      assert img.content[img.cur := []] == img.content;
    } else {
      var w, last := s[..|s| - 1], s[|s| - 1];
      AssembleEntries(img, size, w);
      PackedFits(size, w, last.index);
      AssembleAppend(img, EntryLines(size, w), EntryLine(size, last));
      AssembleEntry(img, size, Packed(size, w), last);
    }
  }

  /** One entry is padded to its slot and stored. */
  lemma AssembleEntry(img: Image, size: nat, before: seq<nat>, e: Entry)
    requires |before| <= size * e.index
    ensures Assemble(img.(content := img.content[img.cur := before]), EntryLine(size, e)) ==
            img.(content := img.content[img.cur := before + Zeros(size * e.index - |before|) + Little(e.value, size)])
  {
    var padded := before + Zeros(size * e.index - |before|);
    var a := img.(content := img.content[img.cur := before]);
    var ds := EntryLine(size, e);
    AssembleFour(a, ds[0], ds[1], ds[2], ds[3]);
    Overwrite(img.content, img.cur, before, padded);
    assert Step(a, ds[0]) == img.(content := img.content[img.cur := padded]);
    Overwrite(img.content, img.cur, padded, padded + Little(e.value, size));
  }

  lemma AssembleFour(img: Image, a: Directive, b: Directive, c: Directive, d: Directive)
    ensures Assemble(img, [a, b, c, d]) == Step(Step(Step(Step(img, a), b), c), d)
  {
    assert Assemble(img, []) == img;
    assert [a][..0] == [] && Assemble(img, [a]) == Step(img, a);
    assert [a, b][..1] == [a] && Assemble(img, [a, b]) == Step(Step(img, a), b);
    assert [a, b, c][..2] == [a, b] && Assemble(img, [a, b, c]) == Step(Step(Step(img, a), b), c);
    assert [a, b, c, d][..3] == [a, b, c];
  }

  /** Slot i of a table image. */
  function Slot(b: seq<nat>, size: nat, i: nat): seq<nat>
    requires size * i + size <= |b|
  {
    b[size * i..size * i + size]
  }

  lemma SlotBefore(size: nat, i: nat, j: nat)
    requires i < j
    ensures size * i + size <= size * j
  {
    assert size * (i + 1) <= size * j;
  }

  lemma SlotOfPrefix(size: nat, b: seq<nat>, more: seq<nat>, i: nat)
    requires size * i + size <= |b|
    ensures Slot(b + more, size, i) == Slot(b, size, i)
  {}

  lemma SlotOfPadding(size: nat, b: seq<nat>, n: nat, i: nat)
    requires |b| <= size * i && size * i + size <= |b| + n
    ensures Slot(b + Zeros(n), size, i) == Zeros(size)
  {}

  lemma SlotAtEnd(size: nat, b: seq<nat>, last: seq<nat>, i: nat)
    requires |b| == size * i && |last| == size
    ensures Slot(b + last, size, i) == last
  {}

  /** Every entry is found whole in its own slot, and slots without an entry hold zeros. */
  lemma {:induction false} PackedSlots(size: nat, s: seq<Entry>, i: nat)
    requires SortedByIndex(s) && s != [] && i <= s[|s| - 1].index
    ensures size * i + size <= |Packed(size, s)|
    ensures forall k :: 0 <= k < |s| && s[k].index == i ==> Slot(Packed(size, s), size, i) == Little(s[k].value, size)
    ensures (forall k :: 0 <= k < |s| ==> s[k].index != i) ==> Slot(Packed(size, s), size, i) == Zeros(size)
  {
    var w, last := s[..|s| - 1], s[|s| - 1];
    var before, end := Packed(size, w), Little(last.value, size);
    PackedFits(size, w, last.index);
    var padded := before + Zeros(size * last.index - |before|);
    assert Packed(size, s) == padded + end && |padded| == size * last.index;
    if i == last.index {
      SlotAtEnd(size, padded, end, i);
    } else {
      SlotBefore(size, i, last.index);
      SlotOfPrefix(size, padded, end, i);
      if w != [] && i <= w[|w| - 1].index {
        PackedSlots(size, w, i);
        SlotOfPrefix(size, before, Zeros(size * last.index - |before|), i);
      } else {
        PackedFits(size, w, i);
        SlotOfPadding(size, before, size * last.index - |before|, i);
      }
    }
  }

  lemma {:induction false} LittleRoundTrip(value: nat, n: nat)
    ensures ReadLittle(Little(value, n)) == value % Pow256(n)
    decreases n
  {
    if n > 0 {
      LittleRoundTrip(value / 256, n - 1);
      assert Little(value, n)[1..] == Little(value / 256, n - 1);
      ModStep(value, Pow256(n - 1));
    }
  }

  lemma ModStep(x: nat, m: nat)
    requires m > 0
    ensures 256 * m > 0 && x % (256 * m) == x % 256 + 256 * ((x / 256) % m)
  {
    var q, r := (x / 256) / m, (x / 256) % m;
    DivMod(x, 256 * m);
    assert x / 256 == m * q + r && x == 256 * (m * q + r) + x % 256;
    assert 256 * (m * q) == (256 * m) * q;
    DigitsUnique(256 * m, q, 256 * r + x % 256, x / (256 * m), x % (256 * m));
  }

  // ---------- the whole tree ----------

  /** Distinct indices that fit one page, nothing below a leaf. */
  ghost predicate WellFormed(mode: PagingMode, t: Table)
    decreases t
  {
    && DistinctIndices(t.entries) && (t.leaf ==> t.entries == [])
    && (forall i :: 0 <= i < |t.entries| ==> PtEntrySize(mode) * t.entries[i].index + PtEntrySize(mode) <= 0x1000)
    && (forall i :: 0 <= i < |t.entries| ==> WellFormed(mode, t.entries[i].child))
  }

  ghost predicate DistinctBases(ts: seq<Table>) { forall i, j :: 0 <= i < j < |ts| ==> ts[i].base != ts[j].base }

  /** What the section of a table must hold. */
  function PackedTable(mode: PagingMode, t: Table): seq<nat>
    requires DistinctIndices(t.entries)
  {
    SortByIndexSorts(t.entries);
    Packed(PtEntrySize(mode), SortByIndex(t.entries))
  }

  ghost predicate AllDistinct(ts: seq<Table>) { forall i :: 0 <= i < |ts| ==> DistinctIndices(ts[i].entries) }

  /** The sections after all these tables have been assembled. */
  function Contents(name: string, mode: PagingMode, content: map<Section, seq<nat>>, ts: seq<Table>)
    : map<Section, seq<nat>>
    requires AllDistinct(ts)
  {
    if ts == [] then content
    else
      var last := ts[|ts| - 1];
      Contents(name, mode, content, ts[..|ts| - 1])[PtSection(name, last.base) := PackedTable(mode, last)]
  }

  ghost predicate Unused(name: string, content: map<Section, seq<nat>>, ts: seq<Table>) {
    forall i :: 0 <= i < |ts| ==> PtSection(name, ts[i].base) !in content
  }

  lemma {:induction false} TablesWellFormed(mode: PagingMode, t: Table)
    requires WellFormed(mode, t)
    ensures forall i :: 0 <= i < |Tables(t)| ==> WellFormed(mode, Tables(t)[i]) && !Tables(t)[i].leaf
    decreases t, 1
  {
    ChildTablesWellFormed(mode, t.entries);
  }

  lemma {:induction false} ChildTablesWellFormed(mode: PagingMode, s: seq<Entry>)
    requires forall i :: 0 <= i < |s| ==> WellFormed(mode, s[i].child)
    ensures forall i :: 0 <= i < |ChildTables(s)| ==> WellFormed(mode, ChildTables(s)[i]) && !ChildTables(s)[i].leaf
    decreases s, 0
  {
    if s != [] {
      var last := s[|s| - 1];
      assert s decreases to last;
      assert last decreases to last.child;
      ChildTablesWellFormed(mode, s[..|s| - 1]);
      TablesWellFormed(mode, last.child);
    }
  }

  lemma ContentsSnoc(name: string, mode: PagingMode, content: map<Section, seq<nat>>, ts: seq<Table>, t: Table)
    requires AllDistinct(ts) && DistinctIndices(t.entries)
    ensures AllDistinct(ts + [t])
    ensures Contents(name, mode, content, ts + [t]) ==
            Contents(name, mode, content, ts)[PtSection(name, t.base) := PackedTable(mode, t)]
  {
    var c := ts + [t];
    assert c[..|c| - 1] == ts && c[|c| - 1] == t;
  }

  lemma {:induction false} ContentsAppend(name: string, mode: PagingMode, content: map<Section, seq<nat>>,
                                          a: seq<Table>, b: seq<Table>)
    requires AllDistinct(a) && AllDistinct(b)
    ensures AllDistinct(a + b)
    ensures Contents(name, mode, Contents(name, mode, content, a), b) == Contents(name, mode, content, a + b)
  {
    if b == [] {
      assert a + b == a;
    } else {
      var w, last := b[..|b| - 1], b[|b| - 1];
      ContentsAppend(name, mode, content, a, w);
      ContentsSnoc(name, mode, content, a + w, last);
      ContentsSnoc(name, mode, Contents(name, mode, content, a), w, last);
      assert w + [last] == b && (a + w) + [last] == a + b;
    }
  }

  /** Each table's section holds the table. */
  lemma {:induction false} ContentsOf(name: string, mode: PagingMode, content: map<Section, seq<nat>>, ts: seq<Table>)
    requires DistinctBases(ts) && AllDistinct(ts)
    ensures var r := Contents(name, mode, content, ts);
            forall i :: 0 <= i < |ts| ==>
              PtSection(name, ts[i].base) in r && r[PtSection(name, ts[i].base)] == PackedTable(mode, ts[i])
  {
    if ts != [] {
      var w := ts[..|ts| - 1];
      ContentsOf(name, mode, content, w);
      var r := Contents(name, mode, content, ts);
      forall i | 0 <= i < |ts|
        ensures PtSection(name, ts[i].base) in r && r[PtSection(name, ts[i].base)] == PackedTable(mode, ts[i])
      {
        if i < |w| { assert w[i] == ts[i]; }
      }
    }
  }

  /** No other section appears. */
  lemma {:induction false} ContentsOnly(name: string, mode: PagingMode, content: map<Section, seq<nat>>, ts: seq<Table>,
                                        sec: Section)
    requires AllDistinct(ts)
    requires sec in Contents(name, mode, content, ts) && sec !in content
    ensures exists i :: 0 <= i < |ts| && sec == PtSection(name, ts[i].base)
  {
    var w, last := ts[..|ts| - 1], ts[|ts| - 1];
    if sec != PtSection(name, last.base) {
      ContentsOnly(name, mode, content, w, sec);
      var i :| 0 <= i < |w| && sec == PtSection(name, w[i].base);
      assert ts[i] == w[i];
    }
  }

  lemma AssembleHeader(img: Image, sec: Section)
    requires sec !in img.content
    ensures Assemble(img, [InSection(sec), Label(sec)]) == img.(cur := sec, content := img.content[sec := []])
  {
    assert [InSection(sec), Label(sec)][..1] == [InSection(sec)] && [InSection(sec)][..0] == [];
    assert Assemble(img, [InSection(sec)]) == Step(Assemble(img, []), InSection(sec));
  }

  /** Assembling one table. */
  lemma AssembleTable(name: string, mode: PagingMode, t: Table, img: Image)
    requires WellFormed(mode, t) && (!t.leaf ==> PtSection(name, t.base) !in img.content)
    ensures var r := Assemble(img, TableLines(name, mode, t));
            r.ok == img.ok && r.content == Contents(name, mode, img.content, if t.leaf then [] else [t])
  {
    if t.leaf {
      assert TableLines(name, mode, t) == [];
    } else {
      var sec, size := PtSection(name, t.base), PtEntrySize(mode);
      var start := img.(cur := sec, content := img.content[sec := []]);
      var header, lines := [InSection(sec), Label(sec)], EntryLines(size, SortByIndex(t.entries));
      SortByIndexSorts(t.entries);
      AssembleHeader(img, sec);
      AssembleAppend(img, header, lines);
      AssembleEntries(start, size, SortByIndex(t.entries));
      assert TableLines(name, mode, t) == header + lines;
      OneTable(name, mode, img.content, t);
      Overwrite(img.content, sec, [], PackedTable(mode, t));
    }
  }

  lemma Overwrite(m: map<Section, seq<nat>>, sec: Section, a: seq<nat>, b: seq<nat>)
    ensures m[sec := a][sec := b] == m[sec := b]
  {}

  lemma OneTable(name: string, mode: PagingMode, content: map<Section, seq<nat>>, t: Table)
    requires DistinctIndices(t.entries)
    ensures Contents(name, mode, content, [t]) == content[PtSection(name, t.base) := PackedTable(mode, t)]
  {
    assert [t][..0] == [];
    assert Contents(name, mode, content, []) == content;
  }

  /** Assembling a whole tree fills exactly its tables' sections and never moves `.org` backwards. */
  lemma {:induction false} AssembleTree(name: string, mode: PagingMode, t: Table, img: Image)
    requires WellFormed(mode, t) && DistinctBases(Tables(t)) && Unused(name, img.content, Tables(t))
    ensures AllDistinct(Tables(t))
    ensures var r := Assemble(img, Emit(name, mode, t));
            r.ok == img.ok && r.content == Contents(name, mode, img.content, Tables(t))
    decreases t, 1
  {
    TablesWellFormed(mode, t);
    ChildTablesWellFormed(mode, t.entries);
    var own, below := if t.leaf then [] else [t], ChildTables(t.entries);
    assert Tables(t) == own + below;
    assert !t.leaf ==> Tables(t)[0] == t;
    SplitDistinct(own, below);
    AssembleTable(name, mode, t, img);
    var a := Assemble(img, TableLines(name, mode, t));
    StillUnused(name, mode, img.content, own, below);
    AssembleChildren(name, mode, t.entries, a);
    AssembleAppend(img, TableLines(name, mode, t), EmitChildren(name, mode, t.entries));
    ContentsAppend(name, mode, img.content, own, below);
  }

  lemma {:induction false} AssembleChildren(name: string, mode: PagingMode, s: seq<Entry>, img: Image)
    requires forall i :: 0 <= i < |s| ==> WellFormed(mode, s[i].child)
    requires DistinctBases(ChildTables(s)) && Unused(name, img.content, ChildTables(s))
    ensures AllDistinct(ChildTables(s))
    ensures var r := Assemble(img, EmitChildren(name, mode, s));
            r.ok == img.ok && r.content == Contents(name, mode, img.content, ChildTables(s))
    decreases s, 0
  {
    ChildTablesWellFormed(mode, s);
    if s != [] {
      var w, last := s[..|s| - 1], s[|s| - 1];
      assert s decreases to last;
      assert last decreases to last.child;
      var before, here := ChildTables(w), Tables(last.child);
      assert ChildTables(s) == before + here;
      SplitDistinct(before, here);
      assert Unused(name, img.content, before) by {
        assert forall i :: 0 <= i < |before| ==> before[i] == ChildTables(s)[i];
      }
      AssembleChildren(name, mode, w, img);
      var a := Assemble(img, EmitChildren(name, mode, w));
      StillUnused(name, mode, img.content, before, here);
      AssembleTree(name, mode, last.child, a);
      AssembleAppend(img, EmitChildren(name, mode, w), Emit(name, mode, last.child));
      ContentsAppend(name, mode, img.content, before, here);
    }
  }

  lemma SplitDistinct(a: seq<Table>, b: seq<Table>)
    requires DistinctBases(a + b)
    ensures DistinctBases(a) && DistinctBases(b)
  {
    var c := a + b;
    assert forall i :: 0 <= i < |a| ==> a[i] == c[i];
    assert forall i :: 0 <= i < |b| ==> b[i] == c[|a| + i];
  }

  lemma StillUnused(name: string, mode: PagingMode, content: map<Section, seq<nat>>, a: seq<Table>, b: seq<Table>)
    requires DistinctBases(a + b) && Unused(name, content, a + b)
    requires AllDistinct(a)
    ensures Unused(name, Contents(name, mode, content, a), b)
  {
    var c := a + b;
    forall j | 0 <= j < |b|
      ensures PtSection(name, b[j].base) !in Contents(name, mode, content, a) {
      assert b[j] == c[|a| + j];
      assert forall i :: 0 <= i < |a| ==> a[i] == c[i] && a[i].base != b[j].base;
      var sec := PtSection(name, b[j].base);
      if sec in Contents(name, mode, content, a) && sec !in content { ContentsOnly(name, mode, content, a, sec); }
    }
  }

  lemma {:induction false} RegisterOf(name: string, sections: map<Section, SectionInfo>, ts: seq<Table>)
    requires DistinctBases(ts)
    ensures var r := Register(name, sections, ts);
            forall i :: 0 <= i < |ts| ==>
              PtSection(name, ts[i].base) in r && r[PtSection(name, ts[i].base)] == SectionInfo(ts[i].base, ts[i].base)
  {
    if ts != [] { RegisterOf(name, sections, ts[..|ts| - 1]); }
  }

  /** The bytes of an entry and the values it can hold (PTESIZE, RISC-V Privileged Architecture 20211203, sections
      4.3.2 and 4.4.1). */
  function EntryBytes(mode: PagingMode): nat { if mode == Sv32 then 4 else 8 }

  function EntryValues(mode: PagingMode): (n: nat)
    ensures n > 0
  {
    if mode == Sv32 then 0x1_0000_0000 else WORD
  }

  lemma EntrySizes(mode: PagingMode)
    requires mode != Disable
    ensures PtEntrySize(mode) == EntryBytes(mode) && Pow256(EntryBytes(mode)) == EntryValues(mode)
  {
    assert Pow256(4) == 0x1_0000_0000 by { assert Pow256(2) == 0x1_0000; }
    assert Pow256(8) == WORD by { assert Pow256(6) == 0x1_0000_0000_0000; }
  }

  /** The bytes of a table: a whole number of slots inside one page, every entry's value in its slot, whole if an entry
      can hold it, and zeros in every other slot. */
  ghost predicate InMemory(mode: PagingMode, t: Table, bytes: seq<nat>) {
    var size := EntryBytes(mode);
    && |bytes| <= 0x1000 && (exists n: nat :: |bytes| == size * n)
    && (forall k :: 0 <= k < |t.entries| ==> EntryIn(mode, t.entries[k], bytes))
    && (forall i: nat :: (forall k :: 0 <= k < |t.entries| ==> t.entries[k].index != i) ==> NothingIn(size, i, bytes))
  }

  ghost predicate EntryIn(mode: PagingMode, e: Entry, bytes: seq<nat>) {
    var size := EntryBytes(mode);
    size * e.index + size <= |bytes| && ReadLittle(Slot(bytes, size, e.index)) == e.value % EntryValues(mode)
  }

  ghost predicate NothingIn(size: nat, i: nat, bytes: seq<nat>) {
    size * i + size <= |bytes| ==> Slot(bytes, size, i) == Zeros(size)
  }

  lemma PackedEntry(mode: PagingMode, s: seq<Entry>, e: Entry)
    requires mode != Disable && SortedByIndex(s) && e in s
    ensures EntryIn(mode, e, Packed(EntryBytes(mode), s))
  {
    var size := EntryBytes(mode);
    EntrySizes(mode);
    var j :| 0 <= j < |s| && s[j] == e;
    PackedSlots(size, s, e.index);
    LittleRoundTrip(e.value, size);
  }

  lemma PackedEmpty(size: nat, s: seq<Entry>, i: nat)
    requires SortedByIndex(s) && size > 0 && forall j :: 0 <= j < |s| ==> s[j].index != i
    ensures NothingIn(size, i, Packed(size, s))
  {
    if s != [] && i < s[|s| - 1].index {
      PackedSlots(size, s, i);
    } else if s != [] {
      SlotBefore(size, s[|s| - 1].index, i);
    }
  }

  lemma PackedLength(mode: PagingMode, s: seq<Entry>) returns (n: nat)
    requires SortedByIndex(s)
    requires forall i :: 0 <= i < |s| ==> PtEntrySize(mode) * s[i].index + PtEntrySize(mode) <= 0x1000
    ensures |Packed(PtEntrySize(mode), s)| == PtEntrySize(mode) * n <= 0x1000
  {
    n := if s == [] then 0 else s[|s| - 1].index + 1;
  }

  lemma PackedInMemory(mode: PagingMode, t: Table)
    requires mode != Disable && WellFormed(mode, t)
    ensures InMemory(mode, t, PackedTable(mode, t))
  {
    EntrySizes(mode);
    var size, s, bytes := EntryBytes(mode), SortByIndex(t.entries), PackedTable(mode, t);
    SortByIndexSorts(t.entries);
    assert forall j :: 0 <= j < |s| ==> s[j] in t.entries;
    var n := PackedLength(mode, s);
    forall k | 0 <= k < |t.entries| ensures EntryIn(mode, t.entries[k], bytes) {
      PackedEntry(mode, s, t.entries[k]);
    }
    forall i: nat | forall k :: 0 <= k < |t.entries| ==> t.entries[k].index != i ensures NothingIn(size, i, bytes) {
      PackedEmpty(size, s, i);
    }
  }

  /** A table's section is registered at its base and holds the table. */
  ghost predicate Placed(name: string, mode: PagingMode, tb: Table, content: map<Section, seq<nat>>,
                         registry: map<Section, SectionInfo>)
  {
    var sec := PtSection(name, tb.base);
    && sec in content && InMemory(mode, tb, content[sec])
    && sec in registry && registry[sec] == SectionInfo(tb.base, tb.base)
  }

  /** Only tables have sections, and every table is placed. */
  ghost predicate AllPlaced(name: string, mode: PagingMode, ts: seq<Table>, content: map<Section, seq<nat>>,
                            registry: map<Section, SectionInfo>)
  {
    && (forall i :: 0 <= i < |ts| ==> Placed(name, mode, ts[i], content, registry))
    && (forall sec :: sec in content ==> exists i :: 0 <= i < |ts| && sec == PtSection(name, ts[i].base))
  }

  /** Emission preserves meaning: assembling the emitted directives never moves `.org` backwards, and every
      reachable non-leaf table, and nothing else, is in memory at the base it is registered under. */
  lemma EmissionPreservesMeaning(name: string, mode: PagingMode, t: Table, sections: map<Section, SectionInfo>)
    requires mode != Disable && WellFormed(mode, t) && DistinctBases(Tables(t))
    ensures var r := Assemble(Image(Text, map[], true), Emit(name, mode, t));
            && r.ok
            && AllPlaced(name, mode, Tables(t), r.content, Register(name, sections, Tables(t)))
  {
    var ts, start := Tables(t), Image(Text, map[], true);
    AssembleTree(name, mode, t, start);
    TablesWellFormed(mode, t);
    ContentsOf(name, mode, map[], ts);
    RegisterOf(name, sections, ts);
    var content := Contents(name, mode, map[], ts);
    forall i | 0 <= i < |ts| ensures Placed(name, mode, ts[i], content, Register(name, sections, ts)) {
      PackedInMemory(mode, ts[i]);
    }
    forall sec | sec in content ensures exists i :: 0 <= i < |ts| && sec == PtSection(name, ts[i].base) {
      ContentsOnly(name, mode, map[], ts, sec);
    }
  }

  // ---------- the loaded memory ----------

  /** Tables at distinct page-aligned bases do not overlap. */
  lemma TablesDisjoint(ts: seq<Table>)
    requires DistinctBases(ts) && Aligned4K(ts)
    ensures forall i, j :: 0 <= i < j < |ts| ==>
              ts[i].base + 0x1000 <= ts[j].base || ts[j].base + 0x1000 <= ts[i].base
  {}

  ghost predicate Aligned4K(ts: seq<Table>) { forall i :: 0 <= i < |ts| ==> ts[i].base % 0x1000 == 0 }

  ghost predicate Covers(content: map<Section, seq<nat>>, registry: map<Section, SectionInfo>, sec: Section, a: nat) {
    sec in content && sec in registry && registry[sec].lma <= a < registry[sec].lma + |content[sec]|
  }

  /** Memory after loading: the bytes of every registered section from its load address on. Where sections overlap
      any of them may win. */
  ghost function Load(content: map<Section, seq<nat>>, registry: map<Section, SectionInfo>): imap<nat, nat> {
    imap a: nat | exists sec :: Covers(content, registry, sec, a) :: ByteAt(content, registry, a)
  }

  ghost function ByteAt(content: map<Section, seq<nat>>, registry: map<Section, SectionInfo>, a: nat): nat
    requires exists sec :: Covers(content, registry, sec, a)
  {
    var sec :| Covers(content, registry, sec, a);
    content[sec][a - registry[sec].lma]
  }

  ghost predicate Holds(memory: imap<nat, nat>, a: nat, byte: nat) { a in memory && memory[a] == byte }

  /** The bytes of memory from address a on. */
  ghost predicate Reads(memory: imap<nat, nat>, a: nat, bytes: seq<nat>) {
    forall j :: 0 <= j < |bytes| ==> Holds(memory, a + j, bytes[j])
  }

  lemma OneSectionCovers(name: string, mode: PagingMode, ts: seq<Table>, content: map<Section, seq<nat>>,
                         registry: map<Section, SectionInfo>, i: nat, a: nat, sec: Section)
    requires AllPlaced(name, mode, ts, content, registry) && DistinctBases(ts) && Aligned4K(ts)
    requires i < |ts| && ts[i].base <= a < ts[i].base + 0x1000 && Covers(content, registry, sec, a)
    ensures sec == PtSection(name, ts[i].base)
  {
    var j :| 0 <= j < |ts| && sec == PtSection(name, ts[j].base);
    assert Placed(name, mode, ts[j], content, registry);
    assert ts[j].base <= a < ts[j].base + 0x1000;
    TablesDisjoint(ts);
  }

  /** Memory at a holds what the bytes from base on say, or nothing behind them. */
  ghost predicate ByteRead(memory: imap<nat, nat>, base: nat, bytes: seq<nat>, a: nat)
    requires base <= a
  {
    if a < base + |bytes| then Holds(memory, a, bytes[a - base]) else a !in memory
  }

  lemma LoadedByte(name: string, mode: PagingMode, ts: seq<Table>, content: map<Section, seq<nat>>,
                   registry: map<Section, SectionInfo>, i: nat, a: nat)
    requires AllPlaced(name, mode, ts, content, registry) && DistinctBases(ts) && Aligned4K(ts)
    requires i < |ts| && PtSection(name, ts[i].base) in content && ts[i].base <= a < ts[i].base + 0x1000
    ensures ByteRead(Load(content, registry), ts[i].base, content[PtSection(name, ts[i].base)], a)
  {
    var sec, memory := PtSection(name, ts[i].base), Load(content, registry);
    assert Placed(name, mode, ts[i], content, registry);
    if a < ts[i].base + |content[sec]| {
      assert Covers(content, registry, sec, a);
    }
    if a in memory { LoadedFrom(name, mode, ts, content, registry, i, a); }
  }

  lemma LoadedFrom(name: string, mode: PagingMode, ts: seq<Table>, content: map<Section, seq<nat>>,
                   registry: map<Section, SectionInfo>, i: nat, a: nat)
    requires AllPlaced(name, mode, ts, content, registry) && DistinctBases(ts) && Aligned4K(ts)
    requires i < |ts| && PtSection(name, ts[i].base) in content && ts[i].base <= a < ts[i].base + 0x1000
    requires a in Load(content, registry)
    ensures ByteRead(Load(content, registry), ts[i].base, content[PtSection(name, ts[i].base)], a)
  {
    var memory := Load(content, registry);
    var other :| Covers(content, registry, other, a) && memory[a] == content[other][a - registry[other].lma];
    OneSectionCovers(name, mode, ts, content, registry, i, a, other);
  }

  /** The page of a table in memory: its section's bytes, and nothing behind them. */
  ghost predicate PageRead(memory: imap<nat, nat>, base: nat, bytes: seq<nat>) {
    && Reads(memory, base, bytes)
    && forall a :: base + |bytes| <= a < base + 0x1000 ==> a !in memory
  }

  lemma LoadedPage(name: string, mode: PagingMode, ts: seq<Table>, content: map<Section, seq<nat>>,
                   registry: map<Section, SectionInfo>, i: nat)
    requires AllPlaced(name, mode, ts, content, registry) && DistinctBases(ts) && Aligned4K(ts) && i < |ts|
    ensures PtSection(name, ts[i].base) in content
    ensures PageRead(Load(content, registry), ts[i].base, content[PtSection(name, ts[i].base)])
  {
    assert Placed(name, mode, ts[i], content, registry);
    var base, bytes := ts[i].base, content[PtSection(name, ts[i].base)];
    forall a | base <= a < base + 0x1000 ensures ByteRead(Load(content, registry), base, bytes, a) {
      LoadedByte(name, mode, ts, content, registry, i, a);
    }
    PageOfBytes(Load(content, registry), base, bytes);
  }

  lemma PageOfBytes(memory: imap<nat, nat>, base: nat, bytes: seq<nat>)
    requires |bytes| <= 0x1000 && forall a :: base <= a < base + 0x1000 ==> ByteRead(memory, base, bytes, a)
    ensures PageRead(memory, base, bytes)
  {
    forall j | 0 <= j < |bytes| ensures Holds(memory, base + j, bytes[j]) {
      assert ByteRead(memory, base, bytes, base + j);
    }
    forall a | base + |bytes| <= a < base + 0x1000 ensures a !in memory {
      assert ByteRead(memory, base, bytes, a);
    }
  }

  /** What a page-table walk reads at a table: at base plus entry bytes times index an entry's value, whole if an entry
      can hold it, and at an index without an entry no byte but zeros. */
  ghost predicate WalkReads(mode: PagingMode, t: Table, memory: imap<nat, nat>) {
    && (forall k :: 0 <= k < |t.entries| ==> EntryRead(mode, t.base, t.entries[k], memory))
    && (forall i: nat :: (forall k :: 0 <= k < |t.entries| ==> t.entries[k].index != i) ==>
          NothingRead(EntryBytes(mode), t.base, i, memory))
  }

  ghost predicate EntryRead(mode: PagingMode, base: nat, e: Entry, memory: imap<nat, nat>) {
    exists bytes :: |bytes| == EntryBytes(mode) && Reads(memory, base + EntryBytes(mode) * e.index, bytes)
                    && ReadLittle(bytes) == e.value % EntryValues(mode)
                    && (e.value < EntryValues(mode) ==> ReadLittle(bytes) == e.value)
  }

  ghost predicate NothingRead(size: nat, base: nat, i: nat, memory: imap<nat, nat>) {
    forall a :: base + size * i <= a < base + size * i + size <= base + 0x1000 && a in memory ==> memory[a] == 0
  }

  lemma EntryIsRead(mode: PagingMode, t: Table, bytes: seq<nat>, memory: imap<nat, nat>, k: nat)
    requires InMemory(mode, t, bytes) && Reads(memory, t.base, bytes) && k < |t.entries|
    ensures EntryRead(mode, t.base, t.entries[k], memory)
  {
    var size, i := EntryBytes(mode), t.entries[k].index;
    assert EntryIn(mode, t.entries[k], bytes);
    var slot := Slot(bytes, size, i);
    forall j | 0 <= j < size ensures Holds(memory, t.base + size * i + j, slot[j]) {
      assert Holds(memory, t.base + (size * i + j), bytes[size * i + j]);
    }
    assert Reads(memory, t.base + size * i, slot);
  }

  lemma EmptySlotIsRead(mode: PagingMode, t: Table, bytes: seq<nat>, memory: imap<nat, nat>, i: nat)
    requires InMemory(mode, t, bytes) && PageRead(memory, t.base, bytes)
    requires forall k :: 0 <= k < |t.entries| ==> t.entries[k].index != i
    ensures NothingRead(EntryBytes(mode), t.base, i, memory)
  {
    var size := EntryBytes(mode);
    var n: nat :| |bytes| == size * n;
    if i < n {
      SlotBefore(size, i, n);
      assert NothingIn(size, i, bytes);
      assert Slot(bytes, size, i) == Zeros(size);
      forall a | t.base + size * i <= a < t.base + size * i + size && a in memory ensures memory[a] == 0 {
        assert Holds(memory, t.base + (a - t.base), bytes[a - t.base]);
        assert bytes[a - t.base] == Slot(bytes, size, i)[a - t.base - size * i];
      }
    } else {
      if n < i { SlotBefore(size, n, i); }
      assert size * n <= size * i;
    }
  }

  /** Emission preserves meaning down to memory: load every section of the assembled directives at the address it is
      registered under, and a walk reads in every reachable table, at base + size * index, exactly the tree's
      entries. */
  lemma LoadedTablesReadBack(name: string, mode: PagingMode, t: Table, sections: map<Section, SectionInfo>)
    requires mode != Disable && WellFormed(mode, t) && DistinctBases(Tables(t)) && Aligned4K(Tables(t))
    ensures var r := Assemble(Image(Text, map[], true), Emit(name, mode, t));
            var memory := Load(r.content, Register(name, sections, Tables(t)));
            r.ok && forall i :: 0 <= i < |Tables(t)| ==> WalkReads(mode, Tables(t)[i], memory)
  {
    EmissionPreservesMeaning(name, mode, t, sections);
    var ts, registry := Tables(t), Register(name, sections, Tables(t));
    var content := Assemble(Image(Text, map[], true), Emit(name, mode, t)).content;
    forall i | 0 <= i < |ts| ensures WalkReads(mode, ts[i], Load(content, registry)) {
      assert Placed(name, mode, ts[i], content, registry);
      LoadedPage(name, mode, ts, content, registry, i);
      WalkReadsPage(mode, ts[i], content[PtSection(name, ts[i].base)], Load(content, registry));
    }
  }

  lemma WalkReadsPage(mode: PagingMode, t: Table, bytes: seq<nat>, memory: imap<nat, nat>)
    requires InMemory(mode, t, bytes) && PageRead(memory, t.base, bytes)
    ensures WalkReads(mode, t, memory)
  {
    forall k | 0 <= k < |t.entries| ensures EntryRead(mode, t.base, t.entries[k], memory) {
      EntryIsRead(mode, t, bytes, memory, k);
    }
    forall i: nat | forall k :: 0 <= k < |t.entries| ==> t.entries[k].index != i
      ensures NothingRead(EntryBytes(mode), t.base, i, memory)
    {
      EmptySlotIsRead(mode, t, bytes, memory, i);
    }
  }
}
