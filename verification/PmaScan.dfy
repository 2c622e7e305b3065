/** The sort-and-merge of PMA regions, on values (riescue/dtest_framework/lib/pma.py). */
module PmaScan {

  /** The eight attributes that must agree before two regions may be merged. */
  datatype Attributes = Attributes(memoryType: string, amoType: string, cacheability: string, combining: string,
                                   routingTo: string, read: bool, write: bool, execute: bool)

  /** PmaInfo.attrib_matches */
  predicate AttribMatches(a: Attributes, b: Attributes): (r: bool)
    ensures r <==> a == b
  {
    && a.memoryType == b.memoryType && a.amoType == b.amoType && a.cacheability == b.cacheability
    && a.combining == b.combining && a.routingTo == b.routingTo
    && a.read == b.read && a.write == b.write && a.execute == b.execute
  }

  predicate IsIo(a: Attributes) { a.memoryType == "io" }

  /** The value of an entry; `id` is the identity of the object that holds it. */
  datatype Region = Region(id: nat, name: string, attrs: Attributes, base: nat, size: nat) {
    function End(): nat { base + size }

    predicate Has(addr: int) { base <= addr < End() }

    predicate Contains(other: Region) { base <= other.base && End() >= other.End() }

    predicate IsHint() { "pma_" <= name }

    /** Grown to end where e ends. */
    function GrownTo(e: Region): Region { this.(size := if e.End() >= base then e.End() - base else 0) }
  }

  // ---------- sorting by address ----------

  ghost predicate Sorted(v: seq<Region>) { forall i, j :: 0 <= i <= j < |v| ==> v[i].base <= v[j].base }

  function Insert(v: seq<Region>, e: Region): seq<Region> {
    if v == [] || v[|v| - 1].base <= e.base then v + [e]
    else Insert(v[..|v| - 1], e) + [v[|v| - 1]]
  }

  /** list.sort(key=address): stable. */
  function SortRegions(v: seq<Region>): seq<Region> {
    if v == [] then [] else Insert(SortRegions(v[..|v| - 1]), v[|v| - 1])
  }

  lemma {:induction false} InsertKeeps(v: seq<Region>, e: Region)
    ensures multiset(Insert(v, e)) == multiset(v) + multiset{e}
    ensures forall x :: x in Insert(v, e) ==> x in v || x == e
  {
    if v != [] && v[|v| - 1].base > e.base {
      var w, last := v[..|v| - 1], v[|v| - 1];
      assert v == w + [last];
      InsertKeeps(w, e);
    }
  }

  lemma {:induction false} InsertSorted(v: seq<Region>, e: Region)
    requires Sorted(v)
    ensures Sorted(Insert(v, e)) && multiset(Insert(v, e)) == multiset(v) + multiset{e}
  {
    InsertKeeps(v, e);
    if v != [] && v[|v| - 1].base > e.base {
      var w, last := v[..|v| - 1], v[|v| - 1];
      InsertSorted(w, e);
      InsertKeeps(w, e);
      SortedSnoc(Insert(w, e), last);
    }
  }

  lemma SortedSnoc(v: seq<Region>, last: Region)
    requires Sorted(v) && forall x :: x in v ==> x.base <= last.base
    ensures Sorted(v + [last])
  {}

  lemma {:induction false} SortRegionsSorts(v: seq<Region>)
    ensures Sorted(SortRegions(v)) && multiset(SortRegions(v)) == multiset(v)
  {
    if v != [] {
      SortRegionsSorts(v[..|v| - 1]);
      InsertSorted(SortRegions(v[..|v| - 1]), v[|v| - 1]);
      assert v == v[..|v| - 1] + [v[|v| - 1]];
    }
  }

  lemma {:induction false} SortOfSorted(v: seq<Region>)
    requires Sorted(v)
    ensures SortRegions(v) == v
  {
    if v != [] {
      var w, last := v[..|v| - 1], v[|v| - 1];
      SortOfSorted(w);
      assert w != [] ==> w[|w| - 1] == v[|v| - 2] && v[|v| - 2].base <= last.base;
      assert Insert(w, last) == w + [last] == v;
    }
  }

  lemma InsertMiddle(a: Region, b: Region, m: Region)
    requires a.base <= m.base < b.base
    ensures Insert([a, b], m) == [a, m, b]
  {
    assert [a, b][..1] == [a];
    assert Insert([a], m) == [a, m];
  }

  // ---------- merging ----------

  datatype Decision = Append | Skip | Grow

  /** What happens to the next entry, given the last region so far. */
  function Decide(cur: Region, e: Region): Decision {
    if !AttribMatches(cur.attrs, e.attrs) then Append
    else if cur.Contains(e) then (if e.IsHint() then Append else Skip)
    else if cur.End() == e.base then Grow
    else if IsIo(cur.attrs) then Grow
    else Append
  }

  /** The returned regions, and the stored entries as the scan leaves them. */
  datatype Scan = Scan(out: seq<Region>, stored: seq<Region>)

  function ScanFrom(cur: Region, rest: seq<Region>): (r: Scan)
    ensures |r.out| > 0 && |r.stored| == 1 + |rest|
    decreases |rest|
  {
    if rest == [] then Scan([cur], [cur])
    else
      var e := rest[0];
      match Decide(cur, e)
      case Append =>
        var t := ScanFrom(e, rest[1..]);
        Scan([cur] + t.out, [cur] + t.stored)
      case Skip =>
        var t := ScanFrom(cur, rest[1..]);
        Scan(t.out, [t.stored[0], e] + t.stored[1..])
      case Grow =>
        var t := ScanFrom(cur.GrownTo(e), rest[1..]);
        Scan(t.out, [t.stored[0], e] + t.stored[1..])
  }

  /** consolidated_entries on a non-empty list. */
  function Consolidate(v: seq<Region>): Scan
    requires v != []
  {
    SortRegionsSorts(v);
    var s := SortRegions(v);
    assert |multiset(s)| == |multiset(v)|;
    ScanFrom(s[0], s[1..])
  }

  // ---------- what the scan returns ----------

  ghost predicate From(cur: Region, rest: seq<Region>) { forall i :: 0 <= i < |rest| ==> cur.base <= rest[i].base }

  /** A region lies wholly inside a region with the same attributes. */
  predicate Within(a: Region, b: Region) { a.attrs == b.attrs && b.Contains(a) }

  /** An address belongs to a region of these attributes. */
  ghost predicate Covered(v: seq<Region>, attrs: Attributes, x: int) {
    exists i :: 0 <= i < |v| && v[i].attrs == attrs && v[i].Has(x)
  }

  lemma CoveredCons(e: Region, v: seq<Region>, attrs: Attributes, x: int)
    ensures Covered([e] + v, attrs, x) <==> (e.attrs == attrs && e.Has(x)) || Covered(v, attrs, x)
  {
    var w := [e] + v;
    if e.attrs == attrs && e.Has(x) { assert w[0].attrs == attrs && w[0].Has(x); }
    if i :| 0 <= i < |v| && v[i].attrs == attrs && v[i].Has(x) { assert w[i + 1] == v[i]; }
  }

  lemma GrowStep(cur: Region, e: Region)
    requires cur.base <= e.base && Decide(cur, e) == Grow
    ensures var c := cur.GrownTo(e);
            && c.End() == e.End() > cur.End() && c.Contains(cur) && c.Contains(e)
            && (!IsIo(cur.attrs) ==> forall x: int :: c.Has(x) <==> cur.Has(x) || e.Has(x))
  {}

  /** The first region returned is the grown `cur`; later ones start where some later entry starts. */
  lemma {:induction false} ScanShape(cur: Region, rest: seq<Region>)
    requires Sorted(rest) && From(cur, rest)
    ensures var r := ScanFrom(cur, rest);
            && r.out[0] == r.stored[0] == cur.(size := r.out[0].size) && r.out[0].size >= cur.size
            && Sorted(r.out)
            && (rest != [] ==> forall i :: 1 <= i < |r.out| ==> rest[0].base <= r.out[i].base)
    decreases |rest|
  {
    if rest != [] {
      var e, tail := rest[0], rest[1..];
      match Decide(cur, e) {
        case Append => ScanShape(e, tail);
        case Skip => ScanShape(cur, tail);
        case Grow => GrowStep(cur, e); ScanShape(cur.GrownTo(e), tail);
      }
    }
  }

  /** Every entry lies wholly inside one returned region with equal attributes. */
  lemma {:induction false} ScanKeepsEntries(cur: Region, rest: seq<Region>)
    requires Sorted(rest) && From(cur, rest)
    ensures Within(cur, ScanFrom(cur, rest).out[0])
    ensures forall e :: e in rest ==> exists r :: r in ScanFrom(cur, rest).out && Within(e, r)
    decreases |rest|
  {
    ScanShape(cur, rest);
    if rest != [] {
      var e, tail := rest[0], rest[1..];
      var next := match Decide(cur, e) case Append => e case Skip => cur case Grow => cur.GrownTo(e);
      if Decide(cur, e) == Grow { GrowStep(cur, e); }
      ScanKeepsEntries(next, tail);
      var t := ScanFrom(next, tail);
      assert forall r :: r in t.out ==> r in ScanFrom(cur, rest).out;
      assert Within(e, t.out[0]) && t.out[0] in t.out;
      forall d | d in rest ensures exists r :: r in ScanFrom(cur, rest).out && Within(d, r) {
        if d != e {
          assert d in tail;
          var r :| r in t.out && Within(d, r);
        }
      }
    }
  }

  /** Merging or skipping an entry covers what the two covered. */
  lemma StepCovers(cur: Region, e: Region, attrs: Attributes, x: int)
    requires cur.base <= e.base && !IsIo(attrs)
    ensures Decide(cur, e) == Skip ==> ((e.attrs == attrs && e.Has(x)) ==> cur.attrs == attrs && cur.Has(x))
    ensures Decide(cur, e) == Grow ==>
              (cur.attrs == attrs && cur.GrownTo(e).Has(x) <==>
               (cur.attrs == attrs && cur.Has(x)) || (e.attrs == attrs && e.Has(x)))
  {}

  /** Regions that are not io cover exactly what the entries with their attributes cover. */
  lemma {:induction false} ScanCoversExactly(cur: Region, rest: seq<Region>, attrs: Attributes, x: int)
    requires Sorted(rest) && From(cur, rest) && !IsIo(attrs)
    ensures Covered(ScanFrom(cur, rest).out, attrs, x) <==> Covered([cur] + rest, attrs, x)
    decreases |rest|
  {
    if rest == [] {
      assert [cur] + rest == [cur];
    } else {
      var e, tail := rest[0], rest[1..];
      var next := match Decide(cur, e) case Append => e case Skip => cur case Grow => cur.GrownTo(e);
      if Decide(cur, e) == Grow { GrowStep(cur, e); }
      ScanCoversExactly(next, tail, attrs, x);
      StepCovers(cur, e, attrs, x);
      assert rest == [e] + tail;
      CoveredCons(next, tail, attrs, x);
      CoveredCons(e, tail, attrs, x);
      CoveredCons(cur, rest, attrs, x);
      CoveredCons(cur, ScanFrom(next, tail).out, attrs, x);
    }
  }

  /** So do the entries as the scan leaves them. */
  lemma {:induction false} StoredCoversExactly(cur: Region, rest: seq<Region>, attrs: Attributes, x: int)
    requires Sorted(rest) && From(cur, rest) && !IsIo(attrs)
    ensures Covered(ScanFrom(cur, rest).stored, attrs, x) <==> Covered([cur] + rest, attrs, x)
    decreases |rest|
  {
    CoveredCons(cur, rest, attrs, x);
    if rest == [] {
      assert [cur] + rest == [cur];
    } else {
      var e, tail := rest[0], rest[1..];
      var next := match Decide(cur, e) case Append => e case Skip => cur case Grow => cur.GrownTo(e);
      if Decide(cur, e) == Grow { GrowStep(cur, e); }
      StoredCoversExactly(next, tail, attrs, x);
      StepCovers(cur, e, attrs, x);
      StoredHead(cur, e, ScanFrom(next, tail).stored, attrs, x);
      CoveredCons(next, tail, attrs, x);
      CoveredHead(rest, attrs, x);
    }
  }

  lemma CoveredHead(v: seq<Region>, attrs: Attributes, x: int)
    requires v != []
    ensures Covered(v, attrs, x) <==> (v[0].attrs == attrs && v[0].Has(x)) || Covered(v[1..], attrs, x)
  {
    CoveredCons(v[0], v[1..], attrs, x);
    assert v == [v[0]] + v[1..];
  }

  lemma StoredHead(cur: Region, e: Region, t: seq<Region>, attrs: Attributes, x: int)
    requires t != []
    ensures Covered([cur] + t, attrs, x) <==> (cur.attrs == attrs && cur.Has(x)) || Covered(t, attrs, x)
    ensures Covered([t[0], e] + t[1..], attrs, x) <==> (e.attrs == attrs && e.Has(x)) || Covered(t, attrs, x)
  {
    CoveredCons(cur, t, attrs, x);
    CoveredHead(t, attrs, x);
    CoveredCons(e, t[1..], attrs, x);
    CoveredCons(t[0], [e] + t[1..], attrs, x);
    assert [t[0], e] + t[1..] == [t[0]] + ([e] + t[1..]);
  }

  /** An io region reaches over the start of an entry with other attributes only where an entry
      with its own attributes already reached: `p` is the entry that ends where `cur` ends. */
  lemma {:induction false} ScanFillsNoStart(cur: Region, p: Region, rest: seq<Region>, r: Region, d: Region)
    requires Sorted(rest) && From(cur, rest) && From(p, rest) && p.attrs == cur.attrs && p.End() == cur.End()
    requires r in ScanFrom(cur, rest).out && d in rest && d.attrs != r.attrs && r.base < d.base < r.End()
    ensures Covered([p] + rest, r.attrs, d.base)
    decreases |rest|
  {
    var e, tail := rest[0], rest[1..];
    CoveredHeads(p, rest, r.attrs, d.base);
    match Decide(cur, e) {
      case Append =>
        if r == cur {
          assert p.Has(d.base);
        } else {
          LaterStart(e, tail, r, d);
          ScanFillsNoStart(e, e, tail, r, d);
        }
      case Skip =>
        LaterStart(cur, tail, r, d);
        ScanFillsNoStart(cur, p, tail, r, d);
      case Grow =>
        GrowStep(cur, e);
        LaterStart(cur.GrownTo(e), tail, r, d);
        ScanFillsNoStart(cur.GrownTo(e), e, tail, r, d);
    }
  }

  /** More entries cover more. */
  lemma CoveredHeads(p: Region, rest: seq<Region>, attrs: Attributes, x: int)
    requires rest != []
    ensures p.attrs == attrs && p.Has(x) ==> Covered([p] + rest, attrs, x)
    ensures Covered([p] + rest[1..], attrs, x) ==> Covered([p] + rest, attrs, x)
    ensures Covered([rest[0]] + rest[1..], attrs, x) ==> Covered([p] + rest, attrs, x)
  {
    assert rest == [rest[0]] + rest[1..];
    CoveredCons(p, rest, attrs, x);
    CoveredCons(p, rest[1..], attrs, x);
    CoveredCons(rest[0], rest[1..], attrs, x);
  }

  /** An entry that starts strictly inside a returned region of other attributes is not the one just handled. */
  lemma LaterStart(next: Region, tail: seq<Region>, r: Region, d: Region)
    requires Sorted(tail) && From(next, tail) && r in ScanFrom(next, tail).out
    requires d.attrs != r.attrs && r.base < d.base
    ensures d.attrs == next.attrs && From(d, tail) ==> d in tail
  {
    ScanShape(next, tail);
    var t := ScanFrom(next, tail);
    var i :| 0 <= i < |t.out| && t.out[i] == r;
    if i > 0 && tail == [] { assert false; }
  }

  // ---------- scanning again ----------

  /** Where the region that starts as `cur` ends once the entries after it have been merged into it. */
  function Reach(cur: Region, rest: seq<Region>): nat
    decreases |rest|
  {
    if rest == [] then cur.End()
    else
      match Decide(cur, rest[0])
      case Append => cur.End()
      case Skip => Reach(cur, rest[1..])
      case Grow => Reach(cur.GrownTo(rest[0]), rest[1..])
  }

  /** A hint-named entry set apart inside `cur` is grown past the end of `cur` by later entries, where `cur` would
      take it in: in io, or where it starts at the very end. */
  predicate Outgrows(cur: Region, e: Region, tail: seq<Region>) {
    && e.IsHint() && e.attrs == cur.attrs && cur.Contains(e)
    && Reach(e, tail) > cur.End() && (IsIo(cur.attrs) || e.base == cur.End())
  }

  /** No hint-named entry is merged, and none set apart outgrows its neighbour. */
  predicate Stable(cur: Region, rest: seq<Region>)
    decreases |rest|
  {
    rest != [] ==>
      var e := rest[0];
      match Decide(cur, e)
      case Append => !Outgrows(cur, e, rest[1..]) && Stable(e, rest[1..])
      case Skip => Stable(cur, rest[1..])
      case Grow => !e.IsHint() && Stable(cur.GrownTo(e), rest[1..])
  }

  lemma {:induction false} ReachIsEnd(cur: Region, rest: seq<Region>)
    requires Sorted(rest) && From(cur, rest)
    ensures ScanFrom(cur, rest).stored[0].End() == Reach(cur, rest) >= cur.End()
    decreases |rest|
  {
    if rest != [] {
      var e, tail := rest[0], rest[1..];
      match Decide(cur, e)
      case Append =>
      case Skip => ReachIsEnd(cur, tail);
      case Grow =>
        GrowStep(cur, e);
        ReachIsEnd(cur.GrownTo(e), tail);
    }
  }

  /** An entry set apart is set apart again, as grown, unless it outgrows its neighbour. */
  lemma AppendAgainIff(cur: Region, e: Region, tail: seq<Region>)
    requires Sorted(tail) && From(e, tail) && cur.base <= e.base && Decide(cur, e) == Append
    ensures Decide(cur, ScanFrom(e, tail).stored[0]) == Append <==> !Outgrows(cur, e, tail)
  {
    ReachIsEnd(e, tail);
    ScanShape(e, tail);
  }

  ghost predicate DistinctIds(v: seq<Region>) { forall i, j :: 0 <= i < j < |v| ==> v[i].id != v[j].id }

  /** The scan of what a scan leaves behind. */
  function Rescan(cur: Region, rest: seq<Region>): Scan {
    var s := ScanFrom(cur, rest).stored;
    ScanFrom(s[0], s[1..])
  }

  /** Ids of the returned regions come from the entries. */
  lemma {:induction false} OutIds(cur: Region, rest: seq<Region>, i: nat)
    requires i < |ScanFrom(cur, rest).out|
    ensures i == 0 ==> ScanFrom(cur, rest).out[0].id == cur.id
    ensures i > 0 ==> exists k :: 0 <= k < |rest| && rest[k].id == ScanFrom(cur, rest).out[i].id
    decreases |rest|
  {
    if rest != [] {
      var e, tail := rest[0], rest[1..];
      match Decide(cur, e) {
        case Append =>
          if i > 0 {
            OutIds(e, tail, i - 1);
            if i > 1 {
              var k :| 0 <= k < |tail| && tail[k].id == ScanFrom(e, tail).out[i - 1].id;
              assert rest[k + 1] == tail[k];
            }
          }
        case Skip =>
          OutIds(cur, tail, i);
          if i > 0 {
            var k :| 0 <= k < |tail| && tail[k].id == ScanFrom(cur, tail).out[i].id;
            assert rest[k + 1] == tail[k];
          }
        case Grow =>
          var c := cur.GrownTo(e);
          OutIds(c, tail, i);
          if i > 0 {
            var k :| 0 <= k < |tail| && tail[k].id == ScanFrom(c, tail).out[i].id;
            assert rest[k + 1] == tail[k];
          }
      }
    }
  }

  /** What the next theorem says of one scan. */
  ghost predicate SameIffStable(cur: Region, rest: seq<Region>) {
    && (Stable(cur, rest) ==> Rescan(cur, rest) == ScanFrom(cur, rest))
    && (!Stable(cur, rest) ==> Rescan(cur, rest).out != ScanFrom(cur, rest).out)
  }

  /** A second scan returns the same regions, and leaves the entries alone, exactly when the first was stable. */
  lemma {:induction false} RescanSameIffStable(cur: Region, rest: seq<Region>)
    requires Sorted(rest) && From(cur, rest) && DistinctIds([cur] + rest)
    ensures SameIffStable(cur, rest)
    decreases |rest|
  {
    if rest != [] {
      var e, tail := rest[0], rest[1..];
      var next := match Decide(cur, e) case Append => e case Skip => cur case Grow => cur.GrownTo(e);
      if Decide(cur, e) == Grow { GrowStep(cur, e); }
      DistinctTail(cur, rest, next);
      RescanSameIffStable(next, tail);
      if Decide(cur, e) == Append {
        RescanAppend(cur, rest);
      } else {
        assert forall k :: 0 <= k < |tail| ==> tail[k] == ([cur] + rest)[k + 2];
        assert ([cur] + rest)[1] == e;
        RescanMerge(cur, rest, next);
      }
    }
  }

  lemma RescanAppend(cur: Region, rest: seq<Region>)
    requires rest != [] && Sorted(rest) && From(cur, rest) && Decide(cur, rest[0]) == Append
    requires SameIffStable(rest[0], rest[1..])
    ensures SameIffStable(cur, rest)
  {
    var e, tail := rest[0], rest[1..];
    var t := ScanFrom(e, tail);
    var f := t.stored[0];
    AppendAgainIff(cur, e, tail);
    ScanShape(e, tail);
    assert ([cur] + t.stored)[1..] == t.stored;
    var again := ScanFrom(cur, t.stored);
    if Decide(cur, f) == Append {
      assert again.out == [cur] + Rescan(e, tail).out && again.stored == [cur] + Rescan(e, tail).stored;
      assert again.out[1..] == Rescan(e, tail).out && ([cur] + t.out)[1..] == t.out;
    } else {
      AbsorbsNeighbour(cur, e, tail);
    }
  }

  lemma AbsorbsNeighbour(cur: Region, e: Region, tail: seq<Region>)
    requires Sorted(tail) && From(e, tail) && cur.base <= e.base && Outgrows(cur, e, tail)
    ensures ScanFrom(cur, ScanFrom(e, tail).stored).out[0].size > cur.size
  {
    var stored := ScanFrom(e, tail).stored;
    ReachIsEnd(e, tail);
    ScanShape(e, tail);
    StoredSorted(e, tail);
    GrowStep(cur, stored[0]);
    ScanShape(cur.GrownTo(stored[0]), stored[1..]);
  }

  /** next: the region that took the first entry in. */
  lemma RescanMerge(cur: Region, rest: seq<Region>, next: Region)
    requires rest != [] && Sorted(rest) && From(cur, rest) && Decide(cur, rest[0]) != Append
    requires next == if Decide(cur, rest[0]) == Skip then cur else cur.GrownTo(rest[0])
    requires next.Contains(rest[0]) && From(next, rest[1..]) && SameIffStable(next, rest[1..])
    requires forall k :: 0 <= k < |rest| - 1 ==> rest[1..][k].id != rest[0].id
    ensures SameIffStable(cur, rest)
  {
    var e, tail := rest[0], rest[1..];
    var t := ScanFrom(next, tail);
    var f, more := t.stored[0], t.stored[1..];
    ScanShape(next, tail);
    assert ([f, e] + more)[1..] == [e] + more && ([e] + more)[1..] == more;
    assert f.Contains(e) && t.stored == [f] + more;
    var again := ScanFrom(f, [e] + more);
    if e.IsHint() {
      assert again.out == [f] + ScanFrom(e, more).out;
      HintComesBack(e, tail, next);
    }
  }

  lemma HintComesBack(e: Region, tail: seq<Region>, next: Region)
    requires Sorted(tail) && From(next, tail) && forall k :: 0 <= k < |tail| ==> tail[k].id != e.id
    ensures var t := ScanFrom(next, tail);
            [t.stored[0]] + ScanFrom(e, t.stored[1..]).out != t.out
  {
    var t := ScanFrom(next, tail);
    var again := [t.stored[0]] + ScanFrom(e, t.stored[1..]).out;
    OutIds(e, t.stored[1..], 0);
    if |t.out| > 1 {
      OutIds(next, tail, 1);
      assert again[1].id != t.out[1].id;
    }
  }

  lemma DistinctTail(cur: Region, rest: seq<Region>, next: Region)
    requires rest != [] && DistinctIds([cur] + rest) && (next == rest[0] || next.id == cur.id)
    ensures DistinctIds([next] + rest[1..])
  {
    var a, b := [cur] + rest, [next] + rest[1..];
    assert a[0] == cur && a[1] == rest[0];
    forall i, j | 0 <= i < j < |b| ensures b[i].id != b[j].id {
      assert b[j] == a[j + 1];
      if i > 0 { assert b[i] == a[i + 1]; }
    }
  }

  /** The scan changes sizes only, and only upwards. */
  lemma {:induction false} StoredGrows(cur: Region, rest: seq<Region>)
    requires Sorted(rest) && From(cur, rest)
    ensures var v, s := [cur] + rest, ScanFrom(cur, rest).stored;
            forall i :: 0 <= i < |v| ==> s[i] == v[i].(size := s[i].size) && s[i].size >= v[i].size
    decreases |rest|
  {
    if rest != [] {
      var e, tail := rest[0], rest[1..];
      var next := match Decide(cur, e) case Append => e case Skip => cur case Grow => cur.GrownTo(e);
      if Decide(cur, e) == Grow { GrowStep(cur, e); }
      StoredGrows(next, tail);
      var v, s, t := [cur] + rest, ScanFrom(cur, rest).stored, ScanFrom(next, tail).stored;
      forall i | 0 <= i < |v| ensures s[i] == v[i].(size := s[i].size) && s[i].size >= v[i].size {
        if i >= 2 { assert s[i] == t[i - 1] && v[i] == ([next] + tail)[i - 1]; }
        else { assert t[0] == ([next] + tail)[0].(size := t[0].size); }
      }
    }
  }

  lemma StoredSorted(cur: Region, rest: seq<Region>)
    requires Sorted(rest) && From(cur, rest)
    ensures Sorted(ScanFrom(cur, rest).stored)
  {
    StoredGrows(cur, rest);
    var v, s := [cur] + rest, ScanFrom(cur, rest).stored;
    forall i, j | 0 <= i <= j < |s| ensures s[i].base <= s[j].base {
      assert s[i].base == v[i].base && s[j].base == v[j].base;
    }
  }

  /** Without hint names every scan is stable. */
  lemma {:induction false} NoHintsStable(cur: Region, rest: seq<Region>)
    requires Sorted(rest) && From(cur, rest) && forall e :: e in rest ==> !e.IsHint()
    ensures Stable(cur, rest)
    decreases |rest|
  {
    if rest != [] {
      var e, tail := rest[0], rest[1..];
      var next := match Decide(cur, e) case Append => e case Skip => cur case Grow => cur.GrownTo(e);
      if Decide(cur, e) == Grow { GrowStep(cur, e); }
      NoHintsStable(next, tail);
      ScanShape(next, tail);
    }
  }

  // ---------- the results for a whole list ----------

  lemma ConsolidateStart(v: seq<Region>) returns (s: seq<Region>, cur: Region, rest: seq<Region>)
    requires v != []
    ensures s == SortRegions(v) && s == [cur] + rest && Sorted(rest) && From(cur, rest)
    ensures multiset(s) == multiset(v) && Consolidate(v) == ScanFrom(cur, rest)
    ensures forall e :: e in v <==> e == cur || e in rest
  {
    SortRegionsSorts(v);
    s := SortRegions(v);
    assert |multiset(s)| == |multiset(v)|;
    cur, rest := s[0], s[1..];
    forall e ensures e in v <==> e == cur || e in rest {
      assert e in v <==> e in multiset(v);
      assert e in s <==> e in multiset(s);
    }
  }

  lemma CoveredBySort(v: seq<Region>, s: seq<Region>, attrs: Attributes, x: int)
    requires multiset(s) == multiset(v)
    ensures Covered(s, attrs, x) <==> Covered(v, attrs, x)
  {
    if i :| 0 <= i < |s| && s[i].attrs == attrs && s[i].Has(x) {
      assert s[i] in multiset(v);
      var j :| 0 <= j < |v| && v[j] == s[i];
    }
    if i :| 0 <= i < |v| && v[i].attrs == attrs && v[i].Has(x) {
      assert v[i] in multiset(s);
      var j :| 0 <= j < |s| && s[j] == v[i];
    }
  }

  /** The returned list is sorted by address, every entry lies wholly inside one returned region with
      equal attributes, and regions that are not io cover exactly the union of the entries that
      have their attributes. */
  lemma ConsolidateSound(v: seq<Region>)
    requires v != []
    ensures Sorted(Consolidate(v).out)
    ensures forall e :: e in v ==> exists r :: r in Consolidate(v).out && Within(e, r)
    ensures forall attrs, x: int :: !IsIo(attrs) ==> (Covered(Consolidate(v).out, attrs, x) <==> Covered(v, attrs, x))
  {
    var s, cur, rest := ConsolidateStart(v);
    ScanShape(cur, rest);
    ScanKeepsEntries(cur, rest);
    assert ScanFrom(cur, rest).out[0] in ScanFrom(cur, rest).out;
    forall attrs, x: int | !IsIo(attrs) ensures Covered(Consolidate(v).out, attrs, x) <==> Covered(v, attrs, x) {
      ScanCoversExactly(cur, rest, attrs, x);
      CoveredBySort(v, s, attrs, x);
    }
  }

  /** An io region never fills over the start of an entry with other attributes: where such an entry
      starts inside the region, an entry with the region's own attributes was already there. */
  lemma ConsolidateFillsNoStart(v: seq<Region>, r: Region, d: Region)
    requires v != [] && r in Consolidate(v).out && d in v && d.attrs != r.attrs && r.base < d.base < r.End()
    ensures Covered(v, r.attrs, d.base)
  {
    var s, cur, rest := ConsolidateStart(v);
    ScanShape(cur, rest);
    CoveredBySort(v, s, r.attrs, d.base);
    var i :| 0 <= i < |Consolidate(v).out| && Consolidate(v).out[i] == r;
    assert Consolidate(v).out[0].base <= Consolidate(v).out[i].base;
    ScanFillsNoStart(cur, cur, rest, r, d);
  }

  /** What a consolidation leaves stored: the entries in address order, only sizes changed and only
      upwards, still covering the same addresses outside io. */
  lemma ConsolidateStored(v: seq<Region>)
    requires v != []
    ensures var s, t := SortRegions(v), Consolidate(v).stored;
            && |s| == |t| && Sorted(t) && SortRegions(t) == t
            && (forall i :: 0 <= i < |s| ==> t[i] == s[i].(size := t[i].size) && t[i].size >= s[i].size)
    ensures forall attrs, x: int :: !IsIo(attrs) ==>
              (Covered(Consolidate(v).stored, attrs, x) <==> Covered(v, attrs, x))
  {
    var s, cur, rest := ConsolidateStart(v);
    StoredGrows(cur, rest);
    StoredSorted(cur, rest);
    SortOfSorted(Consolidate(v).stored);
    forall attrs, x: int | !IsIo(attrs) ensures Covered(Consolidate(v).stored, attrs, x) <==> Covered(v, attrs, x) {
      StoredCoversExactly(cur, rest, attrs, x);
      CoveredBySort(v, s, attrs, x);
    }
  }

  /** Every region returned is one of the stored entries. */
  lemma {:induction false} OutIsStored(cur: Region, rest: seq<Region>)
    requires Sorted(rest) && From(cur, rest)
    ensures forall r :: r in ScanFrom(cur, rest).out ==> r in ScanFrom(cur, rest).stored
    decreases |rest|
  {
    if rest != [] {
      var e, tail := rest[0], rest[1..];
      if Decide(cur, e) == Grow { GrowStep(cur, e); }
      var next := match Decide(cur, e) case Append => e case Skip => cur case Grow => cur.GrownTo(e);
      OutIsStored(next, tail);
      var t, all := ScanFrom(next, tail), ScanFrom(cur, rest);
      forall r | r in all.out ensures r in all.stored {
        if r in t.out {
          var i :| 0 <= i < |t.stored| && t.stored[i] == r;
          assert all.stored[if i == 0 && Decide(cur, e) != Append then 0 else i + 1] == r;
        } else {
          assert all.stored[0] == r;
        }
      }
    }
  }

  lemma ReturnedIsStored(v: seq<Region>, r: Region)
    requires v != [] && r in Consolidate(v).out
    ensures Consolidate(v).stored != [] && r in Consolidate(v).stored
  {
    var s, cur, rest := ConsolidateStart(v);
    OutIsStored(cur, rest);
  }

  predicate StableList(v: seq<Region>)
    requires v != []
  {
    SortRegionsSorts(v);
    assert |multiset(SortRegions(v))| == |multiset(v)|;
    Stable(SortRegions(v)[0], SortRegions(v)[1..])
  }

  /** Consolidating a second time, with nothing added, returns the same regions exactly when no
      hint-named entry was merged and no region set apart grew out of its neighbour. */
  lemma ConsolidateTwice(v: seq<Region>)
    requires v != [] && DistinctIds(SortRegions(v))
    ensures Consolidate(v).stored != []
    ensures Consolidate(Consolidate(v).stored).out == Consolidate(v).out <==> StableList(v)
    ensures StableList(v) ==> Consolidate(Consolidate(v).stored) == Consolidate(v)
  {
    var s, cur, rest := ConsolidateStart(v);
    ConsolidateStored(v);
    RescanSameIffStable(cur, rest);
  }

  /** In particular when no entry's name starts with "pma_". */
  lemma ConsolidateTwiceWithoutHints(v: seq<Region>)
    requires v != [] && DistinctIds(SortRegions(v)) && forall e :: e in v ==> |e.name| < 4 || e.name[..4] != "pma_"
    ensures Consolidate(v).stored != []
    ensures Consolidate(Consolidate(v).stored) == Consolidate(v)
  {
    var s, cur, rest := ConsolidateStart(v);
    NoHintsStable(cur, rest);
    ConsolidateTwice(v);
  }

  const PLAIN: Attributes := Attributes("memory", "arithmetic", "cacheable", "noncombining", "coherent", true, true,
                                        true)

  /** A region whose name starts with "pma_" next to a plain one is merged by the first consolidation and set apart by
      the second. */
  lemma HintSplitsOnSecondLook(rest: string)
    ensures var v := [Region(0, "", PLAIN, 0x1000, 0x1000), Region(1, "pma_" + rest, PLAIN, 0x2000, 0x1000)];
            && |Consolidate(v).out| == 1
            && Consolidate(v).stored != []
            && |Consolidate(Consolidate(v).stored).out| == 2
  {
    var a, b := Region(0, "", PLAIN, 0x1000, 0x1000), Region(1, "pma_" + rest, PLAIN, 0x2000, 0x1000);
    assert "pma_" <= b.name;
    var g := a.GrownTo(b);
    TwoMerge(a, b, g);
    SortOfSorted([g, b]);
    assert [g, b][1..] == [b];
    assert ScanFrom(b, []) == Scan([b], [b]);
    assert Consolidate([g, b]).out == [g, b];
  }

  /** The no-fill property needs fresh entries: after a lookup has merged two io entries, a memory
      region added between them starts inside the io region although no io entry was there. */
  lemma LaterEntryIsFilledOver()
    ensures var io := PLAIN.(memoryType := "io");
            var v := [Region(0, "", io, 0x0, 0x1000), Region(1, "", io, 0x9000, 0x1000)];
            var m := Region(2, "", PLAIN, 0x4000, 0x1000);
            exists r :: r in Consolidate(Consolidate(v).stored + [m]).out && r.attrs == io
                        && r.base < m.base < r.End() && !Covered(v + [m], io, m.base)
  {
    var io := PLAIN.(memoryType := "io");
    var a, b := Region(0, "", io, 0x0, 0x1000), Region(1, "", io, 0x9000, 0x1000);
    var m := Region(2, "", PLAIN, 0x4000, 0x1000);
    var g := a.GrownTo(b);
    TwoMerge(a, b, g);
    FilledOver(g, m, b);
  }

  lemma TwoMerge(a: Region, b: Region, g: Region)
    requires a.base <= b.base && Decide(a, b) == Grow && g == a.GrownTo(b)
    ensures Consolidate([a, b]) == Scan([g], [g, b])
  {
    SortOfSorted([a, b]);
    assert [a, b][1..] == [b] && [b][1..] == [];
    assert ScanFrom(g, []) == Scan([g], [g]);
    assert ScanFrom(a, [b]) == Scan([g], [g, b]);
  }

  /** A region of these attributes reaches over x from the left, where no entry with them starts. */
  ghost predicate ReachesOver(v: seq<Region>, attrs: Attributes, x: nat)
    requires v != []
  {
    && (forall e :: e in v ==> !(e.attrs == attrs && e.base == x))
    && exists r :: r in Consolidate(v).out && r.attrs == attrs && r.base < x < r.End()
  }

  /** Exactly when that happens to a later addition: a lookup has left `stored`; once d is added, a region of other
      attributes reaches over its start exactly when a stored entry already does, as the lookup left it. */
  lemma LaterEntryIsFilledOverIff(stored: seq<Region>, d: Region, attrs: Attributes)
    requires d.attrs != attrs
    ensures ReachesOver(stored + [d], attrs, d.base) <==>
              && (forall e :: e in stored ==> !(e.attrs == attrs && e.base == d.base))
              && exists e :: e in stored && e.attrs == attrs && e.base < d.base < e.End()
  {
    var v := stored + [d];
    ConsolidateSound(v);
    if ReachesOver(v, attrs, d.base) {
      var r :| r in Consolidate(v).out && r.attrs == attrs && r.base < d.base < r.End();
      assert d in v;
      ConsolidateFillsNoStart(v, r, d);
    }
    if e :| e in stored && e.attrs == attrs && e.base < d.base < e.End() {
      assert e in v;
      var r :| r in Consolidate(v).out && Within(e, r);
    }
  }

  lemma FilledOver(g: Region, m: Region, b: Region)
    requires g.base < m.base < b.base <= g.End() && g.attrs != m.attrs
    ensures g in Consolidate([g, b] + [m]).out
  {
    var w := [g, b] + [m];
    SortOfSorted([g, b]);
    assert w[..2] == [g, b];
    InsertMiddle(g, b, m);
    assert SortRegions(w) == [g, m, b];
    assert [g, m, b][1..] == [m, b];
    assert ScanFrom(g, [m, b]).out == [g] + ScanFrom(m, [m, b][1..]).out;
    assert Consolidate(w).out[0] == g;
  }
}
