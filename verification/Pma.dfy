/** PMA entries and the region list that merges them in place (riescue/dtest_framework/lib/pma.py). */
module Pma {
  import opened PmaScan

  class PmaInfo {
    const id: nat
    const name: string
    const attrs: Attributes
    const base: nat
    var size: nat

    constructor (id: nat, name: string, attrs: Attributes, base: nat, size: nat)
      ensures Value() == Region(id, name, attrs, base, size)
    {
      this.id, this.name, this.attrs, this.base, this.size := id, name, attrs, base, size;
    }

    function Value(): Region
      reads this
    {
      Region(id, name, attrs, base, size)
    }
  }

  /** The values held by a list of entries. */
  function Values(s: seq<PmaInfo>): (v: seq<Region>)
    reads s
    ensures |v| == |s| && forall i :: 0 <= i < |s| ==> v[i] == s[i].Value()
  {
    seq(|s|, i requires 0 <= i < |s| reads s => s[i].Value())
  }

  lemma ValuesSnoc(s: seq<PmaInfo>, e: PmaInfo)
    ensures Values(s + [e]) == Values(s) + [e.Value()]
  {}

  lemma MultisetSnoc(s: seq<PmaInfo>, i: nat)
    requires i < |s|
    ensures multiset(s[..i + 1]) == multiset(s[..i]) + multiset{s[i]}
  {
    assert s[..i + 1] == s[..i] + [s[i]];
  }

  ghost predicate Distinct(s: seq<PmaInfo>) { forall i, j :: 0 <= i < j < |s| ==> s[i] != s[j] && s[i].id != s[j].id }

  predicate StoredIn(s: seq<PmaInfo>, e: PmaInfo) { exists i :: 0 <= i < |s| && (s[i] == e || s[i].id == e.id) }

  lemma DistinctSnoc(s: seq<PmaInfo>, e: PmaInfo)
    requires Distinct(s)
    ensures Distinct(s + [e]) <==> !StoredIn(s, e)
  {
    var t := s + [e];
    if i :| 0 <= i < |s| && (s[i] == e || s[i].id == e.id) {
      assert t[i] == s[i] && t[|s|] == e;
    }
  }

  /** Region k is the first with the address. */
  ghost predicate FirstWith(v: seq<Region>, address: int, k: int) {
    0 <= k < |v| && v[k].Has(address) && forall j :: 0 <= j < k ==> !v[j].Has(address)
  }

  ghost predicate IsFirstWith(v: seq<Region>, address: int, r: Region) {
    exists k :: FirstWith(v, address, k) && v[k] == r
  }

  class PmaRegion {
    var entries: seq<PmaInfo>
    /** Every region ever added, as it was when added. */
    ghost var added: seq<Region>

    /** The stored entries still contain everything that was added, and outside io nothing more. */
    ghost predicate Valid()
      reads this, entries
    {
      && Distinct(entries)
      && (forall a :: a in added ==> exists e :: e in Values(entries) && Within(a, e))
      && (forall attrs, x: int :: !IsIo(attrs) ==> (Covered(Values(entries), attrs, x) <==> Covered(added, attrs, x)))
      && (NoIo(added) ==> NoIo(Values(entries)))
    }

    constructor ()
      ensures Valid() && entries == [] && added == []
    {
      entries, added := [], [];
    }

    /** add_entry. The list is one the other operations take unless the object was stored before. */
    method AddEntry(e: PmaInfo)
      requires Valid()
      modifies this
      ensures entries == old(entries) + [e] && added == old(added) + [e.Value()]
      ensures Valid() <==> !StoredIn(old(entries), e)
    {
      DistinctSnoc(entries, e);
      ghost var v := Values(entries);
      entries := entries + [e];
      added := added + [e.Value()];
      assert Values(entries) == v + [e.Value()];
      forall a | a in added ensures exists r :: r in Values(entries) && Within(a, r) {
        if a in old(added) { var r :| r in v && Within(a, r); assert r in Values(entries); }
        else { assert e.Value() in Values(entries); }
      }
      if NoIo(added) { NoIoSnoc(old(added), e.Value()); NoIoSnoc(v, e.Value()); }
      forall attrs, x: int
        ensures Covered(Values(entries), attrs, x) <==> (e.attrs == attrs && e.Value().Has(x)) || Covered(v, attrs, x)
      {
        CoveredSnoc(v, e.Value(), attrs, x);
      }
      forall attrs, x: int
        ensures Covered(added, attrs, x) <==> (e.attrs == attrs && e.Value().Has(x)) || Covered(old(added), attrs, x)
      {
        CoveredSnoc(old(added), e.Value(), attrs, x);
      }
    }

    /** self._entries.sort(key=...), by insertion. */
    method SortByAddress()
      requires Distinct(entries)
      modifies this`entries
      ensures multiset(entries) == multiset(old(entries)) && Distinct(entries)
      ensures Values(entries) == SortRegions(old(Values(entries)))
    {
      var sorted := SortEntries(entries);
      DistinctByMultiset(entries, sorted);
      entries := sorted;
    }

    static method SortEntries(s: seq<PmaInfo>) returns (r: seq<PmaInfo>)
      ensures multiset(r) == multiset(s) && Values(r) == SortRegions(Values(s))
    {
      ghost var v := Values(s);
      r := [];
      for i := 0 to |s|
        invariant multiset(r) == multiset(s[..i]) && Values(r) == SortRegions(v[..i])
      {
        SortSnoc(v, i);
        MultisetSnoc(s, i);
        ghost var before := r;
        r := InsertEntry(r, s[i]);
        assert Values(r) == SortRegions(v[..i + 1]) by { assert v[i] == s[i].Value(); }
      }
      assert v[..|s|] == v && s[..|s|] == s;
    }

    static method InsertEntry(s: seq<PmaInfo>, e: PmaInfo) returns (r: seq<PmaInfo>)
      ensures multiset(r) == multiset(s) + multiset{e}
      ensures Values(r) == Insert(Values(s), e.Value())
    {
      if s == [] || s[|s| - 1].base <= e.base {
        r := s + [e];
        ValuesSnoc(s, e);
      } else {
        var init, last := s[..|s| - 1], s[|s| - 1];
        r := InsertEntry(init, e);
        assert s == init + [last];
        ValuesSnoc(init, last);
        ValuesSnoc(r, last);
        ghost var v := Values(s);
        assert v[..|v| - 1] == Values(init);
        r := r + [last];
      }
    }

    /** consolidated_entries: sorts the stored entries and merges neighbours, growing the stored
        objects themselves. It raises on an empty list. */
    method ConsolidatedEntries() returns (raised: bool, out: seq<PmaInfo>)
      requires Valid()
      modifies this`entries, entries
      ensures Valid() && added == old(added) && multiset(entries) == multiset(old(entries))
      ensures raised <==> old(entries) == []
      ensures !raised ==>
                && Values(out) == Consolidate(old(Values(entries))).out
                && Values(entries) == Consolidate(old(Values(entries))).stored
      ensures forall e :: e in out ==> e in entries
      ensures forall e :: e in old(entries) ==> e.size >= old(e.size)
    {
      if entries == [] { return true, []; }
      ghost var v := Values(entries);
      out := SortAndMerge();
      KeepsAdded(v, Values(entries), added);
      raised := false;
    }

    method SortAndMerge() returns (out: seq<PmaInfo>)
      requires entries != [] && Distinct(entries)
      modifies this`entries, entries
      ensures Distinct(entries) && multiset(entries) == multiset(old(entries))
      ensures Values(out) == Consolidate(old(Values(entries))).out
      ensures Values(entries) == Consolidate(old(Values(entries))).stored
      ensures forall e :: e in out ==> e in entries
      ensures forall e :: e in old(entries) ==> e.size >= old(e.size)
    {
      ghost var v, before := Values(entries), entries;
      SortByAddress();
      assert Sorted(Values(entries)) && entries != [] by { SortRegionsSorts(v); }
      SameMembers(before, entries);
      assert forall k :: 0 <= k < |entries| ==> entries[k] in before;
      out := MergeSorted(entries);
    }

    /** find_region_for_address. Over any run of adds and lookups it finds a region for every address of an
        added entry, and when no io entry was added it finds one for no other address. */
    method FindRegionForAddress(address: int) returns (raised: bool, region: PmaInfo?)
      requires Valid()
      modifies this`entries, entries
      ensures Valid() && added == old(added) && multiset(entries) == multiset(old(entries))
      ensures raised <==> old(entries) == []
      ensures raised ==> added == []
      ensures region != null ==> region in entries && region.Value().Has(address)
      ensures !raised ==> (region != null <==> exists r :: r in Consolidate(old(Values(entries))).out && r.Has(address))
      // of overlapping regions it is the first, in address order
      ensures region != null ==> IsFirstWith(Consolidate(old(Values(entries))).out, address, region.Value())
      ensures !raised ==> Sorted(Consolidate(old(Values(entries))).out)
      ensures (exists a :: a in added && a.Has(address)) ==> region != null
      ensures NoIo(added) ==> (region != null <==> exists a :: a in added && a.Has(address))
    {
      ghost var v := Values(entries);
      if added != [] { AddedMeansStored(v, added); }
      var regions;
      raised, regions := ConsolidatedEntries();
      region := null;
      if raised { return; }
      FoundIfAdded(v, added, address);
      if NoIo(added) { AddedIfFound(v, added, address); }
      ConsolidateSound(v);
      region := FirstHolding(regions, address);
    }

    /** Its loop over the regions. */
    static method FirstHolding(regions: seq<PmaInfo>, address: int) returns (region: PmaInfo?)
      ensures region != null ==> region in regions && region.Value().Has(address)
      ensures region != null <==> exists r :: r in Values(regions) && r.Has(address)
      ensures region != null ==> IsFirstWith(Values(regions), address, region.Value())
    {
      var i := 0;
      while i < |regions|
        invariant 0 <= i <= |regions|
        invariant forall k :: 0 <= k < i ==> !regions[k].Value().Has(address)
      {
        if regions[i].Value().Has(address) {
          assert Values(regions)[i] in Values(regions) && FirstWith(Values(regions), address, i);
          return regions[i];
        }
        i := i + 1;
      }
      return null;
    }

    /** The merging loop over sorted entries, the stored objects grown in place. */
    static method MergeSorted(s: seq<PmaInfo>) returns (c: seq<PmaInfo>)
      requires s != [] && Distinct(s) && Sorted(Values(s))
      modifies s
      ensures var v := old(Values(s));
              Values(c) == ScanFrom(v[0], v[1..]).out && Values(s) == ScanFrom(v[0], v[1..]).stored
      ensures forall e :: e in c ==> e in s
      ensures forall e :: e in s ==> e.size >= old(e.size)
    {
      ghost var v := Values(s);
      c := MergeLoop(s);
      ghost var stored := Values(s);
      OnlyGrown(v, stored);
      forall e | e in s ensures e.size >= old(e.size) {
        var k :| 0 <= k < |s| && s[k] == e;
        assert e.size == stored[k].size && v[k].size == old(e.size);
      }
    }

    static method MergeLoop(s: seq<PmaInfo>) returns (c: seq<PmaInfo>)
      requires s != [] && Distinct(s) && Sorted(Values(s))
      modifies s
      ensures var v := old(Values(s));
              Values(c) == ScanFrom(v[0], v[1..]).out && Values(s) == ScanFrom(v[0], v[1..]).stored
      ensures forall e :: e in c ==> e in s
    {
      ghost var v := Values(s);
      ghost var p, li := Progress([], [], [], v[0], v[1..]), 0;
      ghost var whole := ScanFrom(v[0], v[1..]);
      TracksAtStart(s, v);
      c := [s[0]];
      var i := 1;
      while i < |s|
        invariant 1 <= i <= |s| && Tracks(s, c, li, i, p, v)
        invariant p.Total() == whole
      {
        p.StepKeepsTotal();
        ghost var q := p.Step();
        assert q.Total() == whole;
        c, li, p := MergeOne(s, c, i, li, p, v);
        i := i + 1;
      }
      TracksAtEnd(s, c, li, i, p, v);
    }

    /** One turn of the loop. */
    static method MergeOne(s: seq<PmaInfo>, c: seq<PmaInfo>, i: nat, ghost li: nat, ghost p: Progress,
                           ghost v: seq<Region>)
      returns (c': seq<PmaInfo>, ghost li': nat, ghost q: Progress)
      requires 0 < i < |s| && Distinct(s) && Sorted(v) && Tracks(s, c, li, i, p, v)
      modifies s
      ensures p.rest != [] && q == p.Step()
      ensures Tracks(s, c', li', i + 1, q, v)
    {
      var last, entry := c[|c| - 1], s[i];
      assert p.rest[0] == v[i] == entry.Value() && last.Value() == p.cur;
      q := p.Step();
      li', c' := li, c;
      if !AttribMatches(last.attrs, entry.attrs) {
        AppendTracks(s, c, li, i, p, v);
        c', li' := c + [entry], i;
      } else if last.Value().Contains(entry.Value()) {
        if entry.Value().IsHint() {
          AppendTracks(s, c, li, i, p, v);
          c', li' := c + [entry], i;
        } else {
          SkipTracks(s, c, li, i, p, v);
        }
      } else if last.Value().End() == entry.base {
        GrowLast(s, c, i, li, p, v, last.size + entry.size);
      } else if IsIo(last.attrs) {
        GrowLast(s, c, i, li, p, v, last.size + (entry.base - (last.base + last.size)) + entry.size);
      } else {
        AppendTracks(s, c, li, i, p, v);
        c', li' := c + [entry], i;
      }
    }

    static method GrowLast(s: seq<PmaInfo>, c: seq<PmaInfo>, i: nat, ghost li: nat, ghost p: Progress,
                           ghost v: seq<Region>, size: nat)
      requires 0 < i < |s| && Distinct(s) && Sorted(v) && Tracks(s, c, li, i, p, v)
      requires p.rest != [] && Decide(p.cur, p.rest[0]) == Grow && size == p.cur.GrownTo(p.rest[0]).size
      modifies s
      ensures Tracks(s, c, li, i + 1, p.Step(), v)
    {
      var last := c[|c| - 1];
      last.size := size;
    }
  }

  lemma AppendTracks(s: seq<PmaInfo>, c: seq<PmaInfo>, li: nat, i: nat, p: Progress, v: seq<Region>)
    requires 0 < i < |s| && Distinct(s) && Sorted(v) && Tracks(s, c, li, i, p, v)
    requires p.rest != [] && Decide(p.cur, p.rest[0]) == Append
    ensures Tracks(s, c + [s[i]], i, i + 1, p.Step(), v)
  {}

  lemma SkipTracks(s: seq<PmaInfo>, c: seq<PmaInfo>, li: nat, i: nat, p: Progress, v: seq<Region>)
    requires 0 < i < |s| && Distinct(s) && Sorted(v) && Tracks(s, c, li, i, p, v)
    requires p.rest != [] && Decide(p.cur, p.rest[0]) == Skip
    ensures Tracks(s, c, li, i + 1, p.Step(), v)
  {}

  /** The objects hold what the merging loop's progress says; `li` is the position of the last region. */
  ghost predicate Tracks(s: seq<PmaInfo>, c: seq<PmaInfo>, li: nat, i: nat, p: Progress, v: seq<Region>)
    reads s, c
  {
    && li < i <= |s| == |v| && |p.stored| == li && |p.absorbed| == i - 1 - li && |c| == |p.out| + 1
    && p.rest == v[i..] && p.cur.base == v[li].base
    && c[|c| - 1] == s[li] && s[li].Value() == p.cur
    && (forall k :: 0 <= k < |p.out| ==> c[k] in s[..li] && c[k].Value() == p.out[k])
    && (forall k :: 0 <= k < li ==> s[k].Value() == p.stored[k])
    && (forall k :: li < k < i ==> s[k].Value() == p.absorbed[k - li - 1])
    && (forall k :: i <= k < |s| ==> s[k].Value() == v[k])
  }

  lemma TracksAtStart(s: seq<PmaInfo>, v: seq<Region>)
    requires s != [] && v == Values(s)
    ensures var p := Progress([], [], [], v[0], v[1..]);
            Tracks(s, [s[0]], 0, 1, p, v) && p.Total() == ScanFrom(v[0], v[1..])
  {
    var scan := ScanFrom(v[0], v[1..]);
    assert [] + scan.out == scan.out;
    assert [] + [scan.stored[0]] + [] + scan.stored[1..] == scan.stored;
  }

  lemma TracksAtEnd(s: seq<PmaInfo>, c: seq<PmaInfo>, li: nat, i: nat, p: Progress, v: seq<Region>)
    requires i == |s| && Tracks(s, c, li, i, p, v)
    ensures Values(c) == p.Total().out && Values(s) == p.Total().stored
    ensures forall e :: e in c ==> e in s
  {
    assert p.rest == [];
    var out, stored := Values(c), Values(s);
    assert p.Total().out == p.out + [p.cur];
    assert p.Total().stored == p.stored + [p.cur] + p.absorbed;
    assert forall k :: 0 <= k < |out| ==> out[k] == c[k].Value();
    assert forall k :: 0 <= k < |stored| ==> stored[k] == s[k].Value();
    assert out == p.out + [p.cur];
    assert stored == p.stored + [p.cur] + p.absorbed;
  }

  /** How far the merging loop has come: regions and entries already final, entries absorbed by the last
      region, that region as grown so far, and the entries still to come. */
  datatype Progress = Progress(out: seq<Region>, stored: seq<Region>, absorbed: seq<Region>, cur: Region,
                               rest: seq<Region>)
  {
    /** What the whole scan will return and leave. */
    ghost function Total(): Scan {
      var s := ScanFrom(cur, rest);
      Scan(out + s.out, stored + [s.stored[0]] + absorbed + s.stored[1..])
    }

    ghost function Step(): Progress
      requires rest != []
    {
      var e := rest[0];
      match Decide(cur, e)
      case Append => Progress(out + [cur], stored + [cur] + absorbed, [], e, rest[1..])
      case Skip => Progress(out, stored, absorbed + [e], cur, rest[1..])
      case Grow => Progress(out, stored, absorbed + [e], cur.GrownTo(e), rest[1..])
    }

    lemma StepKeepsTotal()
      requires rest != []
      ensures Step().Total() == Total()
    {
      var e, q := rest[0], Step();
      var s, t := ScanFrom(cur, rest), ScanFrom(q.cur, q.rest);
      if Decide(cur, e) == Append {
        assert s.out == [cur] + t.out && s.stored == [cur] + t.stored;
        Regroup(out, [cur], t.out);
        RegroupStored(stored, cur, absorbed, t.stored);
      } else {
        assert s.out == t.out && s.stored == [t.stored[0], e] + t.stored[1..];
        assert s.stored[1..] == [e] + t.stored[1..];
        Regroup(stored + [t.stored[0]] + absorbed, [e], t.stored[1..]);
        assert stored + [t.stored[0]] + (absorbed + [e]) == (stored + [t.stored[0]] + absorbed) + [e];
      }
    }
  }

  lemma OnlyGrown(v: seq<Region>, stored: seq<Region>)
    requires v != [] && Sorted(v) && stored == ScanFrom(v[0], v[1..]).stored
    ensures |stored| == |v| && forall k :: 0 <= k < |v| ==> stored[k].size >= v[k].size
  {
    StoredGrows(v[0], v[1..]);
    assert v == [v[0]] + v[1..];
  }

  lemma Regroup(a: seq<Region>, b: seq<Region>, c: seq<Region>)
    ensures a + (b + c) == (a + b) + c
  {}

  lemma RegroupStored(stored: seq<Region>, cur: Region, absorbed: seq<Region>, t: seq<Region>)
    requires t != []
    ensures stored + [([cur] + t)[0]] + absorbed + ([cur] + t)[1..] == (stored + [cur] + absorbed) + [t[0]] + [] +
              t[1..]
  {
    assert ([cur] + t)[1..] == t == [t[0]] + t[1..];
    Regroup(stored + [cur] + absorbed, [t[0]], t[1..]);
  }

  lemma SortSnoc(v: seq<Region>, i: nat)
    requires i < |v|
    ensures SortRegions(v[..i + 1]) == Insert(SortRegions(v[..i]), v[i])
  {
    assert v[..i + 1][..i] == v[..i];
  }

  lemma KeepsAdded(v: seq<Region>, w: seq<Region>, added: seq<Region>)
    requires v != [] && w == Consolidate(v).stored
    requires forall a :: a in added ==> exists e :: e in v && Within(a, e)
    requires forall attrs, x: int :: !IsIo(attrs) ==> (Covered(v, attrs, x) <==> Covered(added, attrs, x))
    requires NoIo(added) ==> NoIo(v)
    ensures NoIo(added) ==> NoIo(w)
    ensures forall a :: a in added ==> exists e :: e in w && Within(a, e)
    ensures forall attrs, x: int :: !IsIo(attrs) ==> (Covered(w, attrs, x) <==> Covered(added, attrs, x))
  {
    ConsolidateStored(v);
    forall a | a in added ensures exists e :: e in w && Within(a, e) {
      var e :| e in v && Within(a, e);
      StoredKeepsEntry(v, w, e, a);
    }
    if NoIo(v) { StoredKeepsNoIo(v, w); }
  }

  /** A stored entry keeps what it contained. */
  lemma StoredKeepsEntry(v: seq<Region>, w: seq<Region>, e: Region, a: Region)
    requires v != [] && w == Consolidate(v).stored && e in v && Within(a, e)
    ensures exists f :: f in w && Within(a, f)
  {
    ConsolidateStored(v);
    var s, cur, rest := ConsolidateStart(v);
    assert e in s;
    var i :| 0 <= i < |s| && s[i] == e;
    assert w[i] in w && Within(a, w[i]);
  }

  lemma StoredKeepsNoIo(v: seq<Region>, w: seq<Region>)
    requires v != [] && w == Consolidate(v).stored && NoIo(v)
    ensures NoIo(w)
  {
    ConsolidateStored(v);
    var s, cur, rest := ConsolidateStart(v);
    forall i | 0 <= i < |w| ensures !IsIo(w[i].attrs) {
      assert s[i] in v;
      var j :| 0 <= j < |v| && v[j] == s[i];
    }
  }

  /** What the returned regions say about an address, in terms of what was added. */
  lemma FoundIfAdded(v: seq<Region>, added: seq<Region>, address: int)
    requires v != []
    requires forall a :: a in added ==> exists e :: e in v && Within(a, e)
    ensures (exists a :: a in added && a.Has(address)) ==> exists r :: r in Consolidate(v).out && r.Has(address)
  {
    if a :| a in added && a.Has(address) {
      ConsolidateSound(v);
      var e :| e in v && Within(a, e);
      var r :| r in Consolidate(v).out && Within(e, r);
      assert r.Has(address);
    }
  }

  lemma AddedMeansStored(v: seq<Region>, added: seq<Region>)
    requires added != [] && forall a :: a in added ==> exists e :: e in v && Within(a, e)
    ensures v != []
  {
    assert added[0] in added;
  }

  lemma AddedIfFound(v: seq<Region>, added: seq<Region>, address: int)
    requires v != [] && NoIo(v)
    requires forall attrs, x: int :: !IsIo(attrs) ==> (Covered(v, attrs, x) <==> Covered(added, attrs, x))
    ensures (exists r :: r in Consolidate(v).out && r.Has(address)) ==> exists a :: a in added && a.Has(address)
  {
    if r :| r in Consolidate(v).out && r.Has(address) {
      ConsolidateSound(v);
      var s, cur, rest := ConsolidateStart(v);
      assert cur in v && forall e :: e in rest ==> e in v;
      ScanNoIo(cur, rest, r);
      var i :| 0 <= i < |Consolidate(v).out| && Consolidate(v).out[i] == r;
      assert Covered(Consolidate(v).out, r.attrs, address);
      assert Covered(added, r.attrs, address);
    }
  }

  ghost predicate NoIo(v: seq<Region>) { forall i :: 0 <= i < |v| ==> !IsIo(v[i].attrs) }

  lemma NoIoSnoc(v: seq<Region>, e: Region)
    ensures NoIo(v + [e]) <==> NoIo(v) && !IsIo(e.attrs)
  {
    var w := v + [e];
    if NoIo(w) {
      assert w[|v|] == e;
      assert forall i :: 0 <= i < |v| ==> v[i] == w[i];
    }
  }

  lemma {:induction false} ScanNoIo(cur: Region, rest: seq<Region>, r: Region)
    requires !IsIo(cur.attrs) && (forall e :: e in rest ==> !IsIo(e.attrs)) && r in ScanFrom(cur, rest).out
    ensures !IsIo(r.attrs)
    decreases |rest|
  {
    if rest != [] && r != cur {
      ScanNoIo(match Decide(cur, rest[0]) case Append => rest[0] case Skip => cur case Grow => cur.GrownTo(rest[0]),
               rest[1..], r);
    }
  }

  lemma CoveredSnoc(v: seq<Region>, e: Region, attrs: Attributes, x: int)
    ensures Covered(v + [e], attrs, x) <==> (e.attrs == attrs && e.Has(x)) || Covered(v, attrs, x)
  {
    var w := v + [e];
    if e.attrs == attrs && e.Has(x) { assert w[|v|].attrs == attrs && w[|v|].Has(x); }
    if i :| 0 <= i < |v| && v[i].attrs == attrs && v[i].Has(x) { assert w[i] == v[i]; }
  }

  /** Distinctness survives reordering. */
  lemma DistinctByMultiset(s: seq<PmaInfo>, t: seq<PmaInfo>)
    requires Distinct(s) && multiset(s) == multiset(t)
    ensures Distinct(t)
  {
    forall i, j | 0 <= i < j < |t| ensures t[i] != t[j] && t[i].id != t[j].id {
      MultisetTwice(t, i, j);
      assert t[i] in multiset(s) && t[j] in multiset(s);
      var a :| 0 <= a < |s| && s[a] == t[i];
      var b :| 0 <= b < |s| && s[b] == t[j];
      if t[i] == t[j] { DistinctOnce(s, a); }
    }
  }

  lemma SameMembers(s: seq<PmaInfo>, t: seq<PmaInfo>)
    requires multiset(s) == multiset(t)
    ensures forall e :: e in t <==> e in s
  {
    forall e ensures e in t <==> e in s {
      assert e in t <==> e in multiset(t);
      assert e in s <==> e in multiset(s);
    }
  }

  lemma MultisetTwice(t: seq<PmaInfo>, i: nat, j: nat)
    requires i < j < |t|
    ensures t[i] == t[j] ==> multiset(t)[t[i]] >= 2
  {
    assert t == t[..j] + [t[j]] + t[j + 1..];
    assert t[i] in t[..j];
  }

  lemma DistinctOnce(s: seq<PmaInfo>, a: nat)
    requires Distinct(s) && a < |s|
    ensures multiset(s)[s[a]] == 1
  {
    assert s == s[..a] + [s[a]] + s[a + 1..];
    assert s[a] !in s[..a] && s[a] !in s[a + 1..];
  }
}
