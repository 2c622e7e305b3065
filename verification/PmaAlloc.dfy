/** Addresses inside PMA regions and the pre-allocation of regions under a slot limit
    (riescue/dtest_framework/generator/generator.py). */
module PmaAlloc {
  import opened Bits
  import opened PmaScan
  import opened Pma
  import opened Wrappers

  // ---------- an address inside a region ----------

  lemma AlignedDownValue(x: nat, k: nat)
    requires x < WORD && k <= 64
    ensures Pow2(k) <= WORD
    ensures And(x, WORD - Pow2(k)) == x - Low(x, k) && Low(x, k) < Pow2(k)
    ensures Low(x, k) <= x && Aligned(x - Low(x, k), k)
  {
    var n := WordIsPow2();
    MaskedDown(x, n, k);
    RoundedDown(x, k);
  }

  lemma MaskedDown(x: nat, n: nat, k: nat)
    requires x < Pow2(n) && k <= n
    ensures Pow2(k) <= Pow2(n) && And(x, Pow2(n) - Pow2(k)) == x - Low(x, k)
  {
    AndMask(x, n, k);
    LowOfSmall(x, n);
  }

  lemma RoundedDown(x: nat, k: nat)
    ensures Low(x, k) < Pow2(k) && Low(x, k) <= x && Aligned(x - Low(x, k), k)
  {
    Split(x, k);
    SplitUnique(x - Low(x, k), k, Shr(x, k), 0);
  }

  /** An aligned number below x is at most x rounded down. */
  lemma RoundDownIsLargest(x: nat, base: nat, k: nat)
    requires base <= x && Aligned(base, k)
    ensures base <= x - Low(x, k)
  {
    Split(x, k);
    Split(base, k);
    if Shr(x, k) < Shr(base, k) {
      MulMono(Pow2(k), Shr(x, k) + 1, Shr(base, k));
      MulSucc(Pow2(k), Shr(x, k));
    }
    MulMono(Pow2(k), Shr(base, k), Shr(x, k));
  }

  lemma RecoveryParts(n: nat, k: nat, base: nat)
    requires k <= n && base < Pow2(n)
    ensures Pow2(k) <= Pow2(n)
    ensures var x := base + (Pow2(n) - Pow2(k));
            Low(x, k) == Low(base, k) && Shr(x, n) == if base < Pow2(k) then 0 else 1
  {
    Pow2Order(k, n);
    var x := base + (Pow2(n) - Pow2(k));
    Split(base, k);
    Pow2Add(k, n - k);
    MulMinus(Pow2(k), Pow2(n - k), 1);
    var q := Shr(base, k);
    assert Pow2(k) * (q + (Pow2(n - k) - 1)) == Pow2(k) * q + Pow2(k) * (Pow2(n - k) - 1);
    SplitUnique(x, k, q + (Pow2(n - k) - 1), Low(base, k));
    if base < Pow2(k) { SplitUnique(x, n, 0, x); } else { SplitUnique(x, n, 1, base - Pow2(k)); }
  }

  /** The expression used when masking falls below the region: it gives back a base smaller than the
      alignment, and otherwise an address beyond 2^64. */
  lemma RecoveryExpression(base: nat, k: nat)
    requires base < WORD && k <= 64
    ensures Pow2(k) <= WORD
    ensures And(base + (WORD - Pow2(k)), Not(WORD - Pow2(k))) == if base < Pow2(k) then base else WORD + Low(base, k)
  {
    var n := WordIsPow2();
    RecoveryParts(n, k, base);
    AndNotMask(base + (WORD - Pow2(k)), n, k);
    if base < Pow2(k) { LowOfSmall(base, k); }
  }

  /** _generate_address_in_pma_region. The random draw is any value from the lowest to the highest start.
      For a mask that clears the k low bits and a region inside the 64-bit space, a returned address
      keeps the whole block inside the region and is aligned, except that a base below the alignment
      that is itself unaligned may be returned as it is. A region with an aligned base serves every
      smaller block. */
  method GenerateAddressInPmaRegion(base: nat, regionSize: nat, size: nat, mask: nat, ghost k: nat)
    returns (r: Option<nat>, ghost drawn: nat)
    ensures r.Some? ==> r.value + size <= base + regionSize && size < regionSize
    ensures k <= 64 && mask as int == WORD - Pow2(k) && base + regionSize <= WORD && r.Some? ==>
              && base <= r.value
              && (Aligned(r.value, k) || (r.value == base && 0 < base < Pow2(k)))
              && (Aligned(base, k) || base >= Pow2(k) ==> Aligned(r.value, k))
    ensures k <= 64 && mask as int == WORD - Pow2(k) && base + regionSize <= WORD && Aligned(base, k) ==>
              (r.Some? <==> size < regionSize)
    // the draw rounded down, or the base if that falls below it and the base is below the alignment
    ensures size < regionSize ==> base <= drawn <= base + regionSize - size
    ensures k <= 64 && mask as int == WORD - Pow2(k) && base + regionSize <= WORD && 0 < size < regionSize ==>
              r == if And(drawn, mask) >= base then Some(And(drawn, mask))
                   else if base < Pow2(k) then Some(base) else None
  {
    drawn := 0;
    var end := base + regionSize;
    var highest: int := end - size;
    if highest < base || regionSize < size { return None, 0; }
    if highest <= base { return None, 0; }
    var address: nat :| base <= address <= highest;
    drawn := address;
    address := And(address, mask);
    if k <= 64 && mask as int == WORD - Pow2(k) && end <= WORD { DrawnValue(drawn, base, end, k); }
    if address < base { address := And(base + mask, Not(mask)); }
    if address + size > end { return None, drawn; }
    return Some(address), drawn;
  }

  /** Masking the drawn address, and recovering when it falls below the base. */
  lemma DrawnValue(drawn: nat, base: nat, end: nat, k: nat)
    requires base <= drawn <= end <= WORD && base < end && k <= 64
    ensures Pow2(k) <= WORD
    ensures var m := And(drawn, WORD - Pow2(k));
            && m <= drawn && Aligned(m, k)
            && (Aligned(base, k) && drawn < WORD ==> base <= m)
    ensures Aligned(WORD, k) && (Aligned(base, k) && base > 0 ==> base >= Pow2(k))
    ensures Low(base, k) > 0 || base == 0 || base >= Pow2(k)
    ensures And(base + (WORD - Pow2(k)), Not(WORD - Pow2(k))) == if base < Pow2(k) then base else WORD + Low(base, k)
  {
    RecoveryExpression(base, k);
    if drawn < WORD {
      AlignedDownValue(drawn, k);
      if Aligned(base, k) { RoundDownIsLargest(drawn, base, k); }
    } else {
      WordMasked(k);
    }
    WordMasked(k);
    LowZero(k);
    if 0 < base < Pow2(k) { LowOfSmall(base, k); }
  }

  lemma WordMasked(k: nat)
    requires k <= 64
    ensures Pow2(k) <= WORD && Aligned(WORD, k) && And(WORD, WORD - Pow2(k)) == 0
  {
    var n := WordIsPow2();
    Pow2Add(k, n - k);
    Pow2Order(k, n);
    SplitUnique(WORD, k, Pow2(n - k), 0);
    SplitUnique(WORD, n, 1, 0);
    AndMask(WORD, n, k);
  }

  // ---------- pre-allocation of regions ----------

  const DEFAULTS: Attributes := Attributes("memory", "arithmetic", "cacheable", "noncombining", "coherent", true, true,
                                           true)

  class ParsedAddress {
    const name: string
    const inPma: bool
    const size: nat
    var pmaInfo: PmaInfo?

    /** What the address asks for: attributes, and a size that defaults to the address's own. */
    function Request(): (Attributes, nat)
      reads this, pmaInfo
    {
      if pmaInfo == null then (DEFAULTS, size)
      else (pmaInfo.attrs, if pmaInfo.size == 0 then size else pmaInfo.size)
    }
  }

  /** A region that meets a request: equal attributes and at least the requested size. */
  predicate Meets(region: PmaInfo, request: (Attributes, nat))
    reads region
  {
    region.attrs == request.0 && region.size >= request.1
  }

  ghost predicate MeetsAt(regions: seq<Region>, k: int, request: (Attributes, nat)) {
    0 <= k < |regions| && regions[k].attrs == request.0 && regions[k].size >= request.1
  }

  /** Some region of these meets the request. */
  ghost predicate MetBy(regions: seq<Region>, request: (Attributes, nat)) { exists k :: MeetsAt(regions, k, request) }

  /** Region k is the first that does. */
  ghost predicate FirstMeets(regions: seq<Region>, k: int, request: (Attributes, nat)) {
    MeetsAt(regions, k, request) && forall j :: 0 <= j < k ==> !MeetsAt(regions, j, request)
  }

  ghost predicate IsFirst(regions: seq<Region>, request: (Attributes, nat), r: Region) {
    exists k :: FirstMeets(regions, k, request) && regions[k] == r
  }

  /** _find_matching_pma_region */
  method FindMatchingRegion(pool: PmaRegion, want: PmaInfo) returns (raised: bool, region: PmaInfo?)
    requires pool.Valid() && want !in pool.entries
    modifies pool`entries, pool.entries
    ensures pool.Valid() && pool.added == old(pool.added) && multiset(pool.entries) == multiset(old(pool.entries))
    ensures forall e :: e in old(pool.entries) ==> e.size >= old(e.size)
    ensures raised <==> old(pool.entries) == []
    ensures region != null ==> region in pool.entries && Meets(region, (want.attrs, want.size))
    ensures !raised ==>
              && Values(pool.entries) == Consolidate(old(Values(pool.entries))).stored
              && (region == null <==> !MetBy(Consolidate(old(Values(pool.entries))).out, (want.attrs, want.size)))
    ensures region != null ==>
              IsFirst(Consolidate(old(Values(pool.entries))).out, (want.attrs, want.size), region.Value())
  {
    ghost var v := Values(pool.entries);
    var regions;
    raised, regions := pool.ConsolidatedEntries();
    region := null;
    if raised { return; }
    var i := 0;
    while i < |regions|
      invariant 0 <= i <= |regions|
      invariant forall j :: 0 <= j < i ==> !MeetsAt(Values(regions), j, (want.attrs, want.size))
    {
      if AttribMatches(regions[i].attrs, want.attrs) && regions[i].size >= want.size {
        assert FirstMeets(Values(regions), i, (want.attrs, want.size));
        return false, regions[i];
      }
      assert !MeetsAt(Values(regions), i, (want.attrs, want.size));
      i := i + 1;
    }
  }

  /** The list holds these objects. */
  ghost predicate HeldIn(s: seq<PmaInfo>, members: set<PmaInfo>) {
    (forall e :: e in s ==> e in members) && (forall e :: e in members ==> e in s)
  }

  lemma StillHeld(s: seq<PmaInfo>, t: seq<PmaInfo>, members: set<PmaInfo>)
    requires multiset(s) == multiset(t) && HeldIn(s, members)
    ensures HeldIn(t, members)
  {
    SameMembers(s, t);
  }

  /** Regions shared within this batch: keyed by their attributes, and not yet in the pool. */
  ghost predicate Shared(byAttrs: map<Attributes, PmaInfo>, members: set<PmaInfo>) {
    forall t :: t in byAttrs ==> byAttrs[t].attrs == t && byAttrs[t] !in members
  }

  /** The batch has already made a region for these attributes that is large enough. */
  predicate FitsShared(byAttrs: map<Attributes, PmaInfo>, request: (Attributes, nat))
    reads byAttrs.Values
  {
    request.0 in byAttrs && byAttrs[request.0].size >= request.1
  }

  /** The address's parsed PMA info, created and given a size where it lacks one. */
  method WantFor(a: ParsedAddress, id: nat) returns (want: PmaInfo)
    modifies a.pmaInfo
    ensures if a.pmaInfo == null then fresh(want) else want == a.pmaInfo
    ensures (want.attrs, want.size) == old(a.Request())
  {
    var info := a.pmaInfo;
    if info == null { info := new PmaInfo(id, "", DEFAULTS, 0, 0); }
    if info.size == 0 { info.size := a.size; }
    want := info;
  }

  /** The same search, in terms of the pool's entries. */
  method MatchFor(pool: PmaRegion, want: PmaInfo, ghost members: set<PmaInfo>, ghost v: seq<Region>)
    returns (region: PmaInfo?)
    requires pool.Valid() && HeldIn(pool.entries, members) && want !in members && v != [] && Values(pool.entries) == v
    modifies pool`entries, members
    ensures pool.Valid() && pool.added == old(pool.added) && HeldIn(pool.entries, members)
    ensures Values(pool.entries) == Consolidate(v).stored
    ensures forall e :: e in members ==> e.size >= old(e.size)
    ensures region != null ==> region in members && Meets(region, (want.attrs, want.size))
    ensures region == null <==> !MetBy(Consolidate(v).out, (want.attrs, want.size))
    ensures region != null ==> IsFirst(Consolidate(v).out, (want.attrs, want.size), region.Value())
  {
    ghost var before := pool.entries;
    var raised;
    raised, region := FindMatchingRegion(pool, want);
    StillHeld(before, pool.entries, members);
  }

  /** Without a match, the region of the batch that is large enough, or a new one. */
  method ShareOrMake(found: PmaInfo?, want: PmaInfo, byAttrs: map<Attributes, PmaInfo>, name: string, id: nat)
    returns (region: PmaInfo, isNew: bool)
    ensures isNew <==> found == null && !FitsShared(byAttrs, (want.attrs, want.size))
    ensures isNew ==> fresh(region) && region.name == "pma_" + name && region.base == 0
                      && region.attrs == want.attrs && region.size == want.size
    ensures !isNew ==> region == if found != null then found else byAttrs[want.attrs]
  {
    var match' := found;
    if match' == null && want.attrs in byAttrs && byAttrs[want.attrs].size >= want.size {
      match' := byAttrs[want.attrs];
    }
    if match' != null { return match', false; }
    region := new PmaInfo(id, "pma_" + name, want.attrs, 0, want.size);
    isNew := true;
  }

  /** The region for one address, with a slot available; `members` are the entries of the pool and v their values. */
  method RegionFor(pool: PmaRegion, a: ParsedAddress, byAttrs: map<Attributes, PmaInfo>, id: nat,
                   ghost members: set<PmaInfo>, ghost v: seq<Region>)
    returns (region: PmaInfo, isNew: bool)
    requires pool.Valid() && HeldIn(pool.entries, members) && Shared(byAttrs, members)
    requires v != [] && Values(pool.entries) == v
    requires a.pmaInfo != null ==> a.pmaInfo !in members && a.pmaInfo !in byAttrs.Values
    modifies a.pmaInfo, pool`entries, members
    ensures pool.Valid() && pool.added == old(pool.added) && HeldIn(pool.entries, members)
    ensures Values(pool.entries) == Consolidate(v).stored
    ensures forall e :: e in members ==> e.size >= old(e.size)
    ensures Meets(region, old(a.Request()))
    ensures if isNew then fresh(region) && region.name == "pma_" + a.name && region.base == 0
            else region in members || region in byAttrs.Values
    ensures isNew <==> !MetBy(Consolidate(v).out, old(a.Request())) && !old(FitsShared(byAttrs, a.Request()))
    ensures MetBy(Consolidate(v).out, old(a.Request())) ==>
              region in members && IsFirst(Consolidate(v).out, old(a.Request()), region.Value())
    ensures !MetBy(Consolidate(v).out, old(a.Request())) && !isNew ==> region == byAttrs[old(a.Request()).0]
    ensures isNew ==> region.size == old(a.Request()).1
  {
    ghost var request, fits := a.Request(), FitsShared(byAttrs, a.Request());
    var want := WantFor(a, id);
    assert Values(pool.entries) == v && FitsShared(byAttrs, request) == fits;
    var match' := MatchFor(pool, want, members, v);
    assert FitsShared(byAttrs, request) == fits;
    region, isNew := ShareOrMake(match', want, byAttrs, a.name, id);
  }

  /** One turn of the allocation loop, with a slot available; `members` are the entries of the pool and v their
      values. */
  method AllocateOne(pool: PmaRegion, a: ParsedAddress, byAttrs: map<Attributes, PmaInfo>, id: nat,
                     ghost members: set<PmaInfo>, ghost v: seq<Region>)
    returns (region: PmaInfo, isNew: bool)
    requires pool.Valid() && HeldIn(pool.entries, members) && Shared(byAttrs, members)
    requires v != [] && Values(pool.entries) == v
    requires a.pmaInfo != null ==> a.pmaInfo !in members && a.pmaInfo !in byAttrs.Values
    modifies a`pmaInfo, a.pmaInfo, pool`entries, members
    ensures pool.Valid() && pool.added == old(pool.added) && HeldIn(pool.entries, members)
    ensures Values(pool.entries) == Consolidate(v).stored
    ensures forall e :: e in members ==> e.size >= old(e.size)
    ensures a.pmaInfo == region && Meets(region, old(a.Request()))
    ensures if isNew then fresh(region) && region.name == "pma_" + a.name && region.base == 0
            else region in members || region in byAttrs.Values
    // a region is made exactly when neither the pool nor the batch has one that fits; the pool's first goes first
    ensures isNew <==> !MetBy(Consolidate(v).out, old(a.Request())) && !old(FitsShared(byAttrs, a.Request()))
    ensures MetBy(Consolidate(v).out, old(a.Request())) ==>
              region in members && IsFirst(Consolidate(v).out, old(a.Request()), region.Value())
    ensures !MetBy(Consolidate(v).out, old(a.Request())) && !isNew ==> region == byAttrs[old(a.Request()).0]
    ensures isNew ==> region.size == old(a.Request()).1
  {
    region, isNew := RegionFor(pool, a, byAttrs, id, members, v);
    ghost var valid, stored := pool.Valid(), Values(pool.entries);
    a.pmaInfo := region;
    assert pool.Valid() == valid && Values(pool.entries) == stored;
  }

  /** Addresses that can be processed: distinct objects and names, each with its own parsed PMA info. */
  ghost predicate Batch(addrs: seq<ParsedAddress>, pool: PmaRegion)
    reads addrs, pool
  {
    && (forall i :: 0 <= i < |addrs| && addrs[i].pmaInfo != null ==> addrs[i].pmaInfo !in pool.entries)
    && DistinctAddresses(addrs)
    && (forall i, j :: 0 <= i < j < |addrs| && addrs[i].pmaInfo != null ==> addrs[i].pmaInfo != addrs[j].pmaInfo)
  }

  ghost predicate DistinctAddresses(addrs: seq<ParsedAddress>) {
    forall i, j :: 0 <= i < j < |addrs| ==> addrs[i] != addrs[j] && addrs[i].name != addrs[j].name
  }

  function Infos(addrs: seq<ParsedAddress>): set<PmaInfo>
    reads addrs
  {
    set a | a in addrs && a.pmaInfo != null :: a.pmaInfo
  }

  /** An address points at a region of the pool, or a new one, that meets its request. */
  ghost predicate HasRegion(a: ParsedAddress, r: PmaInfo, request: (Attributes, nat), pool: PmaRegion,
                            news: set<PmaInfo>)
    reads a, r, pool
  {
    a.pmaInfo == r && Meets(r, request) && (r in pool.entries || r in news)
  }

  /** What the loop over the addresses that ask for a region has handed out after i of them. */
  ghost predicate Handed(addrs: seq<ParsedAddress>, i: nat, requests: seq<(Attributes, nat)>, pool: PmaRegion,
                         given: map<string, PmaInfo>, news: set<PmaInfo>, slots: int)
    requires i <= |addrs| == |requests|
    reads addrs, pool, pool.entries, given.Values
  {
    && (forall n :: n in given ==> exists j :: 0 <= j < i && addrs[j].name == n)
    && (forall j :: 0 <= j < i && addrs[j].name in given ==>
          HasRegion(addrs[j], given[addrs[j].name], requests[j], pool, news))
    && (slots > 0 ==> forall j :: 0 <= j < i ==> addrs[j].name in given)
  }

  // The loop's state, split into what depends on no field of any object, which lemmas carry from turn to turn, and
  // what the fields hold.

  /** The regions handed out are of the pool or new, and the PMA infos of the addresses still to come are neither. */
  ghost predicate Ready(addrs: seq<ParsedAddress>, i: nat, infos: seq<PmaInfo?>, members: set<PmaInfo>,
                        byAttrs: map<Attributes, PmaInfo>, news: set<PmaInfo>)
  {
    && i <= |addrs| == |infos| && DistinctAddresses(addrs)
    && Shared(byAttrs, members) && byAttrs.Values <= news && members !! news
    && (forall j :: i <= j < |infos| && infos[j] != null ==> infos[j] !in members && infos[j] !in news)
    && (forall j, k :: i <= j < k < |infos| && infos[j] != null ==> infos[j] != infos[k])
  }

  ghost function Names(addrs: seq<ParsedAddress>, i: nat): set<string>
    requires i <= |addrs|
  {
    if i == 0 then {} else Names(addrs, i - 1) + {addrs[i - 1].name}
  }

  lemma {:induction false} NameOf(addrs: seq<ParsedAddress>, i: nat, n: string)
    requires i <= |addrs| && n in Names(addrs, i)
    ensures exists j :: 0 <= j < i && addrs[j].name == n
  {
    if n != addrs[i - 1].name { NameOf(addrs, i - 1, n); }
  }

  lemma NameIsNew(addrs: seq<ParsedAddress>, i: nat)
    requires DistinctAddresses(addrs) && i < |addrs|
    ensures addrs[i].name !in Names(addrs, i)
  {
    if addrs[i].name in Names(addrs, i) { NameOf(addrs, i, addrs[i].name); }
  }

  ghost predicate GivenOut(addrs: seq<ParsedAddress>, i: nat, given: map<string, PmaInfo>, members: set<PmaInfo>,
                           news: set<PmaInfo>, slots: int)
  {
    && i <= |addrs|
    && (forall n :: n in given ==> given[n] in members || given[n] in news)
    && given.Keys <= Names(addrs, i)
    && (slots > 0 ==> forall j :: 0 <= j < i ==> addrs[j].name in given)
  }

  /** The addresses still to come hold what they held at first. */
  ghost predicate Waiting(addrs: seq<ParsedAddress>, i: nat, infos: seq<PmaInfo?>, requests: seq<(Attributes, nat)>)
    requires |addrs| == |infos| == |requests|
    reads addrs, Infos(addrs)
  {
    forall j :: i <= j < |addrs| ==> addrs[j].pmaInfo == infos[j] && addrs[j].Request() == requests[j]
  }

  /** The addresses served point at a region that meets their request. */
  ghost predicate Served(addrs: seq<ParsedAddress>, i: nat, requests: seq<(Attributes, nat)>,
                         given: map<string, PmaInfo>)
    requires i <= |addrs| == |requests|
    reads addrs, given.Values
  {
    forall j :: 0 <= j < i && addrs[j].name in given ==>
      addrs[j].pmaInfo == given[addrs[j].name] && Meets(given[addrs[j].name], requests[j])
  }

  lemma ReadyStep(addrs: seq<ParsedAddress>, i: nat, infos: seq<PmaInfo?>, members: set<PmaInfo>,
                  byAttrs: map<Attributes, PmaInfo>, news: set<PmaInfo>, region: PmaInfo, isNew: bool)
    requires Ready(addrs, i, infos, members, byAttrs, news) && i < |addrs|
    requires if isNew then region !in members && (forall j :: 0 <= j < |infos| ==> infos[j] != region)
             else region in members || region in byAttrs.Values
    ensures var news' := if isNew then news + {region} else news;
            && Ready(addrs, i + 1, infos, members, if isNew then byAttrs[region.attrs := region] else byAttrs, news')
            && news <= news' && (region in members || region in news')
  {}

  lemma GivenStep(addrs: seq<ParsedAddress>, i: nat, given: map<string, PmaInfo>, members: set<PmaInfo>,
                  news: set<PmaInfo>, news': set<PmaInfo>, region: PmaInfo)
    requires i < |addrs| && GivenOut(addrs, i, given, members, news, 1)
    requires news <= news' && (region in members || region in news')
    ensures GivenOut(addrs, i + 1, given[addrs[i].name := region], members, news', 1)
  {}

  /** Both together. */
  ghost predicate Between(addrs: seq<ParsedAddress>, i: nat, infos: seq<PmaInfo?>, members: set<PmaInfo>,
                          byAttrs: map<Attributes, PmaInfo>, given: map<string, PmaInfo>, news: set<PmaInfo>,
                          slots: int)
  {
    Ready(addrs, i, infos, members, byAttrs, news) && GivenOut(addrs, i, given, members, news, slots)
  }

  lemma BetweenStep(addrs: seq<ParsedAddress>, i: nat, infos: seq<PmaInfo?>, members: set<PmaInfo>,
                    byAttrs: map<Attributes, PmaInfo>, given: map<string, PmaInfo>, news: set<PmaInfo>, slots: int,
                    region: PmaInfo, isNew: bool, slots': int)
    requires i < |addrs| && slots > 0 && Between(addrs, i, infos, members, byAttrs, given, news, slots)
    requires if isNew then region !in members && (forall j :: 0 <= j < |infos| ==> infos[j] != region)
             else region in members || region in byAttrs.Values
    ensures Between(addrs, i + 1, infos, members, if isNew then byAttrs[region.attrs := region] else byAttrs,
                    given[addrs[i].name := region], if isNew then news + {region} else news, slots')
  {
    ReadyStep(addrs, i, infos, members, byAttrs, news, region, isNew);
    GivenStep(addrs, i, given, members, news, if isNew then news + {region} else news, region);
  }

  /** Without a slot an address is passed over. */
  lemma PassedOver(addrs: seq<ParsedAddress>, i: nat, infos: seq<PmaInfo?>, requests: seq<(Attributes, nat)>,
                   members: set<PmaInfo>, byAttrs: map<Attributes, PmaInfo>, given: map<string, PmaInfo>,
                   news: set<PmaInfo>, slots: int)
    requires i < |addrs| == |infos| == |requests| && slots <= 0
    requires Between(addrs, i, infos, members, byAttrs, given, news, slots)
    requires Waiting(addrs, i, infos, requests) && Served(addrs, i, requests, given)
    ensures Between(addrs, i + 1, infos, members, byAttrs, given, news, slots)
    ensures Waiting(addrs, i + 1, infos, requests) && Served(addrs, i + 1, requests, given)
  {
    NameIsNew(addrs, i);
  }

  // ---------- who gets what ----------

  /** What is stored after so many more consolidations. */
  ghost function Looked(v: seq<Region>, n: nat): (r: seq<Region>)
    requires v != []
    ensures r != []
  {
    if n == 0 then v else Consolidate(Looked(v, n - 1)).stored
  }

  /** A region that the pool has once stays, or grows. */
  lemma {:induction false} StaysMet(v: seq<Region>, request: (Attributes, nat), n: nat)
    requires v != [] && MetBy(Consolidate(v).out, request)
    ensures MetBy(Consolidate(Looked(v, n)).out, request)
  {
    if n > 0 {
      StaysMet(v, request, n - 1);
      MetAgain(Looked(v, n - 1), request);
    }
  }

  lemma MetAgain(v: seq<Region>, request: (Attributes, nat))
    requires v != [] && MetBy(Consolidate(v).out, request)
    ensures MetBy(Consolidate(Consolidate(v).stored).out, request)
  {
    var k :| MeetsAt(Consolidate(v).out, k, request);
    var r := Consolidate(v).out[k];
    ReturnedIsStored(v, r);
    MetAround(Consolidate(v).stored, r, request);
  }

  lemma MetAround(v: seq<Region>, r: Region, request: (Attributes, nat))
    requires v != [] && r in v && r.attrs == request.0 && r.size >= request.1
    ensures MetBy(Consolidate(v).out, request)
  {
    ConsolidateSound(v);
    var out := Consolidate(v).out;
    var q :| q in out && Within(r, q);
    var j :| 0 <= j < |out| && out[j] == q;
    assert MeetsAt(out, j, request);
  }

  /** An address is passed over for want of slots, or served by a region of the pool, of the batch, or a new one. */
  datatype Outcome = Passed | FromPool | FromBatch | NewRegion

  /** The slots left, what the pool stores, the size of the region the batch shares for each attributes, and the
      outcomes so far. */
  datatype Plan = Plan(slots: int, stored: seq<Region>, sizes: map<Attributes, nat>, outcomes: seq<Outcome>)

  /** The next address: while slots last, the pool goes first and the batch second. */
  ghost function PlanNext(p: Plan, request: (Attributes, nat)): (q: Plan)
    requires p.stored != []
    ensures q.stored != []
  {
    var (attrs, size) := request;
    var t := Consolidate(p.stored);
    if p.slots <= 0 then p.(outcomes := p.outcomes + [Passed])
    else if MetBy(t.out, request) then p.(stored := t.stored, outcomes := p.outcomes + [FromPool])
    else if attrs in p.sizes && p.sizes[attrs] >= size then p.(stored := t.stored, outcomes := p.outcomes + [FromBatch])
    else Plan(p.slots - 1, t.stored, p.sizes[attrs := size], p.outcomes + [NewRegion])
  }

  ghost function PlanTo(requests: seq<(Attributes, nat)>, v: seq<Region>, free: int, n: nat): (p: Plan)
    requires n <= |requests| && v != []
    ensures p.stored != [] && |p.outcomes| == n && p.slots <= free && (free >= 0 ==> p.slots >= 0)
  {
    if n == 0 then Plan(free, v, map[], []) else PlanNext(PlanTo(requests, v, free, n - 1), requests[n - 1])
  }

  ghost function Count(outcomes: seq<Outcome>, n: nat): nat
    requires n <= |outcomes|
  {
    if n == 0 then 0 else Count(outcomes, n - 1) + if outcomes[n - 1] == NewRegion then 1 else 0
  }

  lemma {:induction false} CountPrefix(outcomes: seq<Outcome>, more: Outcome, n: nat)
    requires n <= |outcomes|
    ensures Count(outcomes + [more], n) == Count(outcomes, n)
  {
    if n > 0 { CountPrefix(outcomes, more, n - 1); }
  }

  /** Some address before j got a new region for the same attributes, large enough for j. */
  ghost predicate SharedBefore(requests: seq<(Attributes, nat)>, outcomes: seq<Outcome>, j: nat)
    requires j < |requests| && j <= |outcomes|
  {
    exists h :: 0 <= h < j && outcomes[h] == NewRegion
                && requests[h].0 == requests[j].0 && requests[h].1 >= requests[j].1
  }

  /** What each outcome means: passed over exactly when the new regions have used up the slots; otherwise served by the
      pool exactly when it has a region that fits, and given a new one exactly when neither the pool nor the new
      regions so far have. */
  ghost predicate OutcomeFits(requests: seq<(Attributes, nat)>, v: seq<Region>, free: int, outcomes: seq<Outcome>,
                              j: nat)
    requires j < |requests| && j < |outcomes| && v != []
  {
    var met := MetBy(Consolidate(Looked(v, j)).out, requests[j]);
    && (outcomes[j] == Passed <==> free - Count(outcomes, j) <= 0)
    && (outcomes[j] == FromPool <==> free - Count(outcomes, j) > 0 && met)
    && (outcomes[j] == NewRegion <==> free - Count(outcomes, j) > 0 && !met && !SharedBefore(requests, outcomes, j))
  }

  /** The largest new region for each attributes is the one shared. */
  ghost predicate SizesFit(requests: seq<(Attributes, nat)>, p: Plan)
    requires |p.outcomes| <= |requests|
  {
    && (forall h :: 0 <= h < |p.outcomes| && p.outcomes[h] == NewRegion ==>
          requests[h].0 in p.sizes && p.sizes[requests[h].0] >= requests[h].1)
    && (forall t :: t in p.sizes ==> exists h :: IsLargest(requests, p, t, h))
  }

  ghost predicate IsLargest(requests: seq<(Attributes, nat)>, p: Plan, t: Attributes, h: int)
    requires |p.outcomes| <= |requests| && t in p.sizes
  {
    0 <= h < |p.outcomes| && p.outcomes[h] == NewRegion && requests[h] == (t, p.sizes[t])
  }

  /** While slots last, every address looks at the pool once. */
  ghost predicate PlanSoFar(requests: seq<(Attributes, nat)>, v: seq<Region>, free: int, p: Plan)
    requires |p.outcomes| <= |requests| && v != []
  {
    && SizesFit(requests, p) && p.slots == free - Count(p.outcomes, |p.outcomes|)
    && (p.slots > 0 ==> p.stored == Looked(v, |p.outcomes|))
    && (forall j :: 0 <= j < |p.outcomes| ==> OutcomeFits(requests, v, free, p.outcomes, j))
  }

  lemma {:induction false} PlanMeaning(requests: seq<(Attributes, nat)>, v: seq<Region>, free: int, n: nat)
    requires n <= |requests| && v != []
    ensures var p := PlanTo(requests, v, free, n);
            && PlanSoFar(requests, v, free, p)
            && p.slots == free - Count(p.outcomes, n)
            && forall j :: 0 <= j < n ==> OutcomeFits(requests, v, free, p.outcomes, j)
  {
    if n > 0 {
      PlanMeaning(requests, v, free, n - 1);
      PlanStep(requests, v, free, PlanTo(requests, v, free, n - 1));
    }
  }

  lemma PlanStep(requests: seq<(Attributes, nat)>, v: seq<Region>, free: int, p: Plan)
    requires |p.outcomes| < |requests| && v != [] && p.stored != [] && PlanSoFar(requests, v, free, p)
    ensures PlanSoFar(requests, v, free, PlanNext(p, requests[|p.outcomes|]))
  {
    var q := PlanNext(p, requests[|p.outcomes|]);
    SizesStep(requests, p, q);
    EarlierFit(requests, v, free, p.outcomes, q.outcomes);
    LastFits(requests, v, free, p, q);
    forall j | 0 <= j < |q.outcomes| ensures OutcomeFits(requests, v, free, q.outcomes, j) {}
  }

  lemma EarlierFit(requests: seq<(Attributes, nat)>, v: seq<Region>, free: int, outcomes: seq<Outcome>,
                   more: seq<Outcome>)
    requires |outcomes| < |requests| && v != [] && |more| == |outcomes| + 1 && more[..|outcomes|] == outcomes
    requires forall j :: 0 <= j < |outcomes| ==> OutcomeFits(requests, v, free, outcomes, j)
    ensures forall j :: 0 <= j < |outcomes| ==> OutcomeFits(requests, v, free, more, j)
  {
    var o := more[|outcomes|];
    assert more == outcomes + [o];
    forall j | 0 <= j < |outcomes| ensures OutcomeFits(requests, v, free, more, j) {
      assert OutcomeFits(requests, v, free, outcomes, j);
      CountPrefix(outcomes, o, j);
      SharedSame(requests, outcomes, o, j);
    }
  }

  lemma LastFits(requests: seq<(Attributes, nat)>, v: seq<Region>, free: int, p: Plan, q: Plan)
    requires |p.outcomes| < |requests| && v != [] && p.stored != [] && PlanSoFar(requests, v, free, p)
    requires q == PlanNext(p, requests[|p.outcomes|])
    ensures OutcomeFits(requests, v, free, q.outcomes, |p.outcomes|)
    ensures q.slots == free - Count(q.outcomes, |q.outcomes|)
  {
    CountPrefix(p.outcomes, q.outcomes[|p.outcomes|], |p.outcomes|);
    SharedIff(requests, p, q);
  }

  /** A request that the pool can meet at first is served by the pool, or passed over. */
  lemma MetAtFirst(requests: seq<(Attributes, nat)>, v: seq<Region>, free: int, j: nat)
    requires j < |requests| && v != [] && MetBy(Consolidate(v).out, requests[j])
    ensures PlanTo(requests, v, free, |requests|).outcomes[j] in {Passed, FromPool}
  {
    PlanMeaning(requests, v, free, |requests|);
    StaysMet(v, requests[j], j);
    assert OutcomeFits(requests, v, free, PlanTo(requests, v, free, |requests|).outcomes, j);
  }

  lemma {:induction false} NoneNew(outcomes: seq<Outcome>, n: nat)
    requires n <= |outcomes| && forall j :: 0 <= j < n ==> outcomes[j] != NewRegion
    ensures Count(outcomes, n) == 0
  {
    if n > 0 { NoneNew(outcomes, n - 1); }
  }

  lemma SizesStep(requests: seq<(Attributes, nat)>, p: Plan, q: Plan)
    requires |p.outcomes| < |requests| && SizesFit(requests, p) && |q.outcomes| == |p.outcomes| + 1
    requires q.outcomes[..|p.outcomes|] == p.outcomes
    requires var (attrs, size) := requests[|p.outcomes|];
             if q.outcomes[|p.outcomes|] != NewRegion then q.sizes == p.sizes
             else (attrs in p.sizes ==> p.sizes[attrs] < size) && q.sizes == p.sizes[attrs := size]
    ensures SizesFit(requests, q)
  {
    var n := |p.outcomes|;
    forall h | 0 <= h < |q.outcomes| && q.outcomes[h] == NewRegion
      ensures requests[h].0 in q.sizes && q.sizes[requests[h].0] >= requests[h].1
    {
      if h < n { assert p.outcomes[h] == NewRegion; }
    }
    forall t | t in q.sizes ensures exists h :: IsLargest(requests, q, t, h) {
      if q.outcomes[n] == NewRegion && t == requests[n].0 {
        assert IsLargest(requests, q, t, n);
      } else {
        var h :| IsLargest(requests, p, t, h);
        assert IsLargest(requests, q, t, h);
      }
    }
  }

  lemma SharedIff(requests: seq<(Attributes, nat)>, p: Plan, q: Plan)
    requires |p.outcomes| < |requests| && SizesFit(requests, p)
    requires |q.outcomes| == |p.outcomes| + 1 && q.outcomes[..|p.outcomes|] == p.outcomes
    ensures var n := |p.outcomes|;
            SharedBefore(requests, q.outcomes, n) <==>
              requests[n].0 in p.sizes && p.sizes[requests[n].0] >= requests[n].1
  {
    var n := |p.outcomes|;
    if requests[n].0 in p.sizes && p.sizes[requests[n].0] >= requests[n].1 {
      var h :| IsLargest(requests, p, requests[n].0, h);
      assert q.outcomes[h] == NewRegion;
    }
    if SharedBefore(requests, q.outcomes, n) {
      var h :| 0 <= h < n && q.outcomes[h] == NewRegion && requests[h].0 == requests[n].0
               && requests[h].1 >= requests[n].1;
      assert p.outcomes[h] == NewRegion;
    }
  }

  lemma SharedSame(requests: seq<(Attributes, nat)>, outcomes: seq<Outcome>, more: Outcome, j: nat)
    requires j < |requests| && j < |outcomes|
    ensures SharedBefore(requests, outcomes + [more], j) <==> SharedBefore(requests, outcomes, j)
  {
    var all := outcomes + [more];
    assert forall h :: 0 <= h < j ==> all[h] == outcomes[h];
  }

  /** The first i addresses have got what the outcomes say. */
  ghost predicate Follows(addrs: seq<ParsedAddress>, i: nat, given: map<string, PmaInfo>, members: set<PmaInfo>,
                          news: set<PmaInfo>, outcomes: seq<Outcome>)
  {
    i == |outcomes| <= |addrs| &&
    forall j :: 0 <= j < i ==> GotOutcome(addrs[j].name, given, members, news, outcomes[j])
  }

  ghost predicate GotOutcome(name: string, given: map<string, PmaInfo>, members: set<PmaInfo>, news: set<PmaInfo>,
                             outcome: Outcome)
  {
    if outcome == Passed then name !in given
    else name in given && if outcome == FromPool then given[name] in members else given[name] in news
  }

  lemma FollowsStep(addrs: seq<ParsedAddress>, i: nat, given: map<string, PmaInfo>, given': map<string, PmaInfo>,
                    members: set<PmaInfo>, news: set<PmaInfo>, news': set<PmaInfo>, outcomes: seq<Outcome>, o: Outcome)
    requires i < |addrs| && DistinctAddresses(addrs) && Follows(addrs, i, given, members, news, outcomes)
    requires news <= news' && GotOutcome(addrs[i].name, given', members, news', o)
    requires forall j :: 0 <= j < i ==> (addrs[j].name in given <==> addrs[j].name in given')
    requires forall j :: 0 <= j < i && addrs[j].name in given ==> given'[addrs[j].name] == given[addrs[j].name]
    ensures Follows(addrs, i + 1, given', members, news', outcomes + [o])
  {
    forall j | 0 <= j < i + 1 ensures GotOutcome(addrs[j].name, given', members, news', (outcomes + [o])[j]) {
      if j < i { assert GotOutcome(addrs[j].name, given, members, news, outcomes[j]); }
    }
  }

  /** The batch's regions have the sizes of the plan. */
  ghost predicate SizesOf(byAttrs: map<Attributes, PmaInfo>, sizes: map<Attributes, nat>)
    reads byAttrs.Values
  {
    byAttrs.Keys == sizes.Keys && forall t :: t in byAttrs ==> byAttrs[t].size == sizes[t]
  }

  lemma AllHanded(addrs: seq<ParsedAddress>, requests: seq<(Attributes, nat)>, pool: PmaRegion,
                  given: map<string, PmaInfo>, members: set<PmaInfo>, news: set<PmaInfo>, slots: int)
    requires |addrs| == |requests| && HeldIn(pool.entries, members)
    requires GivenOut(addrs, |addrs|, given, members, news, slots) && Served(addrs, |addrs|, requests, given)
    ensures Handed(addrs, |addrs|, requests, pool, given, news, slots) && EntrySet(pool) == members
  {
    assert EntrySet(pool) == members;
    forall n | n in given ensures exists j :: 0 <= j < |addrs| && addrs[j].name == n { NameOf(addrs, |addrs|, n); }
  }

  /** The next address's turn with a slot available; `owned` holds the addresses' own PMA infos and v what is stored. */
  method HandOutNext(pool: PmaRegion, addrs: seq<ParsedAddress>, i: nat, byAttrs: map<Attributes, PmaInfo>, id: nat,
                     ghost infos: seq<PmaInfo?>, ghost owned: set<PmaInfo>, ghost requests: seq<(Attributes, nat)>,
                     ghost members: set<PmaInfo>, ghost news: set<PmaInfo>, ghost v: seq<Region>)
    returns (region: PmaInfo, isNew: bool)
    requires i < |addrs| == |infos| == |requests| && pool.Valid() && HeldIn(pool.entries, members)
    requires v != [] && Values(pool.entries) == v && Ready(addrs, i, infos, members, byAttrs, news)
    requires Waiting(addrs, i, infos, requests) && (infos[i] != null ==> infos[i] in owned)
    modifies addrs[i], owned, pool`entries, members
    ensures pool.Valid() && pool.added == old(pool.added) && HeldIn(pool.entries, members)
    ensures Values(pool.entries) == Consolidate(v).stored
    ensures MetBy(Consolidate(v).out, requests[i]) ==> region in members && !isNew
    ensures !MetBy(Consolidate(v).out, requests[i]) ==> (isNew <==> !old(FitsShared(byAttrs, requests[i])))
    ensures isNew ==> fresh(region) && region.attrs == requests[i].0 && region.size == requests[i].1
    ensures !MetBy(Consolidate(v).out, requests[i]) && !isNew ==> region == byAttrs[requests[i].0]
    ensures !isNew ==> region in members || region in byAttrs.Values
    ensures addrs[i].pmaInfo == region && Meets(region, requests[i])
    ensures forall j :: 0 <= j < |addrs| && j != i ==> addrs[j].pmaInfo == old(addrs[j].pmaInfo)
    ensures (forall e :: e in members ==> e.size >= old(e.size)) && forall e :: e in news ==> e.size == old(e.size)
    ensures Waiting(addrs, i + 1, infos, requests)
  {
    assert addrs[i].Request() == requests[i] && addrs[i].pmaInfo == infos[i];
    region, isNew := AllocateOne(pool, addrs[i], byAttrs, id, members, v);
    forall j | 0 <= j < |addrs| && j != i ensures addrs[j].pmaInfo == old(addrs[j].pmaInfo) {
      assert addrs[j] != addrs[i];
    }
    forall j | i < j < |addrs| ensures addrs[j].pmaInfo == infos[j] && addrs[j].Request() == requests[j] {
      assert old(addrs[j].pmaInfo) == infos[j] && old(addrs[j].Request()) == requests[j];
    }
  }

  /** And what it leaves of the loop's state. */
  method HandOut(pool: PmaRegion, addrs: seq<ParsedAddress>, i: nat, given: map<string, PmaInfo>,
                 byAttrs: map<Attributes, PmaInfo>, id: nat, ghost infos: seq<PmaInfo?>, ghost owned: set<PmaInfo>,
                 ghost requests: seq<(Attributes, nat)>, ghost members: set<PmaInfo>, ghost news: set<PmaInfo>,
                 ghost v: seq<Region>)
    returns (region: PmaInfo, isNew: bool)
    requires i < |addrs| == |infos| == |requests| && pool.Valid() && HeldIn(pool.entries, members)
    requires v != [] && Values(pool.entries) == v
    requires Ready(addrs, i, infos, members, byAttrs, news) && GivenOut(addrs, i, given, members, news, 1)
    requires Waiting(addrs, i, infos, requests) && Served(addrs, i, requests, given)
    requires infos[i] != null ==> infos[i] in owned
    modifies addrs[i], owned, pool`entries, members
    ensures pool.Valid() && pool.added == old(pool.added) && HeldIn(pool.entries, members)
    ensures Values(pool.entries) == Consolidate(v).stored
    ensures MetBy(Consolidate(v).out, requests[i]) ==> region in members && !isNew
    ensures !MetBy(Consolidate(v).out, requests[i]) ==> (isNew <==> !old(FitsShared(byAttrs, requests[i])))
    ensures isNew ==> region.attrs == requests[i].0 && region.size == requests[i].1
    ensures !MetBy(Consolidate(v).out, requests[i]) && !isNew ==> region == byAttrs[requests[i].0]
    ensures forall t :: t in byAttrs ==> byAttrs[t].size == old(byAttrs[t].size)
    ensures if isNew then fresh(region) else region in members || region in byAttrs.Values
    ensures Waiting(addrs, i + 1, infos, requests)
    ensures Served(addrs, i + 1, requests, given[addrs[i].name := region])
  {
    region, isNew := HandOutNext(pool, addrs, i, byAttrs, id, infos, owned, requests, members, news, v);
    forall j | 0 <= j < i && addrs[j].name in given
      ensures addrs[j].pmaInfo == given[addrs[j].name] && Meets(given[addrs[j].name], requests[j])
    {
      var r := given[addrs[j].name];
      assert old(addrs[j].pmaInfo) == r && old(Meets(r, requests[j])) && (r in members || r in news);
    }
  }

  /** Where the loop stands before address i: the plan so far has been followed. */
  ghost predicate OnTurn(pool: PmaRegion, addrs: seq<ParsedAddress>, i: nat, given: map<string, PmaInfo>,
                         byAttrs: map<Attributes, PmaInfo>, infos: seq<PmaInfo?>, requests: seq<(Attributes, nat)>,
                         members: set<PmaInfo>, news: set<PmaInfo>, p: Plan)
    reads pool, pool.entries, addrs, Infos(addrs), given.Values, byAttrs.Values
  {
    && i <= |addrs| == |infos| == |requests| && pool.Valid() && HeldIn(pool.entries, members)
    && p.stored != [] && Values(pool.entries) == p.stored
    && Between(addrs, i, infos, members, byAttrs, given, news, p.slots)
    && Waiting(addrs, i, infos, requests) && Served(addrs, i, requests, given)
    && SizesOf(byAttrs, p.sizes) && Follows(addrs, i, given, members, news, p.outcomes)
  }

  /** What a turn with a slot available does to the part of the state that depends on no field. */
  lemma PlanFollowed(addrs: seq<ParsedAddress>, i: nat, infos: seq<PmaInfo?>, members: set<PmaInfo>,
                     byAttrs: map<Attributes, PmaInfo>, given: map<string, PmaInfo>, news: set<PmaInfo>, p: Plan,
                     request: (Attributes, nat), region: PmaInfo, isNew: bool)
    requires i < |addrs| && p.slots > 0 && p.stored != []
    requires Between(addrs, i, infos, members, byAttrs, given, news, p.slots)
    requires Follows(addrs, i, given, members, news, p.outcomes)
    requires if isNew then region !in members && (forall j :: 0 <= j < |infos| ==> infos[j] != region)
             else region in members || region in byAttrs.Values
    requires match PlanNext(p, request).outcomes[i]
             case FromPool => !isNew && region in members
             case FromBatch => !isNew && region in byAttrs.Values
             case _ => isNew
    ensures var q, news' := PlanNext(p, request), if isNew then news + {region} else news;
            && Between(addrs, i + 1, infos, members, if isNew then byAttrs[region.attrs := region] else byAttrs,
                       given[addrs[i].name := region], news', q.slots)
            && Follows(addrs, i + 1, given[addrs[i].name := region], members, news', q.outcomes)
  {
    var q, news' := PlanNext(p, request), if isNew then news + {region} else news;
    NameIsNew(addrs, i);
    BetweenStep(addrs, i, infos, members, byAttrs, given, news, p.slots, region, isNew, q.slots);
    FollowsStep(addrs, i, given, given[addrs[i].name := region], members, news, news', p.outcomes, q.outcomes[i]);
  }

  /** One turn of the loop with a slot available. */
  method TurnWithSlot(pool: PmaRegion, addrs: seq<ParsedAddress>, i: nat, given: map<string, PmaInfo>,
                      byAttrs: map<Attributes, PmaInfo>, id: nat, ghost infos: seq<PmaInfo?>,
                      ghost owned: set<PmaInfo>, ghost requests: seq<(Attributes, nat)>, ghost members: set<PmaInfo>,
                      ghost news: set<PmaInfo>, ghost p: Plan, ghost q: Plan)
    returns (region: PmaInfo, isNew: bool)
    requires i < |addrs| && OnTurn(pool, addrs, i, given, byAttrs, infos, requests, members, news, p)
    requires (infos[i] != null ==> infos[i] in owned) && p.slots > 0 && q == PlanNext(p, requests[i])
    modifies addrs[i], owned, pool`entries, members
    ensures OnTurn(pool, addrs, i + 1, given[addrs[i].name := region],
                   if isNew then byAttrs[region.attrs := region] else byAttrs, infos, requests, members,
                   if isNew then news + {region} else news, q)
    ensures pool.added == old(pool.added) && q.slots == p.slots - if isNew then 1 else 0
    ensures isNew ==> fresh(region) && region !in news
  {
    region, isNew := HandOut(pool, addrs, i, given, byAttrs, id, infos, owned, requests, members, news, p.stored);
    assert SizesOf(if isNew then byAttrs[region.attrs := region] else byAttrs, q.sizes);
    PlanFollowed(addrs, i, infos, members, byAttrs, given, news, p, requests[i], region, isNew);
  }

  /** A turn without a slot changes nothing. */
  lemma PassedTurn(pool: PmaRegion, addrs: seq<ParsedAddress>, i: nat, given: map<string, PmaInfo>,
                   byAttrs: map<Attributes, PmaInfo>, infos: seq<PmaInfo?>, requests: seq<(Attributes, nat)>,
                   members: set<PmaInfo>, news: set<PmaInfo>, p: Plan, q: Plan)
    requires i < |addrs| && OnTurn(pool, addrs, i, given, byAttrs, infos, requests, members, news, p)
    requires p.slots <= 0 && q == PlanNext(p, requests[i])
    ensures OnTurn(pool, addrs, i + 1, given, byAttrs, infos, requests, members, news, q) && q.slots == p.slots
  {
    PassedOver(addrs, i, infos, requests, members, byAttrs, given, news, p.slots);
    FollowsStep(addrs, i, given, given, members, news, news, p.outcomes, Passed);
  }

  /** One turn of the loop. */
  method Turn(pool: PmaRegion, addrs: seq<ParsedAddress>, i: nat, given: map<string, PmaInfo>,
              byAttrs: map<Attributes, PmaInfo>, slots: int, id: nat, ghost infos: seq<PmaInfo?>,
              ghost owned: set<PmaInfo>, ghost requests: seq<(Attributes, nat)>, ghost members: set<PmaInfo>,
              ghost news: set<PmaInfo>, ghost v: seq<Region>, ghost free: int)
    returns (given': map<string, PmaInfo>, byAttrs': map<Attributes, PmaInfo>, slots': int, ghost news': set<PmaInfo>)
    requires i < |addrs| == |requests| && v != [] && slots == PlanTo(requests, v, free, i).slots
    requires OnTurn(pool, addrs, i, given, byAttrs, infos, requests, members, news, PlanTo(requests, v, free, i))
    requires infos[i] != null ==> infos[i] in owned
    modifies addrs[i], owned, pool`entries, members
    ensures OnTurn(pool, addrs, i + 1, given', byAttrs', infos, requests, members, news',
                   PlanTo(requests, v, free, i + 1))
    ensures pool.added == old(pool.added) && slots' == PlanTo(requests, v, free, i + 1).slots
    ensures |news'| - |news| == slots - slots' && fresh(news' - news)
  {
    ghost var p, q := PlanTo(requests, v, free, i), PlanTo(requests, v, free, i + 1);
    assert q == PlanNext(p, requests[i]);
    if slots <= 0 {
      PassedTurn(pool, addrs, i, given, byAttrs, infos, requests, members, news, p, q);
      return given, byAttrs, slots, news;
    }
    var region, isNew := TurnWithSlot(pool, addrs, i, given, byAttrs, id, infos, owned, requests, members, news, p, q);
    given', byAttrs', slots', news' := given[addrs[i].name := region], byAttrs, slots, news;
    if isNew { byAttrs', slots', news' := byAttrs[region.attrs := region], slots - 1, news + {region}; }
  }

  /** The loop over the addresses. */
  method HandOutAll(pool: PmaRegion, addrs: seq<ParsedAddress>, free: int, firstId: nat, ghost infos: seq<PmaInfo?>,
                    ghost owned: set<PmaInfo>, ghost requests: seq<(Attributes, nat)>, ghost members: set<PmaInfo>,
                    ghost v: seq<Region>)
    returns (given: map<string, PmaInfo>, slots: int, ghost news: set<PmaInfo>)
    requires v != [] && |addrs| == |requests|
    requires OnTurn(pool, addrs, 0, map[], map[], infos, requests, members, {}, PlanTo(requests, v, free, 0))
    requires forall j :: 0 <= j < |infos| && infos[j] != null ==> infos[j] in owned
    modifies addrs, owned, pool`entries, members
    ensures pool.Valid() && pool.added == old(pool.added) && HeldIn(pool.entries, members)
    ensures |news| == free - slots && fresh(news) && members !! news
    ensures GivenOut(addrs, |addrs|, given, members, news, slots) && Served(addrs, |addrs|, requests, given)
    ensures var p := PlanTo(requests, v, free, |addrs|);
            slots == p.slots && Follows(addrs, |addrs|, given, members, news, p.outcomes)
  {
    given, slots, news := map[], free, {};
    var byAttrs: map<Attributes, PmaInfo> := map[];
    var i := 0;
    while i < |addrs|
      invariant 0 <= i <= |addrs| && pool.added == old(pool.added) && slots == PlanTo(requests, v, free, i).slots
      invariant |news| == free - slots && fresh(news)
      invariant OnTurn(pool, addrs, i, given, byAttrs, infos, requests, members, news, PlanTo(requests, v, free, i))
    {
      given, byAttrs, slots, news :=
        Turn(pool, addrs, i, given, byAttrs, slots, firstId + i, infos, owned, requests, members, news, v, free);
      i := i + 1;
    }
  }

  /** The loop with the slots left after counting the regions of the entries v, which the counting leaves merged. */
  method Serve(pool: PmaRegion, addrs: seq<ParsedAddress>, maxRegions: nat, current: nat, firstId: nat,
               ghost v: seq<Region>, ghost requests: seq<(Attributes, nat)>, ghost members: set<PmaInfo>,
               ghost owned: set<PmaInfo>)
    returns (given: map<string, PmaInfo>, slots: int, ghost news: set<PmaInfo>)
    requires pool.Valid() && Batch(addrs, pool) && requests == Requests(addrs)
    requires HeldIn(pool.entries, members) && owned == Infos(addrs)
    requires v != [] && Values(pool.entries) == Consolidate(v).stored && current == |Consolidate(v).out|
    modifies addrs, owned, pool`entries, members
    ensures pool.Valid() && pool.added == old(pool.added) && EntrySet(pool) == members
    ensures fresh(news) && members !! news && |news| == maxRegions - current - slots
    ensures current <= maxRegions ==> slots >= 0
    ensures Handed(addrs, |addrs|, requests, pool, given, news, slots)
    ensures Follows(addrs, |addrs|, given, members, news, Outcomes(requests, v, maxRegions))
    ensures AllMet(requests, v) ==> slots == maxRegions - current
  {
    NothingMade(requests, v, maxRegions);
    given, slots, news := HandOutAll(pool, addrs, maxRegions - current, firstId, InfoList(addrs), owned, requests,
                                     members, Consolidate(v).stored);
    AllHanded(addrs, requests, pool, given, members, news, slots);
  }

  /** _pre_allocate_pma_regions_for_in_pma, given the addresses with in_pma set. It raises when the pool is
      empty, because counting its regions does. */
  method PreAllocate(pool: PmaRegion, addrs: seq<ParsedAddress>, maxRegions: nat, firstId: nat)
    returns (raised: bool, given: map<string, PmaInfo>, created: nat, slots: int, ghost news: set<PmaInfo>)
    requires pool.Valid() && Batch(addrs, pool)
    modifies pool`entries, pool.entries, addrs, Infos(addrs)
    ensures pool.Valid() && pool.added == old(pool.added)
    ensures raised <==> old(pool.entries) == []
    // new regions use up slots one for one and never push the count past the limit
    ensures !raised ==> var current := |Consolidate(old(Values(pool.entries))).out|;
              slots == maxRegions - current - created && |news| == created &&
                (current <= maxRegions ==> current + created <= maxRegions)
    ensures fresh(news) && EntrySet(pool) !! news
    // whatever is handed out meets the request it was handed out for, and with a slot left over nobody went without
    ensures !raised ==> Handed(addrs, |addrs|, old(Requests(addrs)), pool, given, news, slots)
    // each address gets what the plan says: a region of the pool, one made in the batch, or nothing
    ensures !raised ==>
              Follows(addrs, |addrs|, given, EntrySet(pool), news,
                      Outcomes(old(Requests(addrs)), old(Values(pool.entries)), maxRegions))
    // nothing is made when the pool meets every request
    ensures !raised && AllMet(old(Requests(addrs)), old(Values(pool.entries))) ==> created == 0
  {
    given, created, slots, news := map[], 0, 0, {};
    ghost var v, requests, members, before := Values(pool.entries), Requests(addrs), EntrySet(pool), pool.entries;
    ghost var owned := Infos(addrs);
    var regions;
    raised, regions := pool.ConsolidatedEntries();
    if raised { return; }
    StillHeld(before, pool.entries, members);
    assert Requests(addrs) == requests;
    given, slots, news := Serve(pool, addrs, maxRegions, |regions|, firstId, v, requests, members, owned);
    created := maxRegions - |regions| - slots;
  }

  ghost function EntrySet(pool: PmaRegion): set<PmaInfo>
    reads pool
  {
    set e | e in pool.entries
  }

  /** The outcome of each address, for the entries v before counting them. */
  ghost function Outcomes(requests: seq<(Attributes, nat)>, v: seq<Region>, maxRegions: nat): seq<Outcome>
    requires v != []
  {
    PlanTo(requests, Consolidate(v).stored, maxRegions - |Consolidate(v).out|, |requests|).outcomes
  }

  ghost predicate AllMet(requests: seq<(Attributes, nat)>, v: seq<Region>)
    requires v != []
  {
    forall j :: 0 <= j < |requests| ==> MetBy(Consolidate(v).out, requests[j])
  }

  lemma NothingMade(requests: seq<(Attributes, nat)>, v: seq<Region>, maxRegions: nat)
    requires v != []
    ensures AllMet(requests, v) ==>
              PlanTo(requests, Consolidate(v).stored, maxRegions - |Consolidate(v).out|, |requests|).slots
                == maxRegions - |Consolidate(v).out|
  {
    if AllMet(requests, v) {
      var stored, free := Consolidate(v).stored, maxRegions - |Consolidate(v).out|;
      PlanMeaning(requests, stored, free, |requests|);
      forall j | 0 <= j < |requests| ensures Outcomes(requests, v, maxRegions)[j] != NewRegion {
        MetAgain(v, requests[j]);
        MetAtFirst(requests, stored, free, j);
      }
      NoneNew(Outcomes(requests, v, maxRegions), |requests|);
    }
  }

  function InfoList(addrs: seq<ParsedAddress>): (r: seq<PmaInfo?>)
    reads addrs
    ensures |r| == |addrs|
  {
    seq(|addrs|, i requires 0 <= i < |addrs| reads addrs => addrs[i].pmaInfo)
  }

  function Requests(addrs: seq<ParsedAddress>): (r: seq<(Attributes, nat)>)
    reads addrs, Infos(addrs)
    ensures |r| == |addrs|
  {
    seq(|addrs|, i requires 0 <= i < |addrs| reads addrs, Infos(addrs) => addrs[i].Request())
  }
}
