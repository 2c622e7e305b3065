/** Handing out vector register groups (riescue/compliance/lib/register_manager.py; register grouping is
    section 3.4.2 of the RISC-V "V" Vector Extension 1.0). A register is its number. */
module VectorRegs {
  import opened Wrappers

  datatype Vlmul = M1 | M2 | M4 | M8 | MF2 | MF4 | MF8

  /** lmul_map, with fractions raised to 1. */
  function Lmul(v: Vlmul): nat {
    match v
    case M2 => 2
    case M4 => 4
    case M8 => 8
    case _ => 1
  }

  /** The multiplier of each setting, in eighths of a register. */
  function Eighths(v: Vlmul): nat {
    match v
    case MF8 => 1
    case MF4 => 2
    case MF2 => 4
    case M1 => 8
    case M2 => 16
    case M4 => 32
    case M8 => 64
  }

  /** Whatever the register width, n registers hold the operand of a setting exactly if n is at least its group. */
  lemma GroupHoldsOperandIff(v: Vlmul, vlen: nat, n: nat)
    requires vlen > 0
    ensures 8 * (n * vlen) >= Eighths(v) * vlen <==> n >= Lmul(v)
  {
    assert 8 * (n * vlen) == (8 * n) * vlen;
    CompareScaled(8 * n, Eighths(v), vlen);
  }

  lemma CompareScaled(a: nat, b: nat, m: nat)
    requires m > 0
    ensures a * m >= b * m <==> a >= b
  {
    if a >= b {
      assert a * m - b * m == (a - b) * m >= 0;
    } else {
      assert b * m - a * m == (b - a) * m;
      assert (b - a) * m == (b - a - 1) * m + m;
    }
  }

  predicate IsLmul(l: nat) { l == 1 || l == 2 || l == 4 || l == 8 }

  /** s is a multiple of the group size l (AlignedIsMultiple). */
  predicate Aligned(s: nat, l: nat) {
    || l == 1
    || (l == 2 && s % 2 == 0)
    || (l == 4 && s % 4 == 0)
    || (l == 8 && s % 8 == 0)
  }

  lemma AlignedIsMultiple(s: nat, l: nat)
    requires IsLmul(l)
    ensures Aligned(s, l) <==> s % l == 0
  {
    if l == 1 {} else if l == 2 {} else if l == 4 {}
  }

  /** Register s starts a group of l registers inside v0-v31. */
  predicate GroupStart(s: nat, l: nat) { Aligned(s, l) && s + l <= 32 }

  ghost predicate Free(s: nat, l: nat, reserved: set<nat>) { forall k :: s <= k < s + l ==> k !in reserved }

  ghost predicate NoDup(s: seq<nat>) { forall i, j :: 0 <= i < j < |s| ==> s[i] != s[j] }

  /** The registers of the group of l registers starting at s. */
  ghost function Group(s: nat, l: nat): set<nat> { set k: nat | s <= k < s + l && InGroup(k, s, l) }

  predicate InGroup(k: nat, s: nat, l: nat) { s <= k < s + l }

  ghost function Elements(s: seq<nat>): set<nat> { set x | x in s }

  function Range(lo: nat, n: nat): (r: seq<nat>)
    ensures |r| == n && forall i :: 0 <= i < n ==> r[i] == lo + i
  {
    seq(n, i requires 0 <= i < n => lo + i)
  }

  /** Every register available after randomizing, as a set. */
  ghost function AvailAfter(avail: set<nat>, reserved: set<nat>, l: nat, keepAvail: bool, keepReserved: bool): set<nat>
  {
    set r: nat | r < 32 && Aligned(r, l) && (keepReserved ==> Free(r, l, reserved))
                 && (keepAvail ==> r in avail || (!keepReserved && r in reserved))
  }

  function Kept(reserved: set<nat>, keepReserved: bool): set<nat> { if keepReserved then reserved else {} }

  /** Every free aligned group can be handed out. */
  ghost predicate CompleteFor(avail: set<nat>, reserved: set<nat>, l: nat) {
    forall s: nat :: GroupStart(s, l) && Free(s, l, reserved) ==> s in avail
  }

  lemma AlignedForSmaller(s: nat, small: nat, large: nat)
    requires IsLmul(small) && IsLmul(large) && small <= large && Aligned(s, large)
    ensures Aligned(s, small)
  {}

  lemma StartFits(s: nat, l: nat)
    requires s < 32 && Aligned(s, l)
    ensures GroupStart(s, l)
  {}

  /** Every group free for the new size already was one of the old size, or was reserved and is given back. */
  ghost predicate KeepsAll(reserved: set<nat>, was: nat, l: nat, keepAvail: bool, keepReserved: bool) {
    keepAvail ==> forall s: nat :: GroupStart(s, l) && Free(s, l, Kept(reserved, keepReserved)) ==>
                    (GroupStart(s, was) && Free(s, was, reserved)) || (!keepReserved && s in reserved)
  }

  /** From a complete list of free groups the new list is complete exactly then. Old availabilities that are
      discarded do not matter. */
  lemma CompleteIffKeepsAll(avail: set<nat>, reserved: set<nat>, was: nat, l: nat, keepAvail: bool, keepReserved: bool)
    requires IsLmul(was) && IsLmul(l)
    requires keepAvail ==> CompleteFor(avail, reserved, was)
    requires forall r :: r in avail ==> GroupStart(r, was) && Free(r, was, reserved)
    ensures CompleteFor(AvailAfter(avail, reserved, l, keepAvail, keepReserved), Kept(reserved, keepReserved), l) <==>
              KeepsAll(reserved, was, l, keepAvail, keepReserved)
  {
    var after, kept := AvailAfter(avail, reserved, l, keepAvail, keepReserved), Kept(reserved, keepReserved);
    if CompleteFor(after, kept, l) && keepAvail {
      forall s: nat | GroupStart(s, l) && Free(s, l, kept)
        ensures (GroupStart(s, was) && Free(s, was, reserved)) || (!keepReserved && s in reserved)
      {
        assert s in after;
      }
    }
    if KeepsAll(reserved, was, l, keepAvail, keepReserved) {
      forall s: nat | GroupStart(s, l) && Free(s, l, kept) ensures s in after {}
    }
  }

  /** In particular when the group size does not shrink and the reservations stay. */
  lemma GrowingKeepsAll(reserved: set<nat>, was: nat, l: nat, keepAvail: bool)
    requires IsLmul(was) && IsLmul(l) && was <= l
    ensures KeepsAll(reserved, was, l, keepAvail, true)
  {
    forall s: nat | GroupStart(s, l) && Free(s, l, reserved) ensures GroupStart(s, was) && Free(s, was, reserved) {
      AlignedForSmaller(s, was, l);
    }
  }

  /** Keeping availabilities while the group size shrinks does lose registers: going from all registers to
      pairs and back to single registers leaves v1 free but unavailable. */
  lemma ShrinkingLosesRegisters()
    ensures var all := Group(0, 32);
            var pairs := AvailAfter(all, {}, 2, true, true);
            CompleteFor(all, {}, 1) && CompleteFor(pairs, {}, 2) &&
              !CompleteFor(AvailAfter(pairs, {}, 1, true, true), {}, 1)
  {
    var all := Group(0, 32);
    var pairs := AvailAfter(all, {}, 2, true, true);
    GrowingKeepsAll({}, 1, 2, true);
    CompleteIffKeepsAll(all, {}, 1, 2, true, true);
    CompleteIffKeepsAll(pairs, {}, 2, 1, true, true);
    assert GroupStart(1, 1) && Free(1, 1, {}) && !GroupStart(1, 2);
  }

  class RegisterManager {
    var avail: seq<nat>
    var reserved: seq<nat>
    var lmul: nat
    /** The groups handed out since the reservations were last dropped. */
    ghost var held: seq<(nat, nat)>

    ghost predicate Valid()
      reads this
    {
      && IsLmul(lmul) && NoDup(avail) && NoDup(reserved)
      // every available register starts an aligned group that touches no reserved register
      && (forall r :: r in avail ==> GroupStart(r, lmul) && Free(r, lmul, Elements(reserved)))
      && HeldGroups(held, Elements(reserved))
    }

    ghost predicate Complete()
      reads this
    {
      CompleteFor(Elements(avail), Elements(reserved), lmul)
    }

    constructor ()
      ensures Valid() && Complete() && held == [] && lmul == 1
    {
      avail, reserved, lmul, held := Range(0, 32), [], 1, [];
      new;
      avail := Shuffle(avail);
      AllAvailable(avail);
    }

    /** reinit_vregs */
    method ReinitVregs()
      modifies this
      ensures Valid() && Complete() && held == [] && lmul == 1
    {
      avail, reserved, lmul, held := Range(0, 32), [], 1, [];
      AllAvailable(avail);
    }

    /** randomize_regs; without a configuration it does nothing. */
    method RandomizeRegs(config: Option<Vlmul>, keepAvail: bool, keepReserved: bool)
      requires Valid()
      modifies this
      ensures Valid()
      ensures config == None ==>
                avail == old(avail) && reserved == old(reserved) && held == old(held) && lmul == old(lmul)
      ensures config.Some? ==>
                && lmul == Lmul(config.value)
                && Elements(avail) ==
                  AvailAfter(old(Elements(avail)), old(Elements(reserved)), lmul, keepAvail, keepReserved)
                && (if keepReserved then reserved == old(reserved) && held == old(held)
                    else reserved == [] && held == [])
                && (!keepAvail || old(Complete()) ==>
                      (Complete() <==> KeepsAll(old(Elements(reserved)), old(lmul), lmul, keepAvail, keepReserved)))
    {
      if config == None { return; }
      ghost var was, first, kept := lmul, Elements(avail), Elements(reserved);
      ghost var wasComplete := CompleteFor(first, kept, was);
      var l := Lmul(config.value);
      lmul := l;
      if !keepReserved {
        Joined(avail, reserved, was);
        avail := avail + reserved;
        reserved, held := [], [];
      }
      avail := StillAvailable(l, avail, reserved, keepAvail);
      ghost var now := Elements(reserved);
      forall r | r in avail ensures GroupStart(r, l) && Free(r, l, now) {
        StartFits(r, l);
      }
      Randomized(avail, first, kept, l, keepAvail, keepReserved);
      if !keepAvail || wasComplete { CompleteIffKeepsAll(first, kept, was, l, keepAvail, keepReserved); }
    }

    /** get_random_reg for a vector register: the first available register is removed and its group reserved. */
    method GetRandomReg() returns (r: Option<nat>)
      requires Valid()
      modifies this
      ensures Valid() && lmul == old(lmul)
      ensures old(avail) == [] ==> r == None && avail == [] && reserved == old(reserved) && held == old(held)
      ensures old(avail) != [] ==>
                && r == Some(old(avail)[0]) && avail == old(avail)[1..]
                && reserved == old(reserved) + Range(r.value, lmul) && held == old(held) + [(r.value, lmul)]
                && r.value % lmul == 0 && r.value + lmul <= 32
      ensures old(Complete()) ==> Complete()
      ensures old(Complete()) ==>
                (r == None <==> forall s: nat :: GroupStart(s, lmul) ==> !Free(s, lmul, old(Elements(reserved))))
    {
      if |avail| == 0 { return None; }
      r := Some(avail[0]);
      assert r.value in avail;
      AlignedIsMultiple(r.value, lmul);
      TakeFirst(avail, Elements(reserved), lmul);
      HoldGroup(held, Elements(reserved), r.value, lmul);
      ReservedElements(reserved, r.value, lmul);
      assert NoDup(avail[1..]);
      avail := RemoveFirst(avail, r.value);
      ReserveOverlapRegs(r.value, lmul);
      held := held + [(r.value, lmul)];
    }

    /** reserve_overlap_regs */
    method ReserveOverlapRegs(reg: nat, l: nat)
      modifies this`reserved
      ensures reserved == old(reserved) + Range(reg, l)
    {
      var k := reg;
      while k < reg + l
        invariant reg <= k <= reg + l
        invariant reserved == old(reserved) + Range(reg, k - reg)
      {
        assert Range(reg, k - reg) + [k] == Range(reg, k + 1 - reg);
        reserved := reserved + [k];
        k := k + 1;
      }
    }
  }

  lemma AllAvailable(s: seq<nat>)
    requires forall x: nat :: x in s <==> x in Range(0, 32)
    ensures forall x: nat :: x in s <==> x < 32
    ensures forall x :: x in s ==> GroupStart(x, 1) && Free(x, 1, Elements([]))
    ensures CompleteFor(Elements(s), Elements([]), 1)
  {
    forall x: nat ensures x in s <==> x < 32 {
      if x < 32 { assert Range(0, 32)[x] == x; }
    }
  }

  /** Two different aligned groups do not overlap. */
  lemma GroupsDisjoint(s: nat, t: nat, l: nat)
    requires Aligned(s, l) && Aligned(t, l) && s != t
    ensures s + l <= t || t + l <= s
  {
    var a := Quotient(s, l);
    var b := Quotient(t, l);
    if a < b { Multiples(l, a, b); } else if b < a { Multiples(l, b, a); }
  }

  lemma Quotient(s: nat, l: nat) returns (q: nat)
    requires Aligned(s, l)
    ensures s == l * q
  {
    q := if l == 2 then s / 2 else if l == 4 then s / 4 else if l == 8 then s / 8 else s;
  }

  lemma Multiples(l: nat, a: nat, b: nat)
    requires a < b
    ensures l * a + l <= l * b
  {
    assert l * (a + 1) <= l * b;
  }

  lemma ReservedElements(reserved: seq<nat>, s: nat, l: nat)
    ensures Elements(reserved + Range(s, l)) == Elements(reserved) + Group(s, l)
    ensures NoDup(reserved) && Free(s, l, Elements(reserved)) ==> NoDup(reserved + Range(s, l))
  {
    var grown := reserved + Range(s, l);
    forall k | k in Group(s, l) ensures k in grown {
      assert grown[|reserved| + (k - s)] == k;
    }
    assert forall i :: 0 <= i < |reserved| ==> reserved[i] in Elements(reserved) && grown[i] == reserved[i];
    assert forall i :: |reserved| <= i < |grown| ==> grown[i] == s + (i - |reserved|);
  }

  /** Reserving the first available group leaves the others free, and loses no free group. */
  lemma TakeFirst(avail: seq<nat>, reserved: set<nat>, l: nat)
    requires IsLmul(l) && avail != [] && NoDup(avail)
    requires forall r :: r in avail ==> GroupStart(r, l) && Free(r, l, reserved)
    ensures forall r :: r in avail[1..] ==> r in avail && Free(r, l, reserved + Group(avail[0], l))
    ensures CompleteFor(Elements(avail), reserved, l) ==>
              CompleteFor(Elements(avail[1..]), reserved + Group(avail[0], l), l)
  {
    var first := avail[0];
    var grown := reserved + Group(first, l);
    assert first in avail;
    forall r | r in avail[1..] ensures r in avail && Free(r, l, grown) {
      var i :| 0 <= i < |avail| - 1 && avail[i + 1] == r;
      assert r in avail;
      GroupsDisjoint(r, first, l);
    }
    if CompleteFor(Elements(avail), reserved, l) {
      forall s: nat | GroupStart(s, l) && Free(s, l, grown) ensures s in Elements(avail[1..]) {
        assert first in grown;
        assert Free(s, l, reserved);
        assert avail == [first] + avail[1..];
      }
    }
  }

  /** The reserved registers are exactly the groups handed out, which are aligned and pairwise disjoint. */
  ghost predicate HeldGroups(held: seq<(nat, nat)>, reserved: set<nat>) {
    && (forall k :: k in reserved <==> exists i :: 0 <= i < |held| && held[i].0 <= k < held[i].0 + held[i].1)
    && (forall i :: 0 <= i < |held| ==> IsLmul(held[i].1) && GroupStart(held[i].0, held[i].1))
    && (forall i, j :: 0 <= i < j < |held| ==> held[i].0 + held[i].1 <= held[j].0 || held[j].0 + held[j].1 <= held[i].0)
  }

  /** Handing out one more free group keeps the groups disjoint. */
  lemma HoldGroup(held: seq<(nat, nat)>, reserved: set<nat>, first: nat, l: nat)
    requires HeldGroups(held, reserved) && IsLmul(l) && GroupStart(first, l) && Free(first, l, reserved)
    ensures HeldGroups(held + [(first, l)], reserved + Group(first, l))
  {
    var held', grown := held + [(first, l)], reserved + Group(first, l);
    forall i | 0 <= i < |held| ensures held[i].0 + held[i].1 <= first || first + l <= held[i].0 {
      var k := if held[i].0 <= first then first else held[i].0;
      assert held[i].0 <= k < held[i].0 + held[i].1 ==> k in reserved;
      assert first <= k < first + l ==> k !in reserved;
    }
    forall k ensures k in grown <==> exists i :: 0 <= i < |held'| && held'[i].0 <= k < held'[i].0 + held'[i].1 {
      if k in reserved {
        var i :| 0 <= i < |held| && held[i].0 <= k < held[i].0 + held[i].1;
        assert held'[i] == held[i];
      } else if k in Group(first, l) {
        assert held'[|held|] == (first, l);
      }
    }
  }

  /** Available and reserved registers are different ones. */
  lemma Joined(avail: seq<nat>, reserved: seq<nat>, l: nat)
    requires l > 0 && NoDup(avail) && NoDup(reserved)
    requires forall r :: r in avail ==> Free(r, l, Elements(reserved))
    ensures NoDup(avail + reserved)
  {
    forall i, j | 0 <= i < |avail| && 0 <= j < |reserved| ensures avail[i] != reserved[j] {
      assert avail[i] in avail && reserved[j] in Elements(reserved);
    }
  }

  /** list.remove */
  function RemoveFirst(s: seq<nat>, x: nat): (r: seq<nat>)
    requires x in s
    ensures x == s[0] ==> r == s[1..]
  {
    if s[0] == x then s[1..] else [s[0]] + RemoveFirst(s[1..], x)
  }

  lemma Randomized(avail: seq<nat>, first: set<nat>, kept: set<nat>, l: nat, keepAvail: bool, keepReserved: bool)
    requires forall x: nat :: x in avail <==>
               && x < 32 && Aligned(x, l) && Free(x, l, if keepReserved then kept else {})
               && (keepAvail ==> x in first || (!keepReserved && x in kept))
    ensures Elements(avail) == AvailAfter(first, kept, l, keepAvail, keepReserved)
  {}

  /** The availability update of randomize_regs. */
  method StillAvailable(l: nat, avail: seq<nat>, reserved: seq<nat>, keepAvail: bool) returns (r: seq<nat>)
    requires IsLmul(l) && NoDup(avail)
    ensures NoDup(r)
    ensures forall x: nat :: x in r <==>
              x < 32 && Aligned(x, l) && Free(x, l, Elements(reserved)) && (keepAvail ==> x in avail)
  {
    var starts := Starts(l);
    if keepAvail { r := Keep(avail, starts, reserved); } else { r := Keep(starts, starts, reserved); }
    r := CheckForOverlap(l, r, reserved);
    r := Shuffle(r);
    assert forall x: nat :: Free(x, l, Elements(reserved)) && l > 0 ==> x !in Elements(reserved);
  }

  /** range(0, 32, lmul) */
  method Starts(l: nat) returns (r: seq<nat>)
    requires IsLmul(l)
    ensures NoDup(r) && forall x: nat :: x in r <==> x < 32 && Aligned(x, l)
  {
    r := [];
    var x: nat := 0;
    while x < 32
      invariant Aligned(x, l)
      invariant NoDup(r) && forall y: nat :: y in r <==> y < x && y < 32 && Aligned(y, l)
    {
      forall y: nat | x < y < x + l ensures !Aligned(y, l) {
        if Aligned(y, l) { GroupsDisjoint(x, y, l); }
      }
      r := r + [x];
      x := x + l;
    }
  }

  /** The list comprehension of randomize_regs. */
  method Keep(s: seq<nat>, allowed: seq<nat>, reserved: seq<nat>) returns (r: seq<nat>)
    ensures forall x :: x in r <==> x in s && x in allowed && x !in reserved
    ensures NoDup(s) ==> NoDup(r)
  {
    r := [];
    for i := 0 to |s|
      invariant forall x :: x in r <==> x in s[..i] && x in allowed && x !in reserved
      invariant NoDup(s) ==> NoDup(r)
    {
      assert NoDup(s) ==> s[i] !in s[..i];
      assert s[..i + 1] == s[..i] + [s[i]];
      if s[i] in allowed && s[i] !in reserved { r := r + [s[i]]; }
    }
  }

  /** check_for_overlap_with_reserved */
  method CheckForOverlap(l: nat, initial: seq<nat>, reserved: seq<nat>) returns (r: seq<nat>)
    ensures forall x :: x in r <==> x in initial && Free(x, l, Elements(reserved))
    ensures NoDup(initial) ==> NoDup(r)
  {
    r := [];
    for i := 0 to |initial|
      invariant forall x :: x in r <==> x in initial[..i] && Free(x, l, Elements(reserved))
      invariant NoDup(initial) ==> NoDup(r)
    {
      assert NoDup(initial) ==> initial[i] !in initial[..i];
      assert initial[..i + 1] == initial[..i] + [initial[i]];
      var ok, k := true, initial[i];
      while k < initial[i] + l
        invariant initial[i] <= k <= initial[i] + l
        invariant ok && forall j :: initial[i] <= j < k ==> j !in reserved
      {
        if k in reserved { ok := false; break; }
        k := k + 1;
      }
      assert !ok ==> k in Elements(reserved);
      if ok { r := r + [initial[i]]; }
    }
  }

  /** The random shuffle, by exchanges. */
  method Shuffle(s: seq<nat>) returns (r: seq<nat>)
    ensures forall x :: x in r <==> x in s
    ensures NoDup(s) ==> NoDup(r)
  {
    r := s;
    for i := 0 to |s|
      invariant |r| == |s| && (forall x :: x in r <==> x in s)
      invariant NoDup(s) ==> NoDup(r)
    {
      var j :| 0 <= j <= i;
      ghost var before := r;
      r := r[i := r[j]][j := r[i]];
      forall x ensures x in r <==> x in before {
        if k :| 0 <= k < |before| && before[k] == x {
          assert r[if k == i then j else if k == j then i else k] == x;
        }
        if k :| 0 <= k < |r| && r[k] == x {
          assert before[if k == i then j else if k == j then i else k] == x;
        }
      }
    }
  }
}
