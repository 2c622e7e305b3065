/** The pool of CSR accesses and the ids that select them (riescue/dtest_framework/pool.py:254-291,
    riescue/dtest_framework/parser.py:1007-1020 and 1106-1124, riescue/dtest_framework/runtime/macros.py:489-497). */
module CsrAccess {
  import opened Wrappers

  /** ParsedCsrAccess, without the fields that only decorate the generated text. */
  datatype Access = Access(csr: string, op: string, field: Option<string>, force: bool, id: nat)

  predicate Subfield(op: string) { op == "write_subfield" || op == "read_subfield" }

  /** A subfield operation carries the name of its field. */
  function Qualify(op: string, field: Option<string>): string {
    if Subfield(op) && field.Some? && field.value != "" then op + "_" + field.value else op
  }

  function WithForce(op: string, force: bool): string { if force then op + "_force_machine" else op }

  /** The key a directive's own operation, field and force flag are looked up under. */
  function Key(op: string, field: Option<string>, force: bool): string { WithForce(Qualify(op, field), force) }

  /** add_parsed_csr_access raises on a subfield operation without a field. */
  predicate Rejected(a: Access) { Subfield(a.op) && (a.field == None || a.field.value == "") }

  /** The access as it is stored: its operation is rewritten in place. */
  function Qualified(a: Access): Access { a.(op := Qualify(a.op, a.field)) }

  function StoredKey(a: Access): string { WithForce(a.op, a.force) }

  ghost predicate Under(a: Access, csr: string, key: string) { a.csr == csr && StoredKey(a) == key }

  /** The first access offered under csr and key. */
  ghost function First(offered: seq<Access>, csr: string, key: string): (r: Option<Access>)
    ensures r.Some? ==> r.value in offered && Under(r.value, csr, key)
    ensures r == None ==> forall a :: a in offered ==> !Under(a, csr, key)
  {
    if offered == [] then None
    else
      var before := First(offered[..|offered| - 1], csr, key);
      if before.Some? then before
      else if Under(offered[|offered| - 1], csr, key) then Some(offered[|offered| - 1]) else None
  }

  /** What the nested dictionary holds under csr and key. */
  ghost function At(accesses: map<string, map<string, Access>>, csr: string, key: string): Option<Access> {
    if csr in accesses && key in accesses[csr] then Some(accesses[csr][key]) else None
  }

  /** An id selects at most one stored access. */
  ghost predicate DistinctIds(accesses: map<string, map<string, Access>>) {
    forall c, k, d, l {:trigger At(accesses, c, k), At(accesses, d, l)} ::
      At(accesses, c, k).Some? && At(accesses, d, l).Some? && At(accesses, c, k).value.id == At(accesses, d, l).value.id
      ==> c == d && k == l
  }

  ghost predicate IdsBelow(accesses: map<string, map<string, Access>>, next: nat) {
    forall c, k {:trigger At(accesses, c, k)} ::
      At(accesses, c, k).Some? ==> 1 <= At(accesses, c, k).value.id < next
  }

  ghost predicate IdUsed(accesses: map<string, map<string, Access>>, id: nat) {
    exists c, k :: At(accesses, c, k).Some? && At(accesses, c, k).value.id == id
  }

  /** An offer is stored under its key unless that key is taken, and changes nothing else. */
  ghost predicate Offered(was: map<string, map<string, Access>>, now: map<string, map<string, Access>>, a: Access) {
    forall c, k {:trigger At(now, c, k)} {:trigger At(was, c, k)} :: At(now, c, k) ==
      if At(was, c, k).Some? then At(was, c, k) else if Under(a, c, k) then Some(a) else None
  }

  /** An offer keeps ids distinct exactly when its key is taken, so that it is refused, or its id is not in use. */
  lemma OfferKeepsDistinctIff(was: map<string, map<string, Access>>, now: map<string, map<string, Access>>, a: Access)
    requires DistinctIds(was) && Offered(was, now, a)
    ensures DistinctIds(now) <==> At(was, a.csr, StoredKey(a)).Some? || !IdUsed(was, a.id)
  {
    var key := StoredKey(a);
    if At(was, a.csr, key).Some? {
      forall c, k ensures At(now, c, k) == At(was, c, k) {}
      assert DistinctIds(now);
    } else if IdUsed(was, a.id) {
      var c, k :| At(was, c, k).Some? && At(was, c, k).value.id == a.id;
      assert At(now, c, k).Some? && At(now, a.csr, key) == Some(a);
      assert (c, k) != (a.csr, key);
    } else {
      forall c, k, d, l |
        At(now, c, k).Some? && At(now, d, l).Some? && At(now, c, k).value.id == At(now, d, l).value.id
        ensures c == d && k == l
      {
        assert At(was, c, k).Some? || Under(a, c, k);
        assert At(was, d, l).Some? || Under(a, d, l);
      }
    }
  }

  lemma OfferBelow(was: map<string, map<string, Access>>, now: map<string, map<string, Access>>, a: Access, next: nat)
    requires IdsBelow(was, a.id) && 1 <= a.id < next && Offered(was, now, a)
    ensures IdsBelow(now, next) && !IdUsed(was, a.id)
  {
    forall c, k | At(now, c, k).Some? ensures 1 <= At(now, c, k).value.id < next {
      assert At(was, c, k).Some? || Under(a, c, k);
    }
  }

  /** Two keys of known operations are the same only for the same operation, force flag and, for a subfield
      operation, the same field, unless one of the fields, with the underscore before it, ends in the force suffix. */
  lemma KeysTellApart(op: string, field: Option<string>, force: bool, op': string, field': Option<string>, force': bool)
    requires KnownOp(op) && KnownOp(op')
    requires Subfield(op) ==> field.Some? && field.value != "" && !Suffixed("_" + field.value)
    requires Subfield(op') ==> field'.Some? && field'.value != "" && !Suffixed("_" + field'.value)
    requires Key(op, field, force) == Key(op', field', force')
    ensures op == op' && force == force' && (Subfield(op) ==> field == field')
  {
    var key := Key(op, field, force);
    var q, q' := Qualify(op, field), Qualify(op', field');
    QualifiedNotSuffixed(op, field);
    QualifiedNotSuffixed(op', field');
    SuffixIffForce(q, force);
    SuffixIffForce(q', force');
    assert force == force';
    assert q == key[..|q|] && q' == key[..|q'|];
    assert q == q';
    assert if Subfield(op) then |q| >= 15 else |q| <= 9;
    assert if Subfield(op') then |q'| >= 15 else |q'| <= 9;
    if Subfield(op) {
      assert q[0] == op[0] && q'[0] == op'[0];
      assert field.value == q[|op| + 1..] && field'.value == q'[|op'| + 1..];
    }
  }

  /** The operations the jump tables know. */
  predicate KnownOp(op: string) {
    op == "read" || op == "write" || op == "set" || op == "clear" || op == "set_bit" || op == "clear_bit" ||
      Subfield(op)
  }

  predicate Suffixed(s: string) { |s| >= 14 && s[|s| - 14..] == "_force_machine" }

  lemma SuffixIffForce(q: string, force: bool)
    requires !Suffixed(q)
    ensures Suffixed(WithForce(q, force)) <==> force
    ensures |WithForce(q, force)| == |q| + if force then 14 else 0
  {
    if force { assert WithForce(q, force)[|q|..] == "_force_machine"; }
  }

  lemma QualifiedNotSuffixed(op: string, field: Option<string>)
    requires KnownOp(op) && (Subfield(op) ==> field.Some? && field.value != "" && !Suffixed("_" + field.value))
    ensures !Suffixed(Qualify(op, field))
  {
    if Subfield(op) {
      assert op[|op| - 1] == 'd';
      SubfieldNotSuffixed(op, field.value);
    }
  }

  lemma SubfieldNotSuffixed(op: string, field: string)
    requires op != "" && op[|op| - 1] == 'd' && !Suffixed("_" + field)
    ensures !Suffixed(op + "_" + field)
  {
    assert op + "_" + field == op + ("_" + field);
    NotSuffixedAfter(op, "_" + field);
  }

  lemma NotSuffixedAfter(op: string, tail: string)
    requires op != "" && op[|op| - 1] == 'd' && !Suffixed(tail)
    ensures !Suffixed(op + tail)
  {
    var q := op + tail;
    if |tail| >= 14 {
      assert q[|q| - |tail|..] == tail;
      SameTail(q, tail);
    } else if |q| >= 14 {
      NoSuffixOverD(q, |op| - 1);
    }
  }

  lemma SameTail(q: string, tail: string)
    requires |tail| >= 14 && |q| >= |tail| && q[|q| - |tail|..] == tail
    ensures Suffixed(q) <==> Suffixed(tail)
  {
    assert q[|q| - 14..] == q[|q| - |tail|..][|tail| - 14..];
  }

  lemma NoSuffixOverD(q: string, i: nat)
    requires 14 <= |q| <= i + 14 && i < |q| && q[i] == 'd'
    ensures !Suffixed(q)
  {
    SuffixHasNoD(i - (|q| - 14));
    assert q[|q| - 14..][i - (|q| - 14)] == 'd';
  }

  lemma SuffixHasNoD(i: nat)
    requires i < 14
    ensures |"_force_machine"| == 14 && "_force_machine"[i] != 'd'
  {}

  class Pool {
    var accesses: map<string, map<string, Access>>
    /** Every access offered so far, in order. */
    ghost var offered: seq<Access>

    /** The first access offered under each key is the one stored. */
    ghost predicate Valid()
      reads this
    {
      forall c, k {:trigger At(accesses, c, k)} :: At(accesses, c, k) == First(offered, c, k)
    }

    constructor ()
      ensures Valid() && offered == [] && accesses == map[]
    {
      accesses, offered := map[], [];
    }

    /** add_parsed_csr_access; false is the ValueError. */
    method AddParsedCsrAccess(a: Access) returns (ok: bool)
      requires Valid()
      modifies this
      ensures Valid()
      ensures ok == !Rejected(a)
      ensures offered == if ok then old(offered) + [Qualified(a)] else old(offered)
      ensures !ok ==> accesses == old(accesses)
      ensures ok ==> Offered(old(accesses), accesses, Qualified(a))
      // under a key that was free the access itself is stored: its field, flag and id, and the operation with the field
      ensures ok && At(old(accesses), a.csr, Key(a.op, a.field, a.force)) == None ==>
                At(accesses, a.csr, Key(a.op, a.field, a.force)) ==
                  Some(Access(a.csr, if a.op in {"write_subfield", "read_subfield"} then a.op + "_" + a.field.value
                                     else a.op, a.field, a.force, a.id))
    {
      var access := a;
      if Subfield(a.op) {
        if a.field == None || a.field.value == "" { return false; }
        access := a.(op := a.op + "_" + a.field.value);
      }
      var key := if access.force then access.op + "_force_machine" else access.op;
      ghost var was := offered;
      OfferedSnoc(was, access);
      offered := offered + [access];
      assert forall c, k :: First(offered, c, k) == First(was + [access], c, k);
      ghost var stored := accesses;
      if a.csr in accesses && key in accesses[a.csr] {
        assert At(accesses, a.csr, key) == First(was, a.csr, key);
        return true;
      }
      if a.csr !in accesses { accesses := accesses[a.csr := map[]]; }
      accesses := accesses[a.csr := accesses[a.csr][key := access]];
      forall c, k
        ensures At(accesses, c, k) == if At(stored, c, k).Some? then At(stored, c, k)
                                      else if Under(access, c, k) then Some(access) else None
      {
        assert StoredKey(access) == key;
      }
      assert forall c, k {:trigger At(accesses, c, k)} :: At(stored, c, k) == First(was, c, k);
      return true;
    }

    /** get_parsed_csr_access; None is the KeyError. */
    method GetParsedCsrAccess(csr: string, op: string, field: Option<string>, force: bool) returns (r: Option<Access>)
      requires Valid()
      ensures r == First(offered, csr, Key(op, field, force))
    {
      var key := if Subfield(op) && field.Some? && field.value != "" then op + "_" + field.value else op;
      if force { key := key + "_force_machine"; }
      assert At(accesses, csr, key) == First(offered, csr, key);
      if csr in accesses && key in accesses[csr] { return Some(accesses[csr][key]); }
      return None;
    }

    /** get_next_csr_id */
    method GetNextCsrId() returns (id: nat)
      ensures forall c, k {:trigger At(accesses, c, k)} :: At(accesses, c, k).Some? ==> At(accesses, c, k).value.id < id
      ensures id >= 1 && !IdUsed(accesses, id)
      ensures id == 1 || exists c, k :: At(accesses, c, k).Some? && At(accesses, c, k).value.id == id - 1
    {
      var maxId, groups := 0, accesses.Keys;
      while groups != {}
        invariant groups <= accesses.Keys
        invariant forall c, k {:trigger At(accesses, c, k)} :: At(accesses, c, k).Some? && c !in groups ==>
                    At(accesses, c, k).value.id <= maxId
        invariant maxId == 0 || exists c, k :: At(accesses, c, k).Some? && At(accesses, c, k).value.id == maxId
        decreases |groups|
      {
        var c :| c in groups;
        var most := MaxId(accesses[c], maxId);
        assert forall k {:trigger At(accesses, c, k)} :: At(accesses, c, k).Some? ==> k in accesses[c];
        if most != maxId {
          var k :| k in accesses[c] && accesses[c][k].id == most;
          assert At(accesses, c, k) == Some(accesses[c][k]);
        }
        maxId := most;
        groups := groups - {c};
      }
      return maxId + 1;
    }
  }

  lemma OfferedSnoc(offered: seq<Access>, a: Access)
    ensures forall c, k {:trigger First(offered + [a], c, k)} :: First(offered + [a], c, k) ==
              if First(offered, c, k).Some? then First(offered, c, k) else if Under(a, c, k) then Some(a) else None
  {
    assert (offered + [a])[..|offered|] == offered;
  }

  /** The inner loop of get_next_csr_id. */
  method MaxId(group: map<string, Access>, start: nat) returns (most: nat)
    ensures most >= start && forall k :: k in group ==> group[k].id <= most
    ensures most == start || exists k :: k in group && group[k].id == most
  {
    var keys := group.Keys;
    most := start;
    while keys != {}
      invariant keys <= group.Keys
      invariant most >= start && forall k :: k in group && k !in keys ==> group[k].id <= most
      invariant most == start || exists k :: k in group && group[k].id == most
      decreases |keys|
    {
      var k :| k in keys;
      if group[k].id > most { most := group[k].id; }
      keys := keys - {k};
    }
  }

  /** The registration in _csr_ecall_code: set or clear is offered with the pool's next id unless it is stored. The
      access found afterwards is the one stored for the operation, and ids stay distinct, however the counter of the
      parser stands. */
  method CsrEcallAccess(pool: Pool, csr: string, setBit: bool) returns (parsed: Option<Access>)
    requires pool.Valid() && DistinctIds(pool.accesses)
    modifies pool
    ensures pool.Valid() && DistinctIds(pool.accesses)
    ensures parsed == First(pool.offered, csr, if setBit then "set" else "clear") && parsed.Some?
    ensures forall c, k :: First(old(pool.offered), c, k).Some? ==>
              First(pool.offered, c, k) == First(old(pool.offered), c, k)
  {
    var operation := if setBit then "set" else "clear";
    if csr !in pool.accesses || operation !in pool.accesses[csr] {
      var csrId := pool.GetNextCsrId();
      var a := Access(csr, operation, None, false, csrId);
      ghost var was, offers := pool.accesses, pool.offered;
      assert !Subfield(operation) && Qualified(a) == a && StoredKey(a) == operation;
      var ok := pool.AddParsedCsrAccess(a);
      OfferKeepsDistinctIff(was, pool.accesses, a);
      OfferedSnoc(offers, a);
      assert At(pool.accesses, csr, operation).Some?;
    }
    assert At(pool.accesses, csr, operation) == First(pool.offered, csr, operation);
    assert Key(operation, None, false) == operation;
    parsed := pool.GetParsedCsrAccess(csr, operation, None, false);
  }

  class Parser {
    const pool: Pool
    var parsedCsrId: nat

    /** The stored ids are distinct and below the counter, which is the next offer's id. */
    ghost predicate Valid()
      reads this, pool
    {
      pool.Valid() && 1 <= parsedCsrId && IdsBelow(pool.accesses, parsedCsrId) && DistinctIds(pool.accesses)
    }

    constructor (pool: Pool)
      requires pool.Valid() && pool.accesses == map[]
      ensures Valid() && this.pool == pool
    {
      this.pool, parsedCsrId := pool, 1;
    }

    /** The end of parse_csr_rw; false is the ValueError of the pool, which ends the parse. */
    method ParseCsrRw(csr: string, op: string, field: Option<string>, force: bool) returns (ok: bool)
      requires Valid()
      modifies this, pool
      ensures Valid()
      ensures ok == !(Subfield(op) && (field == None || field.value == ""))
      ensures ok ==>
                && parsedCsrId == old(parsedCsrId) + 1
                && pool.offered == old(pool.offered) + [Qualified(Access(csr, op, field, force, old(parsedCsrId)))]
                && First(pool.offered, csr, Key(op, field, force)).Some?
      ensures !ok ==> parsedCsrId == old(parsedCsrId) && pool.offered == old(pool.offered)
    {
      var a := Access(csr, op, field, force, parsedCsrId);
      ghost var was := pool.accesses;
      OfferedSnoc(pool.offered, Qualified(a));
      ok := pool.AddParsedCsrAccess(a);
      if ok {
        OfferBelow(was, pool.accesses, Qualified(a), parsedCsrId + 1);
        OfferKeepsDistinctIff(was, pool.accesses, Qualified(a));
        parsedCsrId := parsedCsrId + 1;
        assert Under(Qualified(a), csr, Key(op, field, force));
      }
    }

    /** One turn of the loop of parse_trigger_config: the id of the forced write of a trigger CSR. */
    method TriggerCsrId(csr: string) returns (id: nat)
      requires Valid()
      modifies this, pool
      ensures Valid() && old(pool.offered) <= pool.offered
      ensures var stored := First(pool.offered, csr, "write_force_machine");
              stored.Some? && stored.value.id == id
      ensures forall c, k :: First(old(pool.offered), c, k).Some? ==>
                First(pool.offered, c, k) == First(old(pool.offered), c, k)
    {
      var a := Access(csr, "write", None, true, parsedCsrId);
      assert StoredKey(a) == "write_force_machine";
      assert At(pool.accesses, csr, "write_force_machine") == First(pool.offered, csr, "write_force_machine");
      if csr !in pool.accesses || "write_force_machine" !in pool.accesses[csr] {
        ghost var was := pool.accesses;
        OfferedSnoc(pool.offered, a);
        var ok := pool.AddParsedCsrAccess(a);
        OfferBelow(was, pool.accesses, a, parsedCsrId + 1);
        OfferKeepsDistinctIff(was, pool.accesses, a);
        parsedCsrId := parsedCsrId + 1;
        assert Under(a, csr, "write_force_machine");
        assert At(pool.accesses, csr, "write_force_machine") == First(pool.offered, csr, "write_force_machine");
      }
      id := pool.accesses[csr]["write_force_machine"].id;
    }

    /** The ids parse_trigger_config records: those the pool holds then, and for ever after. */
    method TriggerCsrIds(needsTdata2: bool) returns (ids: (nat, nat, nat))
      requires Valid()
      modifies this, pool
      ensures Valid()
      ensures Selects(pool.offered, "tselect", ids.0) && Selects(pool.offered, "tdata1", ids.1)
      ensures if needsTdata2 then Selects(pool.offered, "tdata2", ids.2) else ids.2 == 0
      ensures forall c, k :: First(old(pool.offered), c, k).Some? ==>
                First(pool.offered, c, k) == First(old(pool.offered), c, k)
    {
      var tselect := TriggerCsrId("tselect");
      var tdata1 := TriggerCsrId("tdata1");
      var tdata2 := 0;
      if needsTdata2 { tdata2 := TriggerCsrId("tdata2"); }
      return (tselect, tdata1, tdata2);
    }
  }

  /** id is the one stored for the forced write of csr. */
  ghost predicate Selects(offered: seq<Access>, csr: string, id: nat) {
    var stored := First(offered, csr, "write_force_machine");
    stored.Some? && stored.value.id == id
  }

  /** What is stored under a key never changes, however many accesses are offered later. */
  lemma {:induction false} FirstIsForEver(offered: seq<Access>, later: seq<Access>, csr: string, key: string)
    requires First(offered, csr, key).Some?
    ensures First(offered + later, csr, key) == First(offered, csr, key)
  {
    if later == [] {
      assert offered + later == offered;
    } else {
      assert offered + later == (offered + later[..|later| - 1]) + [later[|later| - 1]];
      OfferedSnoc(offered + later[..|later| - 1], later[|later| - 1]);
      FirstIsForEver(offered, later[..|later| - 1], csr, key);
    }
  }
}
