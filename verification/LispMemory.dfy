// The object store of one interpreter instance (src/alisp/alisp.c and
// src/alisp/alisp_local.h): reference counts, the lists of used objects by hash
// and type, the pool of free objects, and the counters over them.
//
// Objects are addressed by numbers, as in C. `value` and `refs` are the two
// fields of every object that malloc has handed out and that has not been given
// back; an object whose count is zero sits in the free pool.

module LispMemory {
  import opened LispSyntax

  type Ref = nat

  const NULL: Ref := 0
  const NIL: Ref := 1   // &alsa_lisp_nil
  const TRUE: Ref := 2  // &alsa_lisp_t

  const HASH_SIZE := 16
  const KINDS := 6
  const SLOTS := HASH_SIZE * KINDS
  const FREE_OBJ_POOL := 512
  const MAX_REFS_LIMIT := 0x800_0000

  datatype Val =
    | VInt(i: int)
    | VId(s: string)
    | VStr(s: string)
    | VCons(car: Ref, cdr: Ref)

  function CharSum(s: string): nat {
    if s == [] then 0 else s[0] as nat + CharSum(s[1..])
  }

  function Hash(v: Val): (h: nat)
    ensures h < HASH_SIZE
  {
    match v
    case VInt(i) => i % HASH_SIZE
    case VId(s) => CharSum(s) % HASH_SIZE
    case VStr(s) => CharSum(s) % HASH_SIZE
    case VCons(_, _) => 0
  }

  // The rows of used_objs_list that floats (1) and pointers (4) use stay empty.
  function KindIndex(v: Val): (k: nat)
    ensures k < KINDS
  {
    match v case VInt(_) => 0 case VId(_) => 2 case VStr(_) => 3 case VCons(_, _) => 5
  }

  // Which of the used-object lists holds an object with this value.
  function Slot(v: Val): (i: nat)
    ensures i < SLOTS
  {
    Hash(v) * KINDS + KindIndex(v)
  }

  predicate NoDup(s: seq<Ref>) {
    forall i, j :: 0 <= i < j < |s| ==> s[i] != s[j]
  }

  // list_del on the list that holds `p`.
  function Without(s: seq<Ref>, p: Ref): (r: seq<Ref>)
    requires NoDup(s)
    ensures NoDup(r) && (forall x :: x in r <==> x in s && x != p)
    ensures |r| == if p in s then |s| - 1 else |s|
  {
    if s == [] then []
    else
      assert s == [s[0]] + s[1..];
      assert s[0] !in s[1..];
      if s[0] == p then s[1..] else [s[0]] + Without(s[1..], p)
  }

  function Total(lists: seq<seq<Ref>>): nat {
    if lists == [] then 0 else |lists[0]| + Total(lists[1..])
  }

  lemma {:induction false} TotalUpdate(lists: seq<seq<Ref>>, i: nat, list: seq<Ref>)
    requires i < |lists|
    ensures Total(lists[i := list]) == Total(lists) - |lists[i]| + |list|
  {
    if i == 0 {
      assert lists[i := list][1..] == lists[1..];
    } else {
      assert lists[i := list][1..] == lists[1..][i-1 := list];
      TotalUpdate(lists[1..], i - 1, list);
    }
  }

  lemma {:induction false} TotalZero(lists: seq<seq<Ref>>)
    requires forall i :: 0 <= i < |lists| ==> lists[i] == []
    ensures Total(lists) == 0
  {
    if lists != [] {
      TotalZero(lists[1..]);
    }
  }

  lemma {:induction false} UnusedRef(used: set<Ref>) returns (p: Ref)
    ensures p > TRUE && forall q :: q in used ==> q < p
  {
    if used == {} {
      p := TRUE + 1;
    } else {
      var q :| q in used;
      p := UnusedRef(used - {q});
      if p <= q { p := q + 1; }
      assert forall r :: r in used ==> r == q || r in used - {q};
    }
  }

  // What an owner of exactly `p`, and of nothing below it, holds.
  ghost function One(p: Ref): multiset<Ref> {
    if p <= TRUE then multiset{} else multiset{p}
  }

  // Owners in another order.
  lemma Swap(a: multiset<Ref>, b: multiset<Ref>, c: multiset<Ref>)
    ensures a + (b + c) == b + (a + c)
  {
  }

  lemma Regroup(a: multiset<Ref>, b: multiset<Ref>, c: multiset<Ref>)
    ensures a + b + c == a + (b + c)
  {
  }

  // Every object that `owned` mentions has the same value in both stores.
  ghost predicate SameOn(v: map<Ref, Val>, w: map<Ref, Val>, owned: multiset<Ref>) {
    forall o :: o in owned ==> o in v && o in w && v[o] == w[o]
  }

  function CountOf(refs: map<Ref, nat>, o: Ref): nat {
    if o in refs then refs[o] else 0
  }

  // The free pool: all objects without references, each once.
  ghost predicate PoolOk(refs: map<Ref, nat>, pool: seq<Ref>) {
    NoDup(pool) && forall o :: o in pool <==> o in refs && refs[o] == 0
  }

  // Each live object is on exactly one used list, the one of its hash and type.
  ghost predicate ListsOk(value: map<Ref, Val>, refs: map<Ref, nat>, used: seq<seq<Ref>>) {
    && |used| == SLOTS
    && (forall i :: 0 <= i < SLOTS ==> NoDup(used[i]))
    && (forall i, o :: 0 <= i < SLOTS && o in used[i] ==>
         CountOf(refs, o) > 0 && o in value && Slot(value[o]) == i)
    && (forall o :: CountOf(refs, o) > 0 ==> o in value && o in used[Slot(value[o])])
  }

  // No two live atoms hold the same value, and all may be shared further.
  ghost predicate AtomsOk(value: map<Ref, Val>, refs: map<Ref, nat>) {
    && (forall o :: o in refs ==> refs[o] <= MAX_REFS_LIMIT)
    && (forall o, q | CountOf(refs, o) > 0 && CountOf(refs, q) > 0 && o in value && q in value
         :: value[o] == value[q] && !value[o].VCons? ==> o == q)
  }

  lemma ListsAdd(value: map<Ref, Val>, refs: map<Ref, nat>, used: seq<seq<Ref>>, p: Ref, v: Val)
    requires ListsOk(value, refs, used) && CountOf(refs, p) == 0
    ensures ListsOk(value[p := v], refs[p := 1], used[Slot(v) := [p] + used[Slot(v)]])
    ensures Total(used[Slot(v) := [p] + used[Slot(v)]]) == Total(used) + 1
  {
    hide Slot, Total;
    TotalUpdate(used, Slot(v), [p] + used[Slot(v)]);
    var refs', value', used' := refs[p := 1], value[p := v], used[Slot(v) := [p] + used[Slot(v)]];
    assert forall i :: 0 <= i < SLOTS ==> p !in used[i];
    assert forall o :: CountOf(refs', o) == if o == p then 1 else CountOf(refs, o);
    forall i, o | 0 <= i < SLOTS && o in used'[i]
      ensures CountOf(refs', o) > 0 && o in value' && Slot(value'[o]) == i
    {
      if o != p { assert o in used[i]; }
    }
    forall o | o in refs' ensures CountOf(refs', o) > 0 ==> o in value' && o in used'[Slot(value'[o])] {
      if o != p && CountOf(refs, o) > 0 { assert o in used[Slot(value[o])]; }
    }
  }

  // The two maps differ at most at `p`.
  ghost predicate SameBut<X>(v: map<Ref, X>, w: map<Ref, X>, p: Ref) {
    forall o :: o != p ==> (o in v <==> o in w) && (o in v ==> v[o] == w[o])
  }

  lemma ListsRemove(value: map<Ref, Val>, refs: map<Ref, nat>, used: seq<seq<Ref>>, p: Ref,
                    value': map<Ref, Val>, refs': map<Ref, nat>)
    requires ListsOk(value, refs, used) && CountOf(refs, p) > 0
    requires SameBut(value, value', p) && SameBut(refs, refs', p) && CountOf(refs', p) == 0
    ensures var i := Slot(value[p]); var used' := used[i := Without(used[i], p)];
      ListsOk(value', refs', used') && Total(used') == Total(used) - 1
  {
    var i := Slot(value[p]);
    TotalUpdate(used, i, Without(used[i], p));
    assert forall o :: o != p ==> CountOf(refs', o) == CountOf(refs, o);
  }

  // A change of one positive count to another keeps all lists as they are.
  lemma CountChange(value: map<Ref, Val>, refs: map<Ref, nat>, used: seq<seq<Ref>>, pool: seq<Ref>,
                    p: Ref, n: nat)
    requires ListsOk(value, refs, used) && PoolOk(refs, pool)
    requires CountOf(refs, p) > 0 && n > 0
    ensures ListsOk(value, refs[p := n], used) && PoolOk(refs[p := n], pool)
    ensures AtomsOk(value, refs) && n <= MAX_REFS_LIMIT ==> AtomsOk(value, refs[p := n])
    ensures AtomsOk(value, refs) && n <= refs[p] ==> AtomsOk(value, refs[p := n])
  {
    assert forall o :: CountOf(refs[p := n], o) > 0 <==> CountOf(refs, o) > 0;
  }

  lemma AtomsAdd(value: map<Ref, Val>, refs: map<Ref, nat>, p: Ref, v: Val)
    requires AtomsOk(value, refs)
    requires v.VCons? || forall o :: CountOf(refs, o) > 0 && o in value && value[o] == v ==>
      refs[o] > MAX_REFS_LIMIT
    ensures AtomsOk(value[p := v], refs[p := 1])
  {
    assert forall o :: o != p ==> CountOf(refs[p := 1], o) == CountOf(refs, o);
  }

  lemma AtomsRemove(value: map<Ref, Val>, refs: map<Ref, nat>, p: Ref,
                    value': map<Ref, Val>, refs': map<Ref, nat>)
    requires AtomsOk(value, refs)
    requires SameBut(value, value', p) && SameBut(refs, refs', p) && CountOf(refs', p) == 0
    ensures AtomsOk(value', refs')
  {
    assert forall o :: o != p ==> CountOf(refs', o) == CountOf(refs, o);
  }

  lemma PoolTake(refs: map<Ref, nat>, pool: seq<Ref>)
    requires PoolOk(refs, pool)
    ensures pool != [] ==>
      pool[0] in refs && refs[pool[0]] == 0 && PoolOk(refs[pool[0] := 1], pool[1..])
    ensures forall p: Ref :: p !in refs ==> PoolOk(refs[p := 1], pool)
  {
    if pool != [] {
      assert pool == [pool[0]] + pool[1..];
      assert pool[0] in pool;
    }
  }

  lemma PoolGive(refs: map<Ref, nat>, pool: seq<Ref>, p: Ref)
    requires PoolOk(refs, pool) && CountOf(refs, p) > 0
    ensures PoolOk(refs[p := 0], [p] + pool) && PoolOk(refs - {p}, pool)
  {
  }

  lemma ListCount(value: map<Ref, Val>, refs: map<Ref, nat>, used: seq<seq<Ref>>)
    requires ListsOk(value, refs, used)
    ensures |used| == SLOTS
  {
  }

  lemma SlotOf(value: map<Ref, Val>, refs: map<Ref, nat>, used: seq<seq<Ref>>, p: Ref)
    requires ListsOk(value, refs, used)
    ensures |used| == SLOTS && (forall i :: 0 <= i < SLOTS ==> NoDup(used[i]))
    ensures CountOf(refs, p) > 0 ==> p in value && p in used[Slot(value[p])]
  {
  }

  // A new object has one owner, and no other owner notices.
  lemma NewOwner(value: map<Ref, Val>, refs: map<Ref, nat>, owned: multiset<Ref>, p: Ref, v: Val)
    requires (forall o :: owned[o] == CountOf(refs, o)) && CountOf(refs, p) == 0 && value.Keys == refs.Keys
    ensures p !in owned && SameOn(value, value[p := v], owned)
    ensures forall o :: (owned + multiset{p})[o] == CountOf(refs[p := 1], o)
  {
    assert owned[p] == 0;
    assert forall o :: o in owned ==> CountOf(refs, o) > 0;
  }

  lemma NotBuilding(refs: map<Ref, nat>, value: map<Ref, Val>, building: set<Ref>, p: Ref, v: Val)
    requires forall o :: o in building ==> CountOf(refs, o) > 0 && o in value && value[o].VCons?
    requires CountOf(refs, p) == 0
    ensures p !in building
    ensures forall o :: o in building ==>
      CountOf(refs[p := 1], o) > 0 && o in value[p := v] && value[p := v][o].VCons?
  {
  }

  class Instance {
    var value: map<Ref, Val>
    var refs: map<Ref, nat>
    var freeList: seq<Ref>
    var used: seq<seq<Ref>>
    var usedObjs: int
    var freeObjs: int
    var maxObjs: int

    // setobjs_list: the variables and functions
    var vars: map<string, Ref>

    // what the objects in `vars` unfold to
    ghost var env: map<string, SExp>
    // conses that their creator has not finished linking yet
    ghost var building: set<Ref>
    // whether some count has ever passed the reuse limit
    ghost var exceeded: bool

    constructor ()
      ensures Valid() && Ledger(multiset{}) && building == {} && !exceeded
      ensures usedObjs == 0 && vars == map[] && env == map[]
    {
      value, refs := map[], map[];
      freeList, used := [], seq(SLOTS, i => []);
      usedObjs, freeObjs, maxObjs := 0, 0, 0;
      building, exceeded := {}, false;
      vars, env := map[], map[];
      new;
      TotalZero(used);
    }

    // The reference counts are exactly what the owners in `owned` account for.
    ghost predicate Ledger(owned: multiset<Ref>)
      reads `refs
    {
      forall o :: owned[o] == CountOf(refs, o)
    }

    ghost predicate Valid()
      reads `value, `refs, `freeList, `used, `usedObjs, `freeObjs, `maxObjs, `building, `exceeded
    {
      && value.Keys == refs.Keys
      && (forall o :: o in refs ==> o > TRUE)
      && (forall o :: o in building ==> CountOf(refs, o) > 0 && o in value && value[o].VCons?)
      && PoolOk(refs, freeList) && freeObjs == |freeList| <= FREE_OBJ_POOL
      && ListsOk(value, refs, used) && usedObjs == Total(used)
      && usedObjs + freeObjs <= maxObjs
      && (!exceeded ==> AtomsOk(value, refs))
    }

    predicate IsCons(p: Ref)
      reads `value
    {
      p in value && value[p].VCons?
    }

    predicate IsId(p: Ref)
      reads `value
    {
      p in value && value[p].VId?
    }

    predicate IsNameObj(p: Ref)
      reads `value
    {
      p in value && (value[p].VId? || value[p].VStr?)
    }

    function NameAt(p: Ref): string
      requires IsNameObj(p)
      reads `value
    {
      value[p].s
    }

    function CarOf(p: Ref): Ref
      reads `value
    {
      if IsCons(p) then value[p].car else NIL
    }

    function CdrOf(p: Ref): Ref
      reads `value
    {
      if IsCons(p) then value[p].cdr else NIL
    }

    // An object to use: recycled if the pool has one, otherwise from malloc, which
    // may pick any address that is not in use.
    method TakeObject() returns (p: Ref)
      requires Valid()
      modifies `freeList, `freeObjs
      ensures p > TRUE && CountOf(refs, p) == 0
      ensures PoolOk(refs[p := 1], freeList)
      ensures freeObjs == |freeList| <= FREE_OBJ_POOL && freeObjs <= old(freeObjs)
    {
      hide ListsOk, AtomsOk, PoolOk, Total;
      PoolTake(refs, freeList);
      if freeList == [] {
        ghost var above := UnusedRef(refs.Keys);
        assert above !in refs.Keys;
        p :| p !in refs.Keys && p > TRUE;
      } else {
        p := freeList[0];
        freeList, freeObjs := freeList[1..], freeObjs - 1;
      }
    }

    // new_object. An object of another type than cons still has to be entered
    // into its list by the caller.
    method NewObject(isCons: bool) returns (p: Ref)
      requires Valid()
      modifies this
      ensures p > TRUE && CountOf(old(refs), p) == 0
      ensures refs == old(refs)[p := 1] && p in value && SameBut(old(value), value, p)
      ensures PoolOk(refs, freeList) && freeObjs == |freeList| <= FREE_OBJ_POOL
      ensures usedObjs == old(usedObjs) + 1
      ensures used == if isCons then old(used)[5 := [p] + old(used)[5]] else old(used)
      ensures isCons ==> value[p] == VCons(NIL, NIL)
      ensures usedObjs + freeObjs <= maxObjs
      ensures vars == old(vars) && env == old(env) && building == old(building) && exceeded == old(exceeded)
    {
      hide ListsOk, AtomsOk, PoolOk, Slot, Total;
      p := TakeObject();
      SlotOf(value, refs, used, p);
      usedObjs, refs := usedObjs + 1, refs[p := 1];
      if isCons {
        value := value[p := VCons(NIL, NIL)];
        used := used[5 := [p] + used[5]];
      } else if p !in value {
        var junk: int := *;
        value := value[p := VInt(junk)];
      }
      maxObjs := if usedObjs + freeObjs > maxObjs then usedObjs + freeObjs else maxObjs;
    }

    // A fresh cons cell (nil . nil), owned once.
    method NewCons(ghost owned: multiset<Ref>) returns (p: Ref)
      requires Valid() && Ledger(owned)
      modifies this
      ensures Valid() && Ledger(owned + multiset{p}) && p !in owned && p > TRUE
      ensures p in value && value[p] == VCons(NIL, NIL)
      ensures SameOn(old(value), value, owned)
      ensures vars == old(vars) && env == old(env) && building == old(building) && exceeded == old(exceeded)
      ensures p !in building
    {
      hide ListsOk, AtomsOk, PoolOk, Total;
      p := NewObject(true);
      ListsAdd(old(value), old(refs), old(used), p, VCons(NIL, NIL));
      assert value == old(value)[p := VCons(NIL, NIL)];
      if !exceeded { AtomsAdd(old(value), old(refs), p, VCons(NIL, NIL)); }
    }

    // incref_object on an object that is already alive.
    method IncrefObject(p: Ref, ghost owned: multiset<Ref>)
      requires Valid() && Ledger(owned)
      requires p <= TRUE || p in owned
      modifies this
      ensures Valid() && Ledger(owned + One(p))
      ensures value == old(value) && building == old(building)
      ensures vars == old(vars) && env == old(env)
      ensures old(exceeded) ==> exceeded
    {
      hide ListsOk, AtomsOk, PoolOk, Slot, Total;
      if p <= TRUE { return; }
      CountChange(value, refs, used, freeList, p, refs[p] + 1);
      refs := refs[p := refs[p] + 1];
      exceeded := exceeded || refs[p] > MAX_REFS_LIMIT;
    }

    // delete_object: gives up one reference, and the object with the last one.
    method DeleteObject(p: Ref, ghost owned: multiset<Ref>)
      requires Valid() && Ledger(One(p) + owned)
      requires p !in building
      modifies this
      ensures Valid() && Ledger(owned)
      ensures SameOn(old(value), value, owned)
      ensures vars == old(vars) && env == old(env) && building == old(building) && exceeded == old(exceeded)
    {
      hide ListsOk, AtomsOk, PoolOk, Slot, Total;
      if p <= TRUE { return; }
      assert (One(p) + owned)[p] > 0;
      if refs[p] > 1 {
        CountChange(value, refs, used, freeList, p, refs[p] - 1);
        refs := refs[p := refs[p] - 1];
      } else {
        FreeLast(p);
      }
      forall o ensures owned[o] == CountOf(refs, o) {
        assert (One(p) + owned)[o] == CountOf(old(refs), o);
      }
    }

    // The part of delete_object that runs when the last reference goes.
    method FreeLast(p: Ref)
      requires Valid() && CountOf(refs, p) == 1 && p !in building
      modifies this
      ensures Valid() && CountOf(refs, p) == 0
      ensures SameBut(old(refs), refs, p) && SameBut(old(value), value, p)
      ensures vars == old(vars) && env == old(env) && building == old(building) && exceeded == old(exceeded)
    {
      hide ListsOk, AtomsOk, PoolOk, Without, Slot, Total;
      PoolGive(refs, freeList, p);
      SlotOf(value, refs, used, p);
      var i, junk: int := Slot(value[p]), *;
      used, usedObjs := used[i := Without(used[i], p)], usedObjs - 1;
      value := if value[p].VCons? then value else value[p := VInt(junk)];
      ReleaseObject(p);
      ListsRemove(old(value), old(refs), old(used), p, value, refs);
      if !exceeded { AtomsRemove(old(value), old(refs), p, value, refs); }
    }

    // Puts an object without references into the pool, or frees it if the pool
    // is full.
    method ReleaseObject(p: Ref)
      requires p in refs && p in value && freeObjs == |freeList| <= FREE_OBJ_POOL
      requires PoolOk(refs[p := 0], [p] + freeList) && PoolOk(refs - {p}, freeList)
      modifies `refs, `value, `freeList, `freeObjs
      ensures CountOf(refs, p) == 0 && (old(value).Keys == old(refs).Keys ==> value.Keys == refs.Keys)
      ensures SameBut(old(refs), refs, p) && SameBut(old(value), value, p)
      ensures PoolOk(refs, freeList) && freeObjs == |freeList| <= FREE_OBJ_POOL
      ensures freeObjs <= old(freeObjs) + 1
    {
      hide PoolOk;
      if freeObjs >= FREE_OBJ_POOL {
        value, refs := value - {p}, refs - {p};
      } else {
        refs := refs[p := 0];
        freeList, freeObjs := [p] + freeList, freeObjs + 1;
      }
    }

    // search_object_integer, search_object_string, search_object_identifier.
    method SearchObject(v: Val, ghost owned: multiset<Ref>) returns (p: Ref)
      requires Valid() && Ledger(owned) && !v.VCons?
      modifies this
      ensures Valid() && value == old(value) && building == old(building)
      ensures vars == old(vars) && env == old(env)
      ensures old(exceeded) ==> exceeded
      ensures p == NULL ==> Ledger(owned) && unchanged(this)
      ensures p == NULL ==>
        forall o :: CountOf(refs, o) > 0 && o in value && value[o] == v ==> refs[o] > MAX_REFS_LIMIT
      ensures p != NULL ==> p > TRUE && p in owned && p in value && value[p] == v
      ensures p != NULL ==> Ledger(owned + multiset{p}) && CountOf(old(refs), p) <= MAX_REFS_LIMIT
    {
      hide AtomsOk, PoolOk;
      var list := used[Slot(v)];
      for i := 0 to |list|
        invariant forall k :: 0 <= k < i && value[list[k]] == v ==> refs[list[k]] > MAX_REFS_LIMIT
      {
        p := list[i];
        assert p in used[Slot(v)];
        if refs[p] <= MAX_REFS_LIMIT && value[p] == v {
          assert p in owned;
          IncrefObject(p, owned);
          return;
        }
      }
      p := NULL;
    }

    // new_integer, new_string, new_identifier: the one live object that holds
    // `v` if it can still be shared, otherwise a new one.
    method NewAtom(v: Val, ghost owned: multiset<Ref>) returns (p: Ref)
      requires Valid() && Ledger(owned) && !v.VCons?
      modifies this
      ensures Valid() && Ledger(owned + multiset{p}) && p > TRUE
      ensures p in value && value[p] == v && p !in building
      ensures CountOf(old(refs), p) <= MAX_REFS_LIMIT
      ensures SameOn(old(value), value, owned)
      ensures vars == old(vars) && env == old(env) && building == old(building) && (old(exceeded) ==> exceeded)
    {
      hide ListsOk, AtomsOk, PoolOk, Slot, Total;
      p := SearchObject(v, owned);
      if p == NULL {
        p := AddAtom(v, owned);
      }
    }

    // A new object for a value that no object with room for a reference holds.
    method AddAtom(v: Val, ghost owned: multiset<Ref>) returns (p: Ref)
      requires Valid() && Ledger(owned) && !v.VCons?
      requires forall o :: CountOf(refs, o) > 0 && o in value && value[o] == v ==> refs[o] > MAX_REFS_LIMIT
      modifies this
      ensures Valid() && Ledger(owned + multiset{p}) && p > TRUE && p !in owned
      ensures p in value && value[p] == v && p !in building
      ensures SameOn(old(value), value, owned)
      ensures vars == old(vars) && env == old(env) && building == old(building) && exceeded == old(exceeded)
    {
      hide ListsOk, AtomsOk, PoolOk, Slot, Total, CountOf, SameOn;
      ListCount(value, refs, used);
      p := NewObject(false);
      NewOwner(old(value), old(refs), owned, p, v);
      NotBuilding(old(refs), old(value), building, p, v);
      var i := Slot(v);
      ListsAdd(old(value), old(refs), old(used), p, v);
      used, value := used[i := [p] + used[i]], value[p := v];
      assert value == old(value)[p := v];
      if !exceeded { AtomsAdd(old(value), old(refs), p, v); }
    }
  }
}
