// eq, equal, assoc and assq of src/alisp/alisp.c. Atoms are interned, so comparing
// references compares values - until a count passes the reuse limit.

module LispEquality {
  import opened LispSyntax
  import opened LispMemory
  import opened LispEval
  import opened LispOwnership
  import opened LispTrees

  function EqObjects(p1: Ref, p2: Ref): bool {
    p1 == p2
  }

  // equal: identifiers and conses are compared by reference only.
  function EqualObjects(s: Instance, p1: Ref, p2: Ref): bool
    reads s`value
  {
    if p1 == p2 then true
    else if s.IsCons(p1) || s.IsCons(p2) then false
    else if p1 in s.value && p2 in s.value then
      match (s.value[p1], s.value[p2])
      case (VStr(a), VStr(b)) => a == b
      case (VInt(a), VInt(b)) => a == b
      case _ => false
    else false
  }

  // While nothing has passed the reuse limit, two live atoms are the same object
  // exactly if they are the same value.
  lemma AtomsAreInterned(s: Instance, p: Ref, e: SExp, q: Ref, f: SExp, rest: multiset<Ref>)
    requires Tree(s, p, e) && Tree(s, q, f) && Owns(s, At(s, p, e) + (At(s, q, f) + rest))
    requires !s.exceeded && !e.Cons?
    ensures EqObjects(p, q) <==> e == f
  {
    hide ListsOk, PoolOk, VarsRep, VarCells;
    var vars := VarCells(s.value, s.vars, s.env);
    if p > TRUE {
      assert (vars + (At(s, p, e) + (At(s, q, f) + rest)))[p] > 0;
    }
    if q > TRUE {
      assert q in At(s, q, f);
      assert (vars + (At(s, p, e) + (At(s, q, f) + rest)))[q] > 0;
    }
  }

  // So eq and equal agree on everything that is alive, conses included.
  lemma EqIsEqual(s: Instance, p: Ref, e: SExp, q: Ref, f: SExp, rest: multiset<Ref>)
    requires Tree(s, p, e) && Tree(s, q, f) && Owns(s, At(s, p, e) + (At(s, q, f) + rest))
    requires !s.exceeded
    ensures EqualObjects(s, p, q) <==> EqObjects(p, q)
  {
    hide ListsOk, PoolOk, AtomsOk, VarsRep, VarCells, Cells;
    if !e.Cons? { AtomsAreInterned(s, p, e, q, f, rest); }
  }

  // equal compares what different objects hold.
  lemma EqualBeyondTheLimit(s: Instance, p: Ref, q: Ref)
    requires p in s.value && q in s.value && p != q && s.value[p] == s.value[q]
    ensures !EqObjects(p, q)
    ensures EqualObjects(s, p, q) <==> s.value[p].VInt? || s.value[p].VStr?
  {
  }

  // Without that premise they part ways: when the only integer, string or identifier with a
  // value has been shared past the limit, the next one that is asked for is another object.
  // For integers and strings `equal` still holds then, `eq` does not; for identifiers
  // neither does.
  method PartWays(v: Val) returns (s: Instance, p: Ref, q: Ref, ghost owned: multiset<Ref>)
    requires !v.VCons?
    ensures fresh(s) && s.Valid() && s.Ledger(owned) && p in owned && q in owned
    ensures p in s.value && q in s.value && s.value[p] == s.value[q] == v
    ensures !EqObjects(p, q) && (EqualObjects(s, p, q) <==> v.VInt? || v.VStr?)
  {
    s := new Instance();
    owned := multiset{};
    p := s.NewAtom(v, owned);
    owned := owned + multiset{p};
    for i := 1 to MAX_REFS_LIMIT + 1
      invariant s.Valid() && s.Ledger(owned) && fresh(s) && p > TRUE
      invariant owned[p] == i && p in s.value && s.value[p] == v
    {
      s.IncrefObject(p, owned);
      owned := owned + multiset{p};
    }
    ghost var all, refs := owned, s.refs;
    assert CountOf(refs, p) == MAX_REFS_LIMIT + 1;
    q := s.NewAtom(v, owned);
    owned := owned + multiset{q};
    assert p in all;
    EqualBeyondTheLimit(s, p, q);
  }

  // What an association list has for a key: the first element with that car.
  function Find(key: SExp, alist: SExp): SExp {
    if key == Car(Car(alist)) then Car(alist)
    else if Cdr(alist) == Nil then Nil
    else Find(key, Cdr(alist))
  }

  // (assoc key alist) after its arguments have been evaluated
  method Assoc(s: Instance, p1: Ref, ghost key: SExp, p2: Ref, ghost alist: SExp,
               ghost rest: multiset<Ref>)
    returns (r: Ref)
    requires Tree(s, p1, key) && Tree(s, p2, alist) && !key.Cons? && !s.exceeded
    requires Owns(s, At(s, p1, key) + (At(s, p2, alist) + rest))
    modifies s
    ensures Tree(s, r, Find(key, alist)) && Owns(s, At(s, r, Find(key, alist)) + rest)
    ensures SameOn(old(s.value), s.value, rest) && s.vars == old(s.vars) && s.env == old(s.env)
  {
    hide Balanced, Rep, Cells, SameOn;
    var q := p2;
    ghost var l, v0 := alist, s.value;
    Held(s, p1, key, q, l, rest);
    while true
      invariant Tree(s, p1, key) && Tree(s, q, l) && Find(key, l) == Find(key, alist) && !s.exceeded
      invariant Owns(s, At(s, p1, key) + (At(s, q, l) + rest))
      invariant SameOn(v0, s.value, rest) && s.vars == old(s.vars) && s.env == old(s.env)
      decreases l
    {
      Compare(s, p1, key, q, l, rest);
      ghost var w := s.value;
      if EqObjects(p1, s.CarOf(s.CarOf(q))) {
        r := TakeEntry(s, p1, key, q, l, rest);
        Chained(v0, w, s.value, rest);
        return;
      }
      q := NextEntry(s, p1, key, q, l, rest);
      Chained(v0, w, s.value, rest);
      l, w := Cdr(l), s.value;
      if q == NIL {
        r := NotFound(s, p1, key, q, l, rest);
        Chained(v0, w, s.value, rest);
        return;
      }
    }
  }

  // (assq key alist), which compares with equal
  method Assq(s: Instance, p1: Ref, ghost key: SExp, p2: Ref, ghost alist: SExp,
              ghost rest: multiset<Ref>)
    returns (r: Ref)
    requires Tree(s, p1, key) && Tree(s, p2, alist) && !key.Cons? && !s.exceeded
    requires Owns(s, At(s, p1, key) + (At(s, p2, alist) + rest))
    modifies s
    ensures Tree(s, r, Find(key, alist)) && Owns(s, At(s, r, Find(key, alist)) + rest)
    ensures SameOn(old(s.value), s.value, rest) && s.vars == old(s.vars) && s.env == old(s.env)
  {
    hide Balanced, Rep, Cells, SameOn, EqualObjects;
    var q := p2;
    ghost var l, v0 := alist, s.value;
    Held(s, p1, key, q, l, rest);
    while true
      invariant Tree(s, p1, key) && Tree(s, q, l) && Find(key, l) == Find(key, alist) && !s.exceeded
      invariant Owns(s, At(s, p1, key) + (At(s, q, l) + rest))
      invariant SameOn(v0, s.value, rest) && s.vars == old(s.vars) && s.env == old(s.env)
      decreases l
    {
      Compare(s, p1, key, q, l, rest);
      ghost var w := s.value;
      if EqualObjects(s, p1, s.CarOf(s.CarOf(q))) {
        r := TakeEntry(s, p1, key, q, l, rest);
        Chained(v0, w, s.value, rest);
        return;
      }
      q := NextEntry(s, p1, key, q, l, rest);
      Chained(v0, w, s.value, rest);
      l, w := Cdr(l), s.value;
      if q == NIL {
        r := NotFound(s, p1, key, q, l, rest);
        Chained(v0, w, s.value, rest);
        return;
      }
    }
  }

  // Both comparisons tell whether the first entry has the key.
  lemma Compare(s: Instance, p1: Ref, key: SExp, q: Ref, l: SExp, rest: multiset<Ref>)
    requires Tree(s, p1, key) && Tree(s, q, l) && !key.Cons? && !s.exceeded
    requires Owns(s, At(s, p1, key) + (At(s, q, l) + rest))
    ensures var c := s.CarOf(s.CarOf(q));
      && (EqObjects(p1, c) <==> key == Car(Car(l)))
      && (EqualObjects(s, p1, c) <==> key == Car(Car(l)))
  {
    hide Balanced, Rep, Cells, EqualObjects, EqObjects;
    var all := At(s, p1, key) + (At(s, q, l) + rest);
    Parts(s, q, l, all);
    var a := s.CarOf(q);
    Parts(s, a, Car(l), all);
    var c, x := s.CarOf(a), Car(Car(l));
    var more := One(q) + At(s, s.CdrOf(q), Cdr(l)) + One(a) + At(s, s.CdrOf(a), Cdr(Car(l))) + rest;
    assert all == At(s, p1, key) + (At(s, c, x) + more);
    AtomsAreInterned(s, p1, key, c, x, more);
    EqIsEqual(s, p1, key, c, x, more);
  }

  // n = car(p2); everything else of key and list is released.
  method TakeEntry(s: Instance, p1: Ref, ghost key: SExp, p2: Ref, ghost l: SExp,
                   ghost rest: multiset<Ref>)
    returns (n: Ref)
    requires Tree(s, p1, key) && Tree(s, p2, l) && Owns(s, At(s, p1, key) + (At(s, p2, l) + rest))
    modifies s
    ensures Tree(s, n, Car(l)) && Owns(s, At(s, n, Car(l)) + rest) && Kept(s, rest)
  {
    hide Balanced, Rep, Cells, SameOn;
    ghost var v0 := s.value;
    Held(s, p1, key, p2, l, rest);
    DropFirst(s, p1, key, p2, l, rest);
    ghost var v1, y := s.value, NULL;
    var d;
    n, d := Unwrap(s, p2, l, rest);
    ghost var v2, c1, c2 := s.value, At(s, n, Car(l)), At(s, d, Cdr(l));
    Swap(c1, c2, rest);
    DropFirst(s, d, Cdr(l), n, Car(l), rest);
    Chained(v0, v1, v2, rest);
    Chained(v0, v2, s.value, rest);
  }

  // delete_tree(car(p2)); p2 = cdr(n = p2); delete_object(n)
  method NextEntry(s: Instance, ghost p1: Ref, ghost key: SExp, p2: Ref, ghost l: SExp,
                   ghost rest: multiset<Ref>)
    returns (n: Ref)
    requires Tree(s, p1, key) && Tree(s, p2, l) && Owns(s, At(s, p1, key) + (At(s, p2, l) + rest))
    requires !s.exceeded
    modifies s
    ensures Tree(s, p1, key) && Tree(s, n, Cdr(l)) && (n == NIL <==> Cdr(l) == Nil) && !s.exceeded
    ensures Owns(s, At(s, p1, key) + (At(s, n, Cdr(l)) + rest)) && Kept(s, rest)
  {
    hide Balanced, Rep, Cells;
    ghost var k, v := At(s, p1, key), s.value;
    Swap(k, At(s, p2, l), rest);
    var a;
    a, n := Unwrap(s, p2, l, k + rest);
    RepFrame(v, s.value, s.building, p1, key, k + rest);
    v := s.value;
    DropFirst(s, a, Car(l), n, Cdr(l), k + rest);
    RepFrame(v, s.value, s.building, p1, key, k + rest);
    Swap(At(s, n, Cdr(l)), k, rest);
    Kind(s, n, Cdr(l), At(s, n, Cdr(l)) + (k + rest));
  }

  method NotFound(s: Instance, p1: Ref, ghost key: SExp, ghost q: Ref, ghost l: SExp,
                  ghost rest: multiset<Ref>)
    returns (r: Ref)
    requires Tree(s, p1, key) && Tree(s, q, l) && q == NIL
    requires Owns(s, At(s, p1, key) + (At(s, q, l) + rest))
    modifies s
    ensures r == NIL && Tree(s, r, Nil) && Owns(s, At(s, r, Nil) + rest) && Kept(s, rest)
  {
    hide Balanced, Rep, Cells;
    Kind(s, q, l, At(s, p1, key) + (At(s, q, l) + rest));
    NilOwnsNothing(s);
    assert At(s, q, l) + rest == rest;
    DropTree(s, p1, key, rest);
    NilLast(s, rest);
    r := NIL;
  }
}
