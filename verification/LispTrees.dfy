// delete_tree, incref_tree and the variable table of src/alisp/alisp.c, with the
// ledger they keep: the reference counts are at all times what the variables and
// the other owners account for.

module LispTrees {
  import opened LispSyntax
  import opened LispMemory
  import opened LispEval
  import opened LispOwnership

  // The instance is consistent, the variables `vars` unfold to `env`, and the
  // counts are those of these variables plus those of the other owners, `rest`.
  ghost predicate Balanced(s: Instance, vars: map<string, Ref>, env: Env, rest: multiset<Ref>)
    reads s`value, s`refs, s`freeList, s`used, s`usedObjs, s`freeObjs, s`maxObjs, s`building,
      s`exceeded
  {
    && s.Valid() && VarsRep(s.value, s.building, vars, env)
    && s.Ledger(VarCells(s.value, vars, env) + rest)
  }

  // ... for the variables that the instance holds.
  ghost predicate Owns(s: Instance, rest: multiset<Ref>)
    reads s
  {
    Balanced(s, s.vars, s.env, rest)
  }

  ghost predicate Tree(s: Instance, p: Ref, e: SExp)
    reads s`value, s`building
  {
    Rep(s.value, s.building, p, e)
  }

  ghost function At(s: Instance, p: Ref, e: SExp): multiset<Ref>
    reads s`value
  {
    Cells(s.value, p, e)
  }

  // The same variables, and the same contents of every object in `rest`.
  twostate predicate Kept(s: Instance, rest: multiset<Ref>)
    reads s
  {
    && s.vars == old(s.vars) && s.env == old(s.env) && s.building == old(s.building)
    && SameOn(old(s.value), s.value, rest)
  }

  // What looking at the object of a tree tells about the tree.
  lemma Look(s: Instance, p: Ref, e: SExp)
    requires s.Valid() && Tree(s, p, e)
    ensures (s.IsCons(p) <==> e.Cons?) && (s.IsId(p) <==> e.Id?)
    ensures s.IsNameObj(p) <==> IsName(e)
    ensures IsName(e) ==> s.NameAt(p) == NameOf(e)
    ensures p == NIL <==> e.Nil?
    ensures p != NULL && p !in s.building && (p > TRUE ==> e != Nil && e != T)
    ensures if e.Cons? then p > TRUE else At(s, p, e) == One(p)
    ensures Tree(s, s.CarOf(p), Car(e)) && Tree(s, s.CdrOf(p), Cdr(e))
    ensures At(s, p, e) == One(p) + At(s, s.CarOf(p), Car(e)) + At(s, s.CdrOf(p), Cdr(e))
  {
  }

  lemma Kind(s: Instance, p: Ref, e: SExp, all: multiset<Ref>)
    requires Tree(s, p, e) && Owns(s, all)
    ensures (s.IsCons(p) <==> e.Cons?) && (s.IsId(p) <==> e.Id?)
    ensures s.IsNameObj(p) <==> IsName(e)
    ensures IsName(e) ==> s.NameAt(p) == NameOf(e)
    ensures p == NIL <==> e.Nil?
    ensures p != NULL && p !in s.building
    ensures !e.Cons? ==> At(s, p, e) == One(p)
  {
    hide Rep, Cells;
    Look(s, p, e);
  }

  // ... and about who owns it.
  lemma Open(s: Instance, p: Ref, e: SExp, rest: multiset<Ref>)
    requires Tree(s, p, e) && Owns(s, At(s, p, e) + rest)
    ensures Tree(s, s.CarOf(p), Car(e)) && Tree(s, s.CdrOf(p), Cdr(e)) && p !in s.building
    ensures At(s, p, e) == One(p) + At(s, s.CarOf(p), Car(e)) + At(s, s.CdrOf(p), Cdr(e))
    ensures SameOn(s.value, s.value, At(s, p, e) + rest)
  {
    hide Rep, Cells;
    Look(s, p, e);
    OwnedExist(s, s.vars, s.env, At(s, p, e) + rest);
  }

  lemma Parts(s: Instance, p: Ref, e: SExp, all: multiset<Ref>)
    requires Tree(s, p, e) && Owns(s, all)
    ensures Tree(s, s.CarOf(p), Car(e)) && Tree(s, s.CdrOf(p), Cdr(e))
    ensures At(s, p, e) == One(p) + At(s, s.CarOf(p), Car(e)) + At(s, s.CdrOf(p), Cdr(e))
  {
    hide Rep, Cells;
    Look(s, p, e);
  }

  lemma NullOwnsNothing(s: Instance)
    ensures At(s, NULL, Nil) == multiset{}
  {
  }

  lemma NilOwnsNothing(s: Instance)
    ensures Tree(s, NIL, Nil) && At(s, NIL, Nil) == multiset{}
    ensures Tree(s, TRUE, T) && At(s, TRUE, T) == multiset{}
  {
  }

  lemma Chained(v0: Store, v1: Store, v2: Store, rest: multiset<Ref>)
    requires SameOn(v0, v1, rest)
    ensures SameOn(v1, v2, rest) ==> SameOn(v0, v2, rest)
  {
  }

  lemma Held(s: Instance, p: Ref, e: SExp, q: Ref, f: SExp, rest: multiset<Ref>)
    requires Owns(s, At(s, p, e) + (At(s, q, f) + rest))
    ensures SameOn(s.value, s.value, rest)
  {
    hide Rep, Cells, VarCells, Balanced;
    OwnedExist(s, s.vars, s.env, At(s, p, e) + (At(s, q, f) + rest));
  }

  lemma NilLast(s: Instance, rest: multiset<Ref>)
    ensures Tree(s, NIL, Nil) && At(s, NIL, Nil) == multiset{} && At(s, NIL, Nil) + rest == rest
  {
    NilOwnsNothing(s);
  }

  lemma OwnedExist(s: Instance, vars: map<string, Ref>, env: Env, rest: multiset<Ref>)
    requires Balanced(s, vars, env, rest)
    ensures SameOn(s.value, s.value, VarCells(s.value, vars, env) + rest)
  {
    hide VarCells, VarsRep, ListsOk, AtomsOk, PoolOk;
    var all := VarCells(s.value, vars, env) + rest;
    forall o | o in all ensures o in s.value {
      assert all[o] == CountOf(s.refs, o);
    }
  }

  // Taking a variable out of the table makes its value an owner of its own.
  lemma TakeVariable(s: Instance, vars: map<string, Ref>, env: Env, n: string, rest: multiset<Ref>)
    requires Balanced(s, vars, env, rest)
    ensures n in vars <==> n in env
    ensures n in vars ==> Tree(s, vars[n], env[n])
    ensures n in vars ==>
      Balanced(s, vars - {n}, env - {n}, At(s, vars[n], env[n]) + rest)
    ensures n !in vars ==> Balanced(s, vars - {n}, env - {n}, rest)
  {
    hide Instance.Valid, VarCells, Cells, Rep;
    VarsTake(s.value, s.building, vars, env, n);
    if n in vars {
      assert VarCells(s.value, vars, env) + rest
          == VarCells(s.value, vars - {n}, env - {n}) + (At(s, vars[n], env[n]) + rest);
    }
  }

  // Entering a tree under a name that is not taken.
  lemma PutVariable(s: Instance, vars: map<string, Ref>, env: Env, n: string, p: Ref, e: SExp,
                    rest: multiset<Ref>)
    requires Balanced(s, vars - {n}, env - {n}, At(s, p, e) + rest) && Tree(s, p, e)
    ensures Balanced(s, vars[n := p], env[n := e], rest)
  {
    hide Instance.Valid, VarCells, Cells, Rep;
    VarsPut(s.value, s.building, vars, env, n, p, e);
    VarsSet(s.value, s.building, vars, env, n, p, e);
    assert VarCells(s.value, vars[n := p], env[n := e]) + rest
        == VarCells(s.value, vars - {n}, env - {n}) + (At(s, p, e) + rest);
  }

  // delete_tree, in terms of the whole ledger.
  method DeleteTree(s: Instance, p: Ref, ghost e: SExp, ghost owned: multiset<Ref>)
    requires s.Valid() && s.Ledger(At(s, p, e) + owned) && Tree(s, p, e)
    modifies s
    ensures s.Valid() && s.Ledger(owned) && Kept(s, owned) && s.exceeded == old(s.exceeded)
    decreases e
  {
    hide Instance.Valid, Rep, Cells;
    Look(s, p, e);
    if s.IsCons(p) {
      ghost var a, d := At(s, s.CarOf(p), Car(e)), At(s, s.CdrOf(p), Cdr(e));
      assert At(s, p, e) + owned == a + (One(p) + d + owned);
      DeleteTree(s, s.CarOf(p), Car(e), One(p) + d + owned);
      assert One(p)[p] > 0;
      RepFrame(old(s.value), s.value, s.building, s.CdrOf(p), Cdr(e), One(p) + d + owned);
      assert One(p) + d + owned == d + (One(p) + owned);
      DeleteTree(s, s.CdrOf(p), Cdr(e), One(p) + owned);
    } else {
      assert At(s, p, e) + owned == One(p) + owned;
    }
    s.DeleteObject(p, owned);
  }

  lemma PathSum(x: multiset<Ref>, a: multiset<Ref>, d: multiset<Ref>, owned: multiset<Ref>)
    ensures d + (a + owned) + x == x + a + d + owned
  {
  }

  // incref_tree on a tree that somebody already owns, in terms of the whole ledger.
  method IncrefTree(s: Instance, p: Ref, ghost e: SExp, ghost owned: multiset<Ref>)
    requires s.Valid() && s.Ledger(owned) && Tree(s, p, e)
    requires forall o :: o in At(s, p, e) ==> o in owned
    modifies s
    ensures s.Valid() && s.Ledger(At(s, p, e) + owned)
    ensures s.value == old(s.value) && Kept(s, multiset{})
    decreases e
  {
    hide Instance.Valid, Rep, Cells;
    Look(s, p, e);
    if s.IsCons(p) {
      ghost var a, d := At(s, s.CarOf(p), Car(e)), At(s, s.CdrOf(p), Cdr(e));
      IncrefTree(s, s.CarOf(p), Car(e), owned);
      IncrefTree(s, s.CdrOf(p), Cdr(e), a + owned);
      s.IncrefObject(p, d + (a + owned));
      PathSum(One(p), a, d, owned);
    } else {
      s.IncrefObject(p, owned);
      Swap(owned, One(p), multiset{});
      assert owned + One(p) == One(p) + owned;
    }
  }

  // delete_object by an owner of just that object.
  method DropObject(s: Instance, p: Ref, ghost rest: multiset<Ref>)
    requires Owns(s, One(p) + rest) && p !in s.building
    modifies s
    ensures Owns(s, rest) && Kept(s, rest)
    ensures s.exceeded == old(s.exceeded)
  {
    hide Instance.Valid, VarsRep, VarCells;
    ghost var vars := VarCells(s.value, s.vars, s.env);
    Swap(vars, One(p), rest);
    s.DeleteObject(p, vars + rest);
    VarsFrame(old(s.value), s.value, s.building, s.vars, s.env, vars + rest);
  }

  // delete_tree by its owner, while the table may be in the middle of a change.
  method ReleaseTree(s: Instance, p: Ref, ghost e: SExp, ghost vars: map<string, Ref>,
                     ghost env: Env, ghost rest: multiset<Ref>)
    requires Tree(s, p, e) && Balanced(s, vars, env, At(s, p, e) + rest)
    modifies s
    ensures Balanced(s, vars, env, rest) && Kept(s, rest)
    ensures s.exceeded == old(s.exceeded)
  {
    hide Instance.Valid, VarsRep, VarCells, Cells, Rep;
    ghost var all := VarCells(s.value, vars, env);
    Swap(all, At(s, p, e), rest);
    DeleteTree(s, p, e, all + rest);
    VarsFrame(old(s.value), s.value, s.building, vars, env, all + rest);
  }

  // delete_tree by its owner.
  method DropTree(s: Instance, p: Ref, ghost e: SExp, ghost rest: multiset<Ref>)
    requires Tree(s, p, e) && Owns(s, At(s, p, e) + rest)
    modifies s
    ensures Owns(s, rest) && Kept(s, rest)
    ensures s.exceeded == old(s.exceeded)
  {
    hide Balanced, Cells, Rep;
    ReleaseTree(s, p, e, s.vars, s.env, rest);
  }

  // get_object1
  function GetObject(s: Instance, name: string): Ref
    reads s
  {
    if name in s.vars then s.vars[name] else NIL
  }

  // incref_tree on the value of a variable.
  method ShareVariable(s: Instance, name: string, ghost rest: multiset<Ref>) returns (p: Ref)
    requires Owns(s, rest)
    modifies s
    ensures Tree(s, p, Lookup(s.env, name)) && Owns(s, At(s, p, Lookup(s.env, name)) + rest)
    ensures Kept(s, rest) && s.value == old(s.value)
    ensures p == old(GetObject(s, name))
  {
    hide Instance.Valid, VarCells, Cells, Rep;
    ghost var vars := VarCells(s.value, s.vars, s.env);
    p := GetObject(s, name);
    OwnedExist(s, s.vars, s.env, rest);
    ghost var e := Lookup(s.env, name);
    if name in s.vars {
      VarsTake(s.value, s.building, s.vars, s.env, name);
    } else {
      NilOwnsNothing(s);
    }
    IncrefTree(s, p, e, vars + rest);
    Swap(At(s, p, e), vars, rest);
  }

  // set_object: gives the variable `name` a new value and drops the old one.
  method SetObject(s: Instance, name: string, p: Ref, ghost e: SExp, ghost rest: multiset<Ref>)
    requires Tree(s, p, e) && Owns(s, At(s, p, e) + rest)
    modifies s
    ensures Owns(s, rest) && SameOn(old(s.value), s.value, rest)
    ensures s.env == old(s.env)[name := e] && s.vars == old(s.vars)[name := p]
    ensures s.building == old(s.building)
    ensures Tree(s, p, e) && At(s, p, e) == old(At(s, p, e))
  {
    hide Balanced, Cells, Rep, VarCells;
    ghost var cells := At(s, p, e);
    TakeVariable(s, s.vars, s.env, name, cells + rest);
    OwnedExist(s, s.vars, s.env, cells + rest);
    if name in s.vars {
      ReleaseTree(s, s.vars[name], s.env[name], s.vars - {name}, s.env - {name}, cells + rest);
      RepFrame(old(s.value), s.value, s.building, p, e, cells + rest);
    }
    PutVariable(s, s.vars, s.env, name, p, e, rest);
    s.vars, s.env := s.vars[name := p], s.env[name := e];
  }

  // replace_object: swaps the value of an existing variable; NULL if there is none.
  method ReplaceObject(s: Instance, name: string, p: Ref, ghost e: SExp, ghost rest: multiset<Ref>)
    returns (r: Ref)
    requires Tree(s, p, e) && Owns(s, At(s, p, e) + rest)
    modifies s`vars, s`env
    ensures if name in old(s.vars)
      then r == old(s.vars)[name] && name in old(s.env) && Tree(s, r, old(s.env)[name])
        && Owns(s, At(s, r, old(s.env)[name]) + rest)
        && s.env == old(s.env)[name := e] && s.vars == old(s.vars)[name := p]
      else r == NULL && s.vars == old(s.vars) && s.env == old(s.env)
  {
    hide Balanced, Cells, Rep;
    ghost var cells := At(s, p, e);
    TakeVariable(s, s.vars, s.env, name, cells + rest);
    if name in s.vars {
      r := s.vars[name];
      ghost var taken := At(s, r, s.env[name]);
      Swap(taken, cells, rest);
      PutVariable(s, s.vars, s.env, name, p, e, taken + rest);
      s.vars, s.env := s.vars[name := p], s.env[name := e];
    } else {
      r := NULL;
    }
  }

  // set_object_direct: enters a variable that does not exist yet.
  method SetObjectDirect(s: Instance, name: string, p: Ref, ghost e: SExp, ghost rest: multiset<Ref>)
    requires Tree(s, p, e) && Owns(s, At(s, p, e) + rest) && name !in s.vars
    modifies s`vars, s`env
    ensures Owns(s, rest)
    ensures s.env == old(s.env)[name := e] && s.vars == old(s.vars)[name := p]
  {
    hide Balanced, Cells, Rep;
    TakeVariable(s, s.vars, s.env, name, At(s, p, e) + rest);
    PutVariable(s, s.vars, s.env, name, p, e, rest);
    s.vars, s.env := s.vars[name := p], s.env[name := e];
  }

  // unset_object: removes a variable and hands its value to the caller.
  method UnsetObject(s: Instance, name: string, ghost rest: multiset<Ref>) returns (r: Ref)
    requires Owns(s, rest)
    modifies s`vars, s`env
    ensures Tree(s, r, Lookup(old(s.env), name))
    ensures Owns(s, At(s, r, Lookup(old(s.env), name)) + rest)
    ensures s.env == old(s.env) - {name} && s.vars == old(s.vars) - {name}
    ensures r == old(GetObject(s, name))
  {
    hide Balanced, Cells, Rep;
    TakeVariable(s, s.vars, s.env, name, rest);
    r := GetObject(s, name);
    if name !in s.vars {
      NilLast(s, rest);
    }
    s.vars, s.env := s.vars - {name}, s.env - {name};
  }

  // x = car(p); y = cdr(p); delete_object(p)
  method Unwrap(s: Instance, p: Ref, ghost e: SExp, ghost rest: multiset<Ref>)
    returns (x: Ref, y: Ref)
    requires Tree(s, p, e) && Owns(s, At(s, p, e) + rest)
    modifies s
    ensures Tree(s, x, Car(e)) && Tree(s, y, Cdr(e)) && Kept(s, rest)
    ensures Owns(s, At(s, x, Car(e)) + (At(s, y, Cdr(e)) + rest))
    ensures s.exceeded == old(s.exceeded)
  {
    hide Balanced, Cells, Rep;
    Open(s, p, e, rest);
    x, y := s.CarOf(p), s.CdrOf(p);
    ghost var v, frame := s.value, At(s, x, Car(e)) + (At(s, y, Cdr(e)) + rest);
    assert At(s, p, e) + rest == One(p) + frame;
    DropObject(s, p, frame);
    RepFrame(v, s.value, s.building, x, Car(e), frame);
    RepFrame(v, s.value, s.building, y, Cdr(e), frame);
  }

  // incref_tree on a tree that is part of what is owned already.
  method ShareTree(s: Instance, p: Ref, ghost e: SExp, ghost rest: multiset<Ref>)
    requires Tree(s, p, e) && Owns(s, rest)
    requires At(s, p, e) <= VarCells(s.value, s.vars, s.env) + rest
    modifies s
    ensures Owns(s, At(s, p, e) + rest) && Kept(s, rest) && s.value == old(s.value)
  {
    hide Instance.Valid, VarCells, Cells, Rep;
    ghost var vars := VarCells(s.value, s.vars, s.env);
    OwnedExist(s, s.vars, s.env, rest);
    IncrefTree(s, p, e, vars + rest);
    Swap(At(s, p, e), vars, rest);
  }

  // Dropping one tree while holding another one.
  method DropFirst(s: Instance, p: Ref, ghost e: SExp, ghost q: Ref, ghost f: SExp,
                   ghost rest: multiset<Ref>)
    requires Tree(s, p, e) && Tree(s, q, f) && Owns(s, At(s, p, e) + (At(s, q, f) + rest))
    modifies s
    ensures Tree(s, q, f) && Owns(s, At(s, q, f) + rest) && Kept(s, rest)
    ensures At(s, q, f) == old(At(s, q, f))
    ensures s.exceeded == old(s.exceeded)
  {
    hide Balanced, Cells, Rep;
    ghost var v, frame := s.value, At(s, q, f) + rest;
    DropTree(s, p, e, frame);
    RepFrame(v, s.value, s.building, q, f, frame);
  }

  lemma VariableOwned(s: Instance, n: string, all: multiset<Ref>)
    requires Owns(s, all) && n in s.vars
    ensures s.vars.Keys == s.env.Keys && Tree(s, s.vars[n], s.env[n])
    ensures At(s, s.vars[n], s.env[n]) <= VarCells(s.value, s.vars, s.env)
  {
    hide Rep, Cells, VarCells, Instance.Valid;
    VarsTake(s.value, s.building, s.vars, s.env, n);
  }

  // count_list
  method CountList(s: Instance, p: Ref, ghost e: SExp, ghost all: multiset<Ref>) returns (i: nat)
    requires Tree(s, p, e) && Owns(s, all)
    ensures i == Count(e)
  {
    hide Balanced, Rep, Cells;
    var q := p;
    ghost var f := e;
    i := 0;
    Kind(s, q, f, all);
    while q != NIL && s.IsCons(q)
      invariant Tree(s, q, f) && i + Count(f) == Count(e)
      invariant (s.IsCons(q) <==> f.Cons?) && (q == NIL <==> f == Nil)
      decreases f
    {
      Parts(s, q, f, all);
      q, f, i := s.CdrOf(q), Cdr(f), i + 1;
      Kind(s, q, f, all);
    }
  }
}
