// Who owns what: an object reached along a car/cdr path is counted once for every
// such path, from every tree somebody owns. A tree is a reference together with
// the S-expression it unfolds to.

module LispOwnership {
  import opened LispSyntax
  import opened LispMemory
  import opened LispEval

  type Store = map<Ref, Val>

  // `p` unfolds to `e`, through finished conses only.
  ghost predicate Rep(value: Store, building: set<Ref>, p: Ref, e: SExp)
    decreases e
  {
    match e
    case Nil => p == NIL
    case T => p == TRUE
    case Int(i) => p > TRUE && p in value && value[p] == VInt(i)
    case Id(s) => p > TRUE && p in value && value[p] == VId(s)
    case Str(s) => p > TRUE && p in value && value[p] == VStr(s)
    case Cons(a, d) =>
      && p > TRUE && p in value && value[p].VCons? && p !in building
      && Rep(value, building, value[p].car, a) && Rep(value, building, value[p].cdr, d)
  }

  // How often each object occurs in the tree at `p`.
  ghost function Cells(value: Store, p: Ref, e: SExp): multiset<Ref>
    decreases e
  {
    match e
    case Nil => multiset{}
    case T => multiset{}
    case Cons(a, d) =>
      if p in value && value[p].VCons? then
        One(p) + Cells(value, value[p].car, a) + Cells(value, value[p].cdr, d)
      else One(p)
    case _ => One(p)
  }

  // A tree looks the same in every store that keeps its objects.
  lemma {:induction false} RepFrame(v: Store, w: Store, building: set<Ref>, p: Ref, e: SExp,
                                    owned: multiset<Ref>)
    requires Rep(v, building, p, e) && SameOn(v, w, owned)
    requires Cells(v, p, e) <= owned
    ensures Rep(w, building, p, e) && Cells(w, p, e) == Cells(v, p, e)
    decreases e
  {
    if e.Cons? {
      assert p in Cells(v, p, e);
      RepFrame(v, w, building, v[p].car, e.car, owned);
      RepFrame(v, w, building, v[p].cdr, e.cdr, owned);
    }
  }

  ghost function SumOf(m: map<string, multiset<Ref>>): multiset<Ref> {
    if m == map[] then multiset{} else
    var n :| n in m;
    m[n] + SumOf(m - {n})
  }

  lemma {:induction false} SumSplit(m: map<string, multiset<Ref>>, n: string)
    requires n in m
    ensures SumOf(m) == m[n] + SumOf(m - {n})
    decreases |m|
  {
    var k :| k in m && SumOf(m) == m[k] + SumOf(m - {k});
    if k != n {
      SumSplit(m - {k}, n);
      SumSplit(m - {n}, k);
      assert (m - {k}) - {n} == (m - {n}) - {k};
    }
  }

  // The objects that the variables own, variable by variable.
  ghost function Trees(value: Store, vars: map<string, Ref>, env: Env)
    : map<string, multiset<Ref>>
  {
    map n | n in vars :: if n in vars && n in env then Cells(value, vars[n], env[n]) else multiset{}
  }

  ghost function VarCells(value: Store, vars: map<string, Ref>, env: Env): multiset<Ref> {
    SumOf(Trees(value, vars, env))
  }

  ghost predicate VarsRep(value: Store, building: set<Ref>, vars: map<string, Ref>, env: Env) {
    vars.Keys == env.Keys && forall n :: n in env ==> Rep(value, building, vars[n], env[n])
  }

  lemma VarsFrame(v: Store, w: Store, building: set<Ref>, vars: map<string, Ref>, env: Env,
                  owned: multiset<Ref>)
    requires VarsRep(v, building, vars, env) && SameOn(v, w, owned)
    requires VarCells(v, vars, env) <= owned
    ensures VarsRep(w, building, vars, env) && VarCells(w, vars, env) == VarCells(v, vars, env)
  {
    hide Rep, Cells, SumOf;
    forall n | n in env
      ensures Rep(w, building, vars[n], env[n])
      ensures Cells(w, vars[n], env[n]) == Cells(v, vars[n], env[n])
    {
      SumSplit(Trees(v, vars, env), n);
      assert Trees(v, vars, env)[n] == Cells(v, vars[n], env[n]);
      RepFrame(v, w, building, vars[n], env[n], owned);
    }
    assert Trees(w, vars, env) == Trees(v, vars, env);
  }

  lemma TreesWithout(value: Store, vars: map<string, Ref>, env: Env, n: string)
    ensures Trees(value, vars, env) - {n} == Trees(value, vars - {n}, env - {n})
  {
    hide Cells;
  }

  lemma UpdateWithout<X>(m: map<string, X>, n: string, x: X)
    ensures m[n := x] - {n} == m - {n}
  {
  }

  lemma VarsTake(value: Store, building: set<Ref>, vars: map<string, Ref>, env: Env, n: string)
    requires VarsRep(value, building, vars, env)
    ensures VarsRep(value, building, vars - {n}, env - {n})
    ensures n in vars ==>
      VarCells(value, vars, env)
        == VarCells(value, vars - {n}, env - {n}) + Cells(value, vars[n], env[n])
    ensures n !in vars ==> vars - {n} == vars && env - {n} == env
  {
    hide Rep, Cells, SumOf;
    if n in vars {
      SumSplit(Trees(value, vars, env), n);
      TreesWithout(value, vars, env, n);
    } else {
      assert vars - {n} == vars && env - {n} == env;
    }
  }

  // Storing a tree under `n` and dropping what was there before.
  lemma VarsSet(value: Store, building: set<Ref>, vars: map<string, Ref>, env: Env,
                n: string, p: Ref, e: SExp)
    requires VarsRep(value, building, vars[n := p], env[n := e])
    ensures VarCells(value, vars[n := p], env[n := e])
         == VarCells(value, vars - {n}, env - {n}) + Cells(value, p, e)
  {
    hide *;
    var vars', env' := vars[n := p], env[n := e];
    UpdateWithout(vars, n, p);
    UpdateWithout(env, n, e);
    VarsTake(value, building, vars', env', n);
  }

  lemma VarsPut(value: Store, building: set<Ref>, vars: map<string, Ref>, env: Env,
                n: string, p: Ref, e: SExp)
    requires VarsRep(value, building, vars - {n}, env - {n}) && Rep(value, building, p, e)
    ensures VarsRep(value, building, vars[n := p], env[n := e])
  {
    hide Rep;
    assert forall k :: k in env && k != n ==> k in env - {n};
    assert forall k :: k in vars && k != n ==> k in vars - {n};
  }
}
