// eval, eval_func and the builtins of src/alisp/alisp.c. Every one of them consumes
// the tree it is given and hands back one tree, and nothing else changes hands:
// that is the contract `Evaluated`. What it computes is what LispEval says.

module LispInterp {
  import opened LispSyntax
  import opened LispMemory
  import opened LispEval
  import opened LispOwnership
  import opened LispTrees
  import opened LispCells

  ghost predicate Untouched(v: map<string, Ref>, w: map<string, Ref>, touched: set<string>) {
    forall n :: n !in touched ==> (n in v <==> n in w) && (n in v ==> v[n] == w[n])
  }

  // One owned tree was traded for the tree `r` of the outcome; all other owners
  // still own what they owned, unchanged.
  twostate predicate Evaluated(s: Instance, rest: multiset<Ref>, r: Ref, o: Outcome)
    reads s
  {
    && o.Done? && s.env == o.env && Tree(s, r, o.val) && Owns(s, At(s, r, o.val) + rest)
    && s.building == old(s.building) && SameOn(old(s.value), s.value, rest)
    && Untouched(old(s.vars), s.vars, o.touched)
  }

  // Two steps after each other.
  lemma Onward(v0: Store, v1: Store, v2: Store, rest: multiset<Ref>, m0: map<string, Ref>,
               m1: map<string, Ref>, m2: map<string, Ref>, t1: set<string>, t2: set<string>)
    requires SameOn(v0, v1, rest) && SameOn(v1, v2, rest)
    requires Untouched(m0, m1, t1) && (Untouched(m1, m2, t2) || m1 == m2)
    ensures SameOn(v0, v2, rest) && Untouched(m0, m2, t1 + t2)
    ensures m1 == m2 ==> Untouched(m0, m2, t1)
  {
  }

  lemma Start(s: Instance, p: Ref, a: SExp, rest: multiset<Ref>)
    requires Tree(s, p, a) && Owns(s, At(s, p, a) + rest)
    ensures SameOn(s.value, s.value, rest) && Untouched(s.vars, s.vars, {})
  {
    hide Balanced, Rep, Cells;
    OwnedExist(s, s.vars, s.env, At(s, p, a) + rest);
  }

  method Eval(s: Instance, p: Ref, ghost e: SExp, ghost rest: multiset<Ref>, ghost fuel: nat)
    returns (r: Ref)
    requires Tree(s, p, e) && Owns(s, At(s, p, e) + rest)
    requires LispEval.Eval(fuel, s.env, e).Done?
    modifies s
    ensures Evaluated(s, rest, r, LispEval.Eval(fuel, old(s.env), e))
    decreases fuel, 1
  {
    hide Balanced, Rep, Cells, Apply;
    Open(s, p, e, rest);
    Kind(s, p, e, At(s, p, e) + rest);
    if s.IsId(p) {
      ghost var v := Lookup(s.env, NameOf(e));
      r := ShareVariable(s, s.NameAt(p), One(p) + rest);
      Swap(At(s, r, v), One(p), rest);
      ghost var before := s.value;
      DropObject(s, p, At(s, r, v) + rest);
      RepFrame(before, s.value, s.building, r, v, Cells(before, r, v) + rest);
    } else if s.IsCons(p) {
      r := EvalCons(s, p, e, rest, fuel);
    } else {
      r := p;
    }
  }

  method EvalCons(s: Instance, p: Ref, ghost e: SExp, ghost rest: multiset<Ref>, ghost fuel: nat)
    returns (r: Ref)
    requires Tree(s, p, e) && Owns(s, At(s, p, e) + rest) && e.Cons?
    requires LispEval.Eval(fuel, s.env, e).Done?
    modifies s
    ensures Evaluated(s, rest, r, LispEval.Eval(fuel, old(s.env), e))
    decreases fuel, 0
  {
    hide Balanced, Rep, Cells, Apply;
    Open(s, p, e, rest);
    var p1, p2 := s.CarOf(p), s.CdrOf(p);
    Kind(s, p1, e.car, At(s, p, e) + rest);
    if p1 != NIL && s.IsId(p1) {
      if s.NameAt(p1) == "lambda" {
        return p;
      }
      ghost var v, frame := s.value, At(s, p1, e.car) + (At(s, p2, e.cdr) + rest);
      assert At(s, p, e) + rest == One(p) + frame;
      DropObject(s, p, frame);
      RepFrame(v, s.value, s.building, p1, e.car, frame);
      RepFrame(v, s.value, s.building, p2, e.cdr, frame);
      r := EvalCons1(s, p1, e.car, p2, e.cdr, rest, fuel - 1);
    } else {
      DropTree(s, p, e, rest);
      NilLast(s, rest);
      r := NIL;
    }
  }

  method EvalCons1(s: Instance, p1: Ref, ghost n: SExp, p2: Ref, ghost args: SExp,
                   ghost rest: multiset<Ref>, ghost fuel: nat)
    returns (r: Ref)
    requires Tree(s, p1, n) && IsName(n) && Tree(s, p2, args)
    requires Owns(s, At(s, p1, n) + (At(s, p2, args) + rest))
    requires Apply(fuel, s.env, NameOf(n), args).Done?
    modifies s
    ensures Evaluated(s, rest, r, Apply(fuel, old(s.env), NameOf(n), args))
    decreases fuel, 10, 1
  {
    hide Balanced, Rep, Cells, LispEval.Run, Call, Intrinsic;
    ghost var frame := At(s, p2, args) + rest;
    Kind(s, p1, n, At(s, p1, n) + frame);
    var name := s.NameAt(p1);
    ghost var v := s.value;
    match Intrinsic(name)
    case Modelled(b) =>
      DropObject(s, p1, frame);
      RepFrame(v, s.value, s.building, p2, args, frame);
      r := Run(s, b, p2, args, rest, fuel);
    case Unmodelled =>
      assert false;
    case NotIntrinsic =>
      r := EvalVariable(s, p1, n, p2, args, rest, fuel);
  }

  // ... where `n` is not the name of a builtin.
  method EvalVariable(s: Instance, p1: Ref, ghost n: SExp, p2: Ref, ghost args: SExp,
                      ghost rest: multiset<Ref>, ghost fuel: nat)
    returns (r: Ref)
    requires Tree(s, p1, n) && IsName(n) && Tree(s, p2, args)
    requires Owns(s, At(s, p1, n) + (At(s, p2, args) + rest))
    requires Intrinsic(NameOf(n)) == NotIntrinsic && Apply(fuel, s.env, NameOf(n), args).Done?
    modifies s
    ensures Evaluated(s, rest, r, Apply(fuel, old(s.env), NameOf(n), args))
    decreases fuel, 10, 0
  {
    hide Balanced, Rep, Cells, LispEval.Run, Call, Intrinsic, SameOn, Untouched;
    var name, p3 := TakeName(s, p1, n, p2, args, rest);
    if p3 != NIL {
      ghost var v, vars := s.value, s.vars;
      r := EvalFunc(s, name, p3, p2, args, rest, fuel);
      Onward(old(s.value), v, s.value, rest, old(s.vars), vars, s.vars, {},
             Call(fuel, old(s.env), name, old(s.env)[name], args).touched);
    } else {
      ghost var v := s.value;
      DropTree(s, p2, args, rest);
      Onward(old(s.value), v, s.value, rest, old(s.vars), s.vars, s.vars, {}, {});
      NilLast(s, rest);
      r := NIL;
    }
  }

  lemma SameNames(s: Instance, all: multiset<Ref>)
    requires Owns(s, all)
    ensures s.vars.Keys == s.env.Keys
  {
    hide Instance.Valid, VarCells;
  }

  // p3 = get_object1(name); delete_object(p1)
  method TakeName(s: Instance, p1: Ref, ghost n: SExp, ghost q: Ref, ghost f: SExp, ghost rest: multiset<Ref>)
    returns (name: string, p3: Ref)
    requires Tree(s, p1, n) && IsName(n) && Tree(s, q, f)
    requires Owns(s, At(s, p1, n) + (At(s, q, f) + rest))
    modifies s
    ensures name == NameOf(n) && Tree(s, q, f) && Owns(s, At(s, q, f) + rest) && Kept(s, rest)
    ensures Untouched(s.vars, s.vars, {}) && s.vars.Keys == s.env.Keys
    ensures p3 == GetObject(s, name) && (p3 == NIL <==> Lookup(s.env, name) == Nil)
  {
    hide Balanced, Rep, Cells;
    ghost var frame, v := At(s, q, f) + rest, s.value;
    Kind(s, p1, n, At(s, p1, n) + frame);
    name := s.NameAt(p1);
    TakeVariable(s, s.vars, s.env, name, One(p1) + frame);
    p3 := GetObject(s, name);
    if name in s.vars { Kind(s, p3, s.env[name], At(s, p1, n) + frame); }
    SameNames(s, One(p1) + frame);
    DropObject(s, p1, frame);
    RepFrame(v, s.value, s.building, q, f, frame);
  }

  method Run(s: Instance, b: Builtin, p: Ref, ghost a: SExp, ghost rest: multiset<Ref>,
             ghost fuel: nat)
    returns (r: Ref)
    requires Tree(s, p, a) && Owns(s, At(s, p, a) + rest)
    requires LispEval.Run(fuel, s.env, b, a).Done?
    modifies s
    ensures Evaluated(s, rest, r, LispEval.Run(fuel, old(s.env), b, a))
    decreases fuel, 9
  {
    hide Evaluated, Owns, Tree, At, LispEval.Progn;
    match b
    case BAnd => r := And(s, p, a, rest, fuel);
    case BCar => r := First(s, p, a, rest, fuel);
    case BCdr => r := Rest(s, p, a, rest, fuel);
    case BCond => r := Cond(s, p, a, rest, fuel);
    case BCons => r := MakeCons(s, p, a, rest, fuel);
    case BDefun => r := Defun(s, p, a, rest, fuel);
    case BFuncall => r := Funcall(s, p, a, rest, fuel);
    case BIf => r := If(s, p, a, rest, fuel);
    case BList => r := MakeList(s, p, a, rest, fuel);
    case BNot => r := Not(s, p, a, rest, fuel);
    case BOr => r := Or(s, p, a, rest, fuel);
    case BProgn => r := ProgN(s, p, a, rest, fuel);
    case BQuote => r := Quote(s, p, a, rest, fuel);
    case BSet => r := Set(s, p, a, rest, fuel);
    case BSetq => r := SetQ(s, p, a, rest, fuel);
    case BUnless => r := Unless(s, p, a, rest, fuel);
    case BUnset => r := Unset(s, p, a, rest, fuel);
    case BUnsetq => r := UnsetQ(s, p, a, rest, fuel);
    case BWhen => r := When(s, p, a, rest, fuel);
    case BWhile => r := While(s, p, a, rest, fuel);
  }

  // (quote expr)
  method Quote(s: Instance, p: Ref, ghost a: SExp, ghost rest: multiset<Ref>, ghost fuel: nat)
    returns (r: Ref)
    requires Tree(s, p, a) && Owns(s, At(s, p, a) + rest)
    requires LispEval.Run(fuel, s.env, BQuote, a).Done?
    modifies s
    ensures Evaluated(s, rest, r, LispEval.Run(fuel, old(s.env), BQuote, a))
    decreases fuel, 7
  {
    hide Balanced, Rep, Cells;
    var q;
    r, q := Unwrap(s, p, a, rest);
    ghost var c := At(s, r, Car(a));
    Swap(c, At(s, q, Cdr(a)), rest);
    ghost var v := s.value;
    DropTree(s, q, Cdr(a), c + rest);
    RepFrame(v, s.value, s.building, r, Car(a), c + rest);
  }

  // (car expr)
  method First(s: Instance, p: Ref, ghost a: SExp, ghost rest: multiset<Ref>, ghost fuel: nat)
    returns (r: Ref)
    requires Tree(s, p, a) && Owns(s, At(s, p, a) + rest)
    requires LispEval.Run(fuel, s.env, BCar, a).Done?
    modifies s
    ensures Evaluated(s, rest, r, LispEval.Run(fuel, old(s.env), BCar, a))
    decreases fuel, 7
  {
    hide Balanced, Rep, Cells, LispEval.Eval;
    ghost var o := LispEval.Eval(fuel, s.env, Car(a));
    r := EvalOnly(s, p, a, rest, fuel);
    var x, y := Unwrap(s, r, o.val, rest);
    ghost var c, v := At(s, x, Car(o.val)), s.value;
    Swap(c, At(s, y, Cdr(o.val)), rest);
    DropTree(s, y, Cdr(o.val), c + rest);
    RepFrame(v, s.value, s.building, x, Car(o.val), c + rest);
    r := x;
  }

  // (cdr expr)
  method Rest(s: Instance, p: Ref, ghost a: SExp, ghost rest: multiset<Ref>, ghost fuel: nat)
    returns (r: Ref)
    requires Tree(s, p, a) && Owns(s, At(s, p, a) + rest)
    requires LispEval.Run(fuel, s.env, BCdr, a).Done?
    modifies s
    ensures Evaluated(s, rest, r, LispEval.Run(fuel, old(s.env), BCdr, a))
    decreases fuel, 7
  {
    hide Balanced, Rep, Cells, LispEval.Eval;
    ghost var o := LispEval.Eval(fuel, s.env, Car(a));
    r := EvalOnly(s, p, a, rest, fuel);
    var x, y := Unwrap(s, r, o.val, rest);
    ghost var c, v := At(s, y, Cdr(o.val)), s.value;
    DropTree(s, x, Car(o.val), c + rest);
    RepFrame(v, s.value, s.building, y, Cdr(o.val), c + rest);
    r := y;
  }

  // The tree `p` of a builtin that evaluates just its first argument:
  // r = eval(car(p)); delete_tree(cdr(p)); delete_object(p)
  method EvalOnly(s: Instance, p: Ref, ghost a: SExp, ghost rest: multiset<Ref>, ghost fuel: nat)
    returns (r: Ref)
    requires Tree(s, p, a) && Owns(s, At(s, p, a) + rest)
    requires LispEval.Eval(fuel, s.env, Car(a)).Done?
    modifies s
    ensures Evaluated(s, rest, r, LispEval.Eval(fuel, old(s.env), Car(a)))
    decreases fuel, 4
  {
    hide Balanced, Rep, Cells, LispEval.Eval;
    ghost var o := LispEval.Eval(fuel, s.env, Car(a));
    var n;
    r, n := EvalHead(s, p, a, rest, fuel);
    ghost var c, v := At(s, r, o.val), s.value;
    Swap(c, At(s, n, Cdr(a)), rest);
    DropTree(s, n, Cdr(a), c + rest);
    RepFrame(v, s.value, s.building, r, o.val, c + rest);
  }

  method And(s: Instance, p: Ref, ghost a: SExp, ghost rest: multiset<Ref>, ghost fuel: nat)
    returns (r: Ref)
    requires Tree(s, p, a) && Owns(s, At(s, p, a) + rest)
    requires LispEval.Run(fuel, s.env, BAnd, a).Done?
    modifies s
    ensures Evaluated(s, rest, r, LispEval.Run(fuel, old(s.env), BAnd, a))
    decreases fuel, 7
  {
    hide Balanced, Rep, Cells, SameOn, Untouched, LispEval.Eval;
    ghost var whole := LispEval.And(fuel, s.env, a);
    ghost var b, v, t := a, Nil, {};
    var q := p;
    r := NULL;
    NullOwnsNothing(s);
    Start(s, p, a, rest);
    assert At(s, r, Nil) + (At(s, p, a) + rest) == At(s, p, a) + rest;
    while true
      invariant Tree(s, q, b) && if r == NULL then v == Nil else Tree(s, r, v)
      invariant Owns(s, At(s, r, v) + (At(s, q, b) + rest))
      invariant whole == LispEval.And(fuel, s.env, b).After(t)
      invariant s.building == old(s.building) && SameOn(old(s.value), s.value, rest)
      invariant Untouched(old(s.vars), s.vars, t)
      decreases b
    {
      ghost var o, w, vars := LispEval.Eval(fuel, s.env, Car(b)), s.value, s.vars;
      r, q := Round(s, r, v, q, b, rest, fuel);
      Onward(old(s.value), w, s.value, rest, old(s.vars), vars, s.vars, t, o.touched);
      b, v, t := Cdr(b), o.val, t + o.touched;
      if r == NIL || q == NIL {
        Swap(At(s, r, v), At(s, q, b), rest);
        w := s.value;
        DropFirst(s, q, b, r, v, rest);
        Onward(old(s.value), w, s.value, rest, old(s.vars), s.vars, s.vars, t, {});
        return;
      }
    }
  }

  method Cond(s: Instance, p: Ref, ghost a: SExp, ghost rest: multiset<Ref>, ghost fuel: nat)
    returns (r: Ref)
    requires Tree(s, p, a) && Owns(s, At(s, p, a) + rest)
    requires LispEval.Run(fuel, s.env, BCond, a).Done?
    modifies s
    ensures Evaluated(s, rest, r, LispEval.Run(fuel, old(s.env), BCond, a))
    decreases fuel, 7
  {
    hide Balanced, Rep, Cells, SameOn, Untouched, LispEval.Eval, LispEval.Progn;
    ghost var whole := LispEval.Cond(fuel, s.env, a);
    ghost var b, t := a, {};
    var q := p;
    Start(s, p, a, rest);
    while true
      invariant Tree(s, q, b) && Owns(s, At(s, q, b) + rest)
      invariant whole == LispEval.Cond(fuel, s.env, b).After(t)
      invariant s.building == old(s.building) && SameOn(old(s.value), s.value, rest)
      invariant Untouched(old(s.vars), s.vars, t)
      decreases b
    {
      ghost var clause := Car(b);
      ghost var o, w, vars := LispEval.Eval(fuel, s.env, Car(clause)), s.value, s.vars;
      var p2, p3, n := Test(s, q, b, rest, fuel);
      Onward(old(s.value), w, s.value, rest, old(s.vars), vars, s.vars, t, o.touched);
      w, vars := s.value, s.vars;
      b, t := Cdr(b), t + o.touched;
      if p2 != NIL {
        ghost var env := s.env;
        r := Clause(s, p2, o.val, p3, Cdr(clause), n, b, rest, fuel);
        ghost var t2 := if Cdr(clause) != Nil then LispEval.Progn(fuel, env, Cdr(clause)).touched else {};
        Onward(old(s.value), w, s.value, rest, old(s.vars), vars, s.vars, t, t2);
        assert whole.touched == t + t2;
        return;
      }
      q := SkipClause(s, p2, p3, Cdr(clause), n, b, rest);
      Onward(old(s.value), w, s.value, rest, old(s.vars), vars, s.vars, t, {});
      if q == NIL {
        NilOwnsNothing(s);
        return NIL;
      }
    }
  }

  // Evaluates the test of the first clause of `cond`, and takes the clause apart.
  method Test(s: Instance, p: Ref, ghost a: SExp, ghost rest: multiset<Ref>, ghost fuel: nat)
    returns (p2: Ref, p3: Ref, n: Ref)
    requires Tree(s, p, a) && Owns(s, At(s, p, a) + rest)
    requires LispEval.Eval(fuel, s.env, Car(Car(a))).Done?
    modifies s
    ensures Tree(s, p3, Cdr(Car(a))) && Tree(s, n, Cdr(a))
    ensures var o := LispEval.Eval(fuel, old(s.env), Car(Car(a)));
      && s.env == o.env && Tree(s, p2, o.val) && (p2 == NIL <==> o.val == Nil)
      && Owns(s, At(s, p2, o.val) + (At(s, p3, Cdr(Car(a))) + (At(s, n, Cdr(a)) + rest)))
      && s.building == old(s.building) && SameOn(old(s.value), s.value, rest)
      && Untouched(old(s.vars), s.vars, o.touched)
    decreases fuel, 4
  {
    hide Balanced, Rep, Cells, LispEval.Eval;
    var p1;
    p1, n := Unwrap(s, p, a, rest);
    ghost var clause, v, frame := Car(a), s.value, At(s, n, Cdr(a)) + rest;
    p2, p3 := Unwrap(s, p1, clause, frame);
    RepFrame(v, s.value, s.building, n, Cdr(a), frame);
    ghost var o := LispEval.Eval(fuel, s.env, Car(clause));
    p2 := EvalHolding2(s, p2, Car(clause), p3, Cdr(clause), n, Cdr(a), rest, fuel);
    Kind(s, p2, o.val, At(s, p2, o.val) + (At(s, p3, Cdr(clause)) + (At(s, n, Cdr(a)) + rest)));
  }

  // Releases a clause whose test `p2` was nil.
  method SkipClause(s: Instance, ghost p2: Ref, p3: Ref, ghost body: SExp, n: Ref, ghost others: SExp,
                    ghost rest: multiset<Ref>)
    returns (q: Ref)
    requires Tree(s, p2, Nil) && Tree(s, p3, body) && Tree(s, n, others)
    requires Owns(s, At(s, p2, Nil) + (At(s, p3, body) + (At(s, n, others) + rest)))
    modifies s
    ensures Tree(s, q, others) && (q == NIL <==> others == Nil)
    ensures Owns(s, At(s, q, others) + rest) && Kept(s, rest)
  {
    hide Balanced, Rep, Cells;
    ghost var frame := At(s, p3, body) + (At(s, n, others) + rest);
    Kind(s, p2, Nil, At(s, p2, Nil) + frame);
    NilOwnsNothing(s);
    assert At(s, p2, Nil) + frame == frame;
    DropFirst(s, p3, body, n, others, rest);
    q := n;
    Kind(s, q, others, At(s, q, others) + rest);
  }

  // The chosen clause of `cond`: its test had the value `c`, its body is at `p3`.
  method Clause(s: Instance, p2: Ref, ghost c: SExp, p3: Ref, ghost body: SExp, n: Ref,
                ghost others: SExp, ghost rest: multiset<Ref>, ghost fuel: nat)
    returns (r: Ref)
    requires Tree(s, p2, c) && Tree(s, p3, body) && Tree(s, n, others)
    requires Owns(s, At(s, p2, c) + (At(s, p3, body) + (At(s, n, others) + rest)))
    requires body != Nil ==> LispEval.Progn(fuel, s.env, body).Done?
    modifies s
    ensures Evaluated(s, rest, r, if body != Nil then LispEval.Progn(fuel, old(s.env), body)
                                  else Done(old(s.env), c, {}))
    decreases fuel, 5
  {
    hide Balanced, Rep, Cells, LispEval.Progn;
    ghost var c2, c3, c4 := At(s, p2, c), At(s, p3, body), At(s, n, others);
    Kind(s, p3, body, c2 + (c3 + (c4 + rest)));
    Swap(c3, c4, rest);
    Swap(c2, c4, c3 + rest);
    ghost var v := s.value;
    DropFirst(s, n, others, p2, c, c3 + rest);
    RepFrame(v, s.value, s.building, p3, body, c3 + rest);
    if p3 != NIL {
      DropFirst(s, p2, c, p3, body, rest);
      r := ProgN(s, p3, body, rest, fuel);
    } else {
      Swap(c2, c3, rest);
      DropFirst(s, p3, body, p2, c, rest);
      r := p2;
    }
  }

  // (cons expr1 expr2)
  method MakeCons(s: Instance, p: Ref, ghost a: SExp, ghost rest: multiset<Ref>, ghost fuel: nat)
    returns (r: Ref)
    requires Tree(s, p, a) && Owns(s, At(s, p, a) + rest)
    requires LispEval.Run(fuel, s.env, BCons, a).Done?
    modifies s
    ensures Evaluated(s, rest, r, LispEval.Run(fuel, old(s.env), BCons, a))
    decreases fuel, 7
  {
    hide Balanced, Rep, Cells, SameOn, Untouched, LispEval.Eval;
    ghost var v0, b, frame := s.value, s.building, At(s, p, a) + rest;
    Start(s, p, a, rest);
    var c := NewCell(s, frame);
    RepFrame(v0, s.value, b, p, a, frame);
    RepRebuild(s.value, b, s.building, p, a);
    Narrow(v0, s.value, frame, rest);
    Swap(One(c), At(s, p, a), rest);
    ghost var o1, v, m := LispEval.Eval(fuel, s.env, Car(a)), s.value, s.vars;
    var x, n := EvalHead(s, p, a, One(c) + rest, fuel);
    Narrow(v, s.value, One(c) + rest, rest);
    Chained(v0, v, s.value, rest);
    ghost var v1, m1, o2 := s.value, s.vars, LispEval.Eval(fuel, s.env, Car(Cdr(a)));
    OutsideOf(c, frame, rest);
    r := ConsRest(s, c, x, o1.val, n, Cdr(a), rest, fuel);
    Onward(v0, v1, s.value, rest, m, m1, s.vars, o1.touched, o2.touched);
  }

  lemma OutsideOf(c: Ref, more: multiset<Ref>, less: multiset<Ref>)
    requires c !in more && less <= more
    ensures c !in less
  {
  }

  lemma LaterOwners(a: multiset<Ref>, b: multiset<Ref>, c: multiset<Ref>, d: multiset<Ref>, rest: multiset<Ref>)
    ensures a + (b + (c + (d + rest))) == b + (d + (c + (a + rest)))
  {
  }

  // The second half of `cons`: the new cell `c` gets its car, then its cdr.
  method ConsRest(s: Instance, c: Ref, x: Ref, ghost v1: SExp, p: Ref, ghost a: SExp,
                  ghost rest: multiset<Ref>, ghost fuel: nat)
    returns (r: Ref)
    requires Tree(s, x, v1) && Tree(s, p, a) && c in s.building && c > TRUE && c !in rest
    requires Owns(s, At(s, x, v1) + (At(s, p, a) + (One(c) + rest)))
    requires LispEval.Eval(fuel, s.env, Car(a)).Done?
    modifies s
    ensures var o := LispEval.Eval(fuel, old(s.env), Car(a));
      && s.env == o.env && Tree(s, r, Cons(v1, o.val)) && Owns(s, At(s, r, Cons(v1, o.val)) + rest)
      && s.building == old(s.building) - {c} && SameOn(old(s.value), s.value, rest)
      && Untouched(old(s.vars), s.vars, o.touched)
    decreases fuel, 5
  {
    hide Balanced, Rep, Cells, SameOn, Untouched, LispEval.Eval;
    ghost var o := LispEval.Eval(fuel, s.env, Car(a));
    ghost var v0, c1 := s.value, At(s, x, v1);
    SetCar(s, c, x, v1, p, a, rest);
    ghost var v := s.value;
    var y, n := EvalHead(s, p, a, c1 + (One(c) + rest), fuel);
    RepFrame(v, s.value, s.building, x, v1, c1 + (One(c) + rest));
    Narrow(v, s.value, c1 + (One(c) + rest), rest);
    Chained(v0, v, s.value, rest);
    ghost var c2, c3 := At(s, y, o.val), At(s, n, Cdr(a));
    LaterOwners(c2, c3, c1, One(c), rest);
    v := s.value;
    DropTree(s, n, Cdr(a), One(c) + (c1 + (c2 + rest)));
    RepFrame(v, s.value, s.building, x, v1, One(c) + (c1 + (c2 + rest)));
    RepFrame(v, s.value, s.building, y, o.val, One(c) + (c1 + (c2 + rest)));
    Narrow(v, s.value, One(c) + (c1 + (c2 + rest)), rest);
    Chained(v0, v, s.value, rest);
    v := s.value;
    CloseCons(s, c, x, v1, y, o.val, rest);
    Chained(v0, v, s.value, rest);
    r := c;
  }

  // The car of the new cell, while its cdr is still to come.
  method SetCar(s: Instance, c: Ref, x: Ref, ghost v1: SExp, ghost p: Ref, ghost a: SExp, ghost rest: multiset<Ref>)
    requires Tree(s, x, v1) && Tree(s, p, a) && c in s.building && c > TRUE && c !in rest
    requires Owns(s, At(s, x, v1) + (At(s, p, a) + (One(c) + rest)))
    modifies s`value
    ensures Tree(s, x, v1) && Tree(s, p, a) && At(s, x, v1) == old(At(s, x, v1))
    ensures Owns(s, At(s, p, a) + (At(s, x, v1) + (One(c) + rest))) && SameOn(old(s.value), s.value, rest)
  {
    hide Balanced, Rep, Cells;
    ghost var v := s.value;
    OwnedExist(s, s.vars, s.env, At(s, x, v1) + (At(s, p, a) + (One(c) + rest)));
    Store2(s, c, x, NIL, At(s, x, v1) + (At(s, p, a) + (One(c) + rest)));
    RepStore(v, s.building, c, VCons(x, NIL), x, v1);
    RepStore(v, s.building, c, VCons(x, NIL), p, a);
    Swap(At(s, x, v1), At(s, p, a), One(c) + rest);
  }

  // Both halves of a cell, which is finished then.
  method CloseCons(s: Instance, c: Ref, x: Ref, ghost a: SExp, y: Ref, ghost d: SExp, ghost rest: multiset<Ref>)
    requires Tree(s, x, a) && Tree(s, y, d) && c in s.building && c > TRUE && c !in rest
    requires Owns(s, One(c) + (At(s, x, a) + (At(s, y, d) + rest)))
    modifies s`value, s`building
    ensures Tree(s, c, Cons(a, d)) && Owns(s, At(s, c, Cons(a, d)) + rest)
    ensures s.building == old(s.building) - {c} && SameOn(old(s.value), s.value, rest)
  {
    hide Balanced, Rep, Cells;
    ghost var v := s.value;
    OwnedExist(s, s.vars, s.env, One(c) + (At(s, x, a) + (At(s, y, d) + rest)));
    Store2(s, c, x, y, One(c) + (At(s, x, a) + (At(s, y, d) + rest)));
    RepStore(v, s.building, c, VCons(x, y), x, a);
    RepStore(v, s.building, c, VCons(x, y), y, d);
    Finish(s, c, a, d, rest);
  }

  // (defun name arglist expr...)
  method Defun(s: Instance, p: Ref, ghost a: SExp, ghost rest: multiset<Ref>, ghost fuel: nat)
    returns (r: Ref)
    requires Tree(s, p, a) && Owns(s, At(s, p, a) + rest)
    requires LispEval.Run(fuel, s.env, BDefun, a).Done?
    modifies s
    ensures Evaluated(s, rest, r, LispEval.Run(fuel, old(s.env), BDefun, a))
    decreases fuel, 7
  {
    hide Balanced, Rep, Cells;
    ghost var name, params, body := Car(a), Car(Cdr(a)), Cdr(Cdr(a));
    var p1, p2, p3 := TakeApart(s, p, a, rest);
    ghost var c1, v := At(s, p1, name), s.value;
    var f := MakeLambda(s, p2, params, p3, body, c1 + rest);
    RepFrame(v, s.value, s.building, p1, name, c1 + rest);
    Kind(s, p1, name, At(s, f, Lambda(params, body)) + (c1 + rest));
    r := Store(s, p1, name, f, Lambda(params, body), rest);
    NilLast(s, rest);
    r := NIL;
  }

  // The first two elements of a list and what follows them; the list itself is gone.
  method TakeApart(s: Instance, p: Ref, ghost a: SExp, ghost rest: multiset<Ref>)
    returns (p1: Ref, p2: Ref, p3: Ref)
    requires Tree(s, p, a) && Owns(s, At(s, p, a) + rest)
    modifies s
    ensures Tree(s, p1, Car(a)) && Tree(s, p2, Car(Cdr(a))) && Tree(s, p3, Cdr(Cdr(a)))
    ensures Owns(s, At(s, p2, Car(Cdr(a))) + (At(s, p3, Cdr(Cdr(a))) + (At(s, p1, Car(a)) + rest)))
    ensures Kept(s, rest)
  {
    hide Balanced, Rep, Cells;
    var q;
    p1, q := Unwrap(s, p, a, rest);
    ghost var c1, v := At(s, p1, Car(a)), s.value;
    Swap(c1, At(s, q, Cdr(a)), rest);
    p2, p3 := Unwrap(s, q, Cdr(a), c1 + rest);
    RepFrame(v, s.value, s.building, p1, Car(a), c1 + rest);
  }

  // (lambda params body...) from its parts
  method MakeLambda(s: Instance, p2: Ref, ghost params: SExp, p3: Ref, ghost body: SExp,
                    ghost rest: multiset<Ref>)
    returns (f: Ref)
    requires Tree(s, p2, params) && Tree(s, p3, body)
    requires Owns(s, At(s, p2, params) + (At(s, p3, body) + rest))
    modifies s
    ensures Tree(s, f, Lambda(params, body)) && Owns(s, At(s, f, Lambda(params, body)) + rest)
    ensures Kept(s, rest)
  {
    hide Balanced, Rep, Cells;
    f := WrapCons(s, p2, params, p3, body, rest);
    ghost var e, v := Cons(params, body), s.value;
    ghost var frame := At(s, f, e) + rest;
    var id := NewLeaf(s, Id("lambda"), frame);
    RepFrame(v, s.value, s.building, f, e, frame);
    f := WrapCons(s, id, Id("lambda"), f, e, rest);
  }

  // A new cons with an owned car and an owned cdr.
  method WrapCons(s: Instance, x: Ref, ghost a: SExp, y: Ref, ghost d: SExp, ghost rest: multiset<Ref>)
    returns (c: Ref)
    requires Tree(s, x, a) && Tree(s, y, d) && Owns(s, At(s, x, a) + (At(s, y, d) + rest))
    modifies s
    ensures Tree(s, c, Cons(a, d)) && Owns(s, At(s, c, Cons(a, d)) + rest) && Kept(s, rest)
  {
    hide Balanced, Rep, Cells, SameOn;
    ghost var v0, v, b, frame := s.value, s.value, s.building, At(s, x, a) + (At(s, y, d) + rest);
    c := NewCell(s, frame);
    Narrow(v, s.value, frame, rest);
    RepFrame(v, s.value, b, x, a, frame);
    RepFrame(v, s.value, b, y, d, frame);
    RepRebuild(s.value, b, s.building, x, a);
    RepRebuild(s.value, b, s.building, y, d);
    v := s.value;
    CloseCons(s, c, x, a, y, d, rest);
    Chained(v0, v, s.value, rest);
  }

  // (funcall function args...)
  method Funcall(s: Instance, p: Ref, ghost a: SExp, ghost rest: multiset<Ref>, ghost fuel: nat)
    returns (r: Ref)
    requires Tree(s, p, a) && Owns(s, At(s, p, a) + rest)
    requires LispEval.Run(fuel, s.env, BFuncall, a).Done?
    modifies s
    ensures Evaluated(s, rest, r, LispEval.Run(fuel, old(s.env), BFuncall, a))
    decreases fuel, 7
  {
    hide Balanced, Rep, Cells, LispEval.Eval, Apply;
    ghost var o := LispEval.Eval(fuel, s.env, Car(a));
    var f, n := EvalHead(s, p, a, rest, fuel);
    Kind(s, f, o.val, At(s, f, o.val) + (At(s, n, Cdr(a)) + rest));
    if !s.IsNameObj(f) {
      DropFirst(s, f, o.val, n, Cdr(a), rest);
      DropTree(s, n, Cdr(a), rest);
      NilLast(s, rest);
      return NIL;
    }
    r := EvalCons1(s, f, o.val, n, Cdr(a), rest, fuel - 1);
  }

  // (if expr then-expr else-expr...)
  method If(s: Instance, p: Ref, ghost a: SExp, ghost rest: multiset<Ref>, ghost fuel: nat)
    returns (r: Ref)
    requires Tree(s, p, a) && Owns(s, At(s, p, a) + rest)
    requires LispEval.Run(fuel, s.env, BIf, a).Done?
    modifies s
    ensures Evaluated(s, rest, r, LispEval.Run(fuel, old(s.env), BIf, a))
    decreases fuel, 7
  {
    hide Balanced, Rep, Cells, LispEval.Eval, LispEval.Progn;
    ghost var then', else' := Car(Cdr(a)), Cdr(Cdr(a));
    var p1, p2, p3 := TakeApart(s, p, a, rest);
    ghost var c1, c2, c3 := At(s, p1, Car(a)), At(s, p2, then'), At(s, p3, else');
    Swap(c3, c1, rest);
    Swap(c2, c1, c3 + rest);
    ghost var o := LispEval.Eval(fuel, s.env, Car(a));
    p1 := EvalHolding2(s, p1, Car(a), p2, then', p3, else', rest, fuel);
    r := Branch(s, p1, o.val, p2, then', p3, else', rest, fuel);
  }

  // The second half of `if`, once the condition has the value `c`.
  method Branch(s: Instance, p1: Ref, ghost c: SExp, p2: Ref, ghost then': SExp, p3: Ref,
                ghost else': SExp, ghost rest: multiset<Ref>, ghost fuel: nat)
    returns (r: Ref)
    requires Tree(s, p1, c) && Tree(s, p2, then') && Tree(s, p3, else')
    requires Owns(s, At(s, p1, c) + (At(s, p2, then') + (At(s, p3, else') + rest)))
    requires c != Nil ==> LispEval.Eval(fuel, s.env, then').Done?
    requires c == Nil ==> LispEval.Progn(fuel, s.env, else').Done?
    modifies s
    ensures Evaluated(s, rest, r, if c != Nil then LispEval.Eval(fuel, old(s.env), then')
                                  else LispEval.Progn(fuel, old(s.env), else'))
    decreases fuel, 5
  {
    hide Balanced, Rep, Cells, LispEval.Eval, LispEval.Progn;
    ghost var c1, c2, c3 := At(s, p1, c), At(s, p2, then'), At(s, p3, else');
    Kind(s, p1, c, c1 + (c2 + (c3 + rest)));
    ghost var v := s.value;
    DropFirst(s, p1, c, p2, then', c3 + rest);
    RepFrame(v, s.value, s.building, p3, else', c3 + rest);
    if p1 != NIL {
      Swap(c2, c3, rest);
      DropFirst(s, p3, else', p2, then', rest);
      r := Eval(s, p2, then', rest, fuel);
    } else {
      DropFirst(s, p2, then', p3, else', rest);
      r := ProgN(s, p3, else', rest, fuel);
    }
  }

  // Evaluating one tree while holding another one.
  method EvalHolding(s: Instance, p: Ref, ghost e: SExp, ghost q: Ref, ghost f: SExp,
                     ghost rest: multiset<Ref>, ghost fuel: nat)
    returns (r: Ref)
    requires Tree(s, p, e) && Tree(s, q, f) && Owns(s, At(s, p, e) + (At(s, q, f) + rest))
    requires LispEval.Eval(fuel, s.env, e).Done?
    modifies s
    ensures Tree(s, q, f) && At(s, q, f) == old(At(s, q, f))
    ensures Evaluated(s, At(s, q, f) + rest, r, LispEval.Eval(fuel, old(s.env), e))
    decreases fuel, 2
  {
    hide Balanced, Rep, Cells, LispEval.Eval;
    ghost var v, frame := s.value, At(s, q, f) + rest;
    r := Eval(s, p, e, frame, fuel);
    RepFrame(v, s.value, s.building, q, f, frame);
  }

  // ... and two.
  method EvalHolding2(s: Instance, p: Ref, ghost e: SExp, ghost q: Ref, ghost f: SExp,
                      ghost q2: Ref, ghost f2: SExp, ghost rest: multiset<Ref>, ghost fuel: nat)
    returns (r: Ref)
    requires Tree(s, p, e) && Tree(s, q, f) && Tree(s, q2, f2)
    requires Owns(s, At(s, p, e) + (At(s, q, f) + (At(s, q2, f2) + rest)))
    requires LispEval.Eval(fuel, s.env, e).Done?
    modifies s
    ensures Tree(s, q, f) && At(s, q, f) == old(At(s, q, f))
    ensures Tree(s, q2, f2) && At(s, q2, f2) == old(At(s, q2, f2))
    ensures Evaluated(s, At(s, q, f) + (At(s, q2, f2) + rest), r,
                      LispEval.Eval(fuel, old(s.env), e))
    decreases fuel, 3
  {
    hide Balanced, Rep, Cells, LispEval.Eval;
    ghost var v, frame := s.value, At(s, q, f) + (At(s, q2, f2) + rest);
    r := EvalHolding(s, p, e, q, f, At(s, q2, f2) + rest, fuel);
    RepFrame(v, s.value, s.building, q2, f2, frame);
  }

  // (list expr1...)
  method MakeList(s: Instance, p: Ref, ghost a: SExp, ghost rest: multiset<Ref>, ghost fuel: nat)
    returns (r: Ref)
    requires Tree(s, p, a) && Owns(s, At(s, p, a) + rest)
    requires EvalEach(fuel, s.env, a).Done?
    modifies s
    ensures Evaluated(s, rest, r, EvalEach(fuel, old(s.env), a))
    decreases fuel, 7
  {
    hide Balanced, Rep, Cells, LinkCells, Linked, SameOn, Untouched, LispEval.Eval, LispEval.EvalEach, ListOf;
    Kind(s, p, a, At(s, p, a) + rest);
    Start(s, p, a, rest);
    EachNone(fuel, s.env);
    ListOfNone(EvalEach(fuel, s.env, a).val);
    if p == NIL {
      return NIL;
    }
    ghost var whole := LispEval.EvalEach(fuel, s.env, a);
    ghost var b, t := a, {};
    ghost var cs: seq<Ref>, es: seq<SExp> := [], [];
    var q, first, prev := p, NULL, NULL;
    NoLinks(s.value, s.building);
    assert LinkCells(s.value, cs, es) + (At(s, q, b) + rest) == At(s, q, b) + rest;
    while true
      invariant b != Nil && Tree(s, q, b)
      invariant |cs| == |es| && Linked(s.value, s.building, cs, es, NIL)
      invariant Owns(s, LinkCells(s.value, cs, es) + (At(s, q, b) + rest))
      invariant if cs == [] then first == prev == NULL
                else first == cs[0] != NULL && prev == cs[|cs|-1] != NULL
      invariant var o := LispEval.EvalEach(fuel, s.env, b);
        o.Done? && whole == Done(o.env, ListOf(es, o.val), t + o.touched)
      invariant s.building == old(s.building) + ToSet(cs)
      invariant forall c :: c in cs ==> c > TRUE && c !in rest && c !in old(s.building)
      invariant SameOn(old(s.value), s.value, rest) && Untouched(old(s.vars), s.vars, t)
      decreases b
    {
      ghost var o, w, vars := LispEval.Eval(fuel, s.env, Car(b)), s.value, s.vars;
      EachRound(fuel, s.env, b, es, t);
      var p1;
      p1, q := ListRound(s, cs, es, prev, q, b, rest, fuel);
      Onward(old(s.value), w, s.value, rest, old(s.vars), vars, s.vars, t, o.touched);
      first, prev := if first == NULL then p1 else first, p1;
      cs, es, b, t := cs + [p1], es + [o.val], Cdr(b), t + o.touched;
      if q == NIL {
        NilOwnsNothing(s);
        ghost var f := FinishAll(s, cs, es, NIL, Nil, rest);
        assert old(s.building) + ToSet(cs) - ToSet(cs) == old(s.building);
        return first;
      }
    }
  }

  lemma EachNone(fuel: nat, env: Env)
    ensures LispEval.EvalEach(fuel, env, Nil) == Done(env, Nil, {})
  {
  }

  lemma ListOfNone(e: SExp)
    ensures ListOf([], e) == e
  {
  }

  // What one round of `list` leaves to be done.
  lemma EachRound(fuel: nat, env: Env, b: SExp, es: seq<SExp>, t: set<string>)
    requires b != Nil && LispEval.EvalEach(fuel, env, b).Done?
    ensures var whole, o := LispEval.EvalEach(fuel, env, b), LispEval.Eval(fuel, env, Car(b));
      && o.Done?
      && var r := if Cdr(b) == Nil then Done(o.env, Nil, {}) else LispEval.EvalEach(fuel, o.env, Cdr(b));
         r.Done? && Done(whole.env, ListOf(es, whole.val), t + whole.touched)
           == Done(r.env, ListOf(es + [o.val], r.val), t + o.touched + r.touched)
  {
    hide LispEval.Eval;
    var o := LispEval.Eval(fuel, env, Car(b));
    var r := if Cdr(b) == Nil then Done(o.env, Nil, {}) else LispEval.EvalEach(fuel, o.env, Cdr(b));
    assert (es + [o.val])[..|es|] == es;
    assert ListOf(es + [o.val], r.val) == ListOf(es, Cons(o.val, r.val));
    assert t + (o.touched + r.touched) == t + o.touched + r.touched;
    if Cdr(b) == Nil { assert o.touched + r.touched == o.touched; }
  }

  // One round of `list`: a new cons for the value of the next expression, linked
  // to the end `prev` of the chain `cs`.
  method ListRound(s: Instance, ghost cs: seq<Ref>, ghost es: seq<SExp>, prev: Ref, p: Ref,
                   ghost a: SExp, ghost rest: multiset<Ref>, ghost fuel: nat)
    returns (p1: Ref, n: Ref)
    requires Tree(s, p, a) && Linked(s.value, s.building, cs, es, NIL)
    requires Owns(s, LinkCells(s.value, cs, es) + (At(s, p, a) + rest))
    requires if cs == [] then prev == NULL else prev == cs[|cs|-1] && prev != NULL
    requires forall c :: c in cs ==> c !in rest
    requires LispEval.Eval(fuel, s.env, Car(a)).Done?
    modifies s
    ensures Tree(s, n, Cdr(a)) && (n == NIL <==> Cdr(a) == Nil)
    ensures p1 > TRUE && p1 !in old(s.building) && p1 !in rest
    ensures s.building == old(s.building) + {p1}
    ensures var o := LispEval.Eval(fuel, old(s.env), Car(a));
      && s.env == o.env && Linked(s.value, s.building, cs + [p1], es + [o.val], NIL)
      && Owns(s, LinkCells(s.value, cs + [p1], es + [o.val]) + (At(s, n, Cdr(a)) + rest))
      && SameOn(old(s.value), s.value, rest) && Untouched(old(s.vars), s.vars, o.touched)
    decreases fuel, 5
  {
    hide Balanced, Rep, Cells, LinkCells, LispEval.Eval;
    ghost var o := LispEval.Eval(fuel, s.env, Car(a));
    ghost var links := LinkCells(s.value, cs, es);
    p1 := ChainCell(s, cs, es, p, a, rest);
    ghost var hold, v := links + (One(p1) + rest), s.value;
    var x;
    x, n := EvalHead(s, p, a, hold, fuel);
    Kind(s, n, Cdr(a), At(s, x, o.val) + (At(s, n, Cdr(a)) + hold));
    LinkFrame(v, s.value, s.building, cs, es, NIL, hold);
    ghost var c1, c2 := At(s, x, o.val), At(s, n, Cdr(a));
    LinkCell(s, cs, es, prev, p1, x, o.val, n, Cdr(a), rest);
  }

  // The new cons of a round.
  method ChainCell(s: Instance, ghost cs: seq<Ref>, ghost es: seq<SExp>, ghost p: Ref,
                   ghost a: SExp, ghost rest: multiset<Ref>)
    returns (p1: Ref)
    requires Tree(s, p, a) && Linked(s.value, s.building, cs, es, NIL)
    requires Owns(s, LinkCells(s.value, cs, es) + (At(s, p, a) + rest))
    modifies s
    ensures Tree(s, p, a) && Linked(s.value, s.building, cs, es, NIL)
    ensures LinkCells(s.value, cs, es) == old(LinkCells(s.value, cs, es))
    ensures Owns(s, At(s, p, a) + (LinkCells(s.value, cs, es) + (One(p1) + rest)))
    ensures p1 > TRUE && p1 !in old(s.building) && p1 !in rest && s.building == old(s.building) + {p1}
    ensures SameOn(old(s.value), s.value, rest) && s.vars == old(s.vars) && s.env == old(s.env)
  {
    hide Balanced, Rep, Cells, LinkCells;
    ghost var links := LinkCells(s.value, cs, es);
    ghost var v, b, frame := s.value, s.building, links + (At(s, p, a) + rest);
    p1 := NewCell(s, frame);
    LinkFrame(v, s.value, b, cs, es, NIL, frame);
    RepFrame(v, s.value, b, p, a, frame);
    LinkRebuild(s.value, b, s.building, cs, es, NIL);
    RepRebuild(s.value, b, s.building, p, a);
    assert One(p1) + frame == At(s, p, a) + (links + (One(p1) + rest));
  }

  // p1->value.c.car = x, and prev->value.c.cdr = p1 if there is a previous cell.
  method LinkCell(s: Instance, ghost cs: seq<Ref>, ghost es: seq<SExp>, prev: Ref, p1: Ref, x: Ref,
                  ghost e: SExp, ghost n: Ref, ghost d: SExp, ghost rest: multiset<Ref>)
    requires Tree(s, x, e) && Tree(s, n, d) && Linked(s.value, s.building, cs, es, NIL)
    requires if cs == [] then prev == NULL else prev == cs[|cs|-1] && prev != NULL
    requires p1 in s.building && p1 > TRUE && p1 !in cs && p1 !in rest
    requires forall c :: c in cs ==> c !in rest
    requires Owns(s, At(s, x, e) + (At(s, n, d) + (LinkCells(s.value, cs, es) + (One(p1) + rest))))
    modifies s`value
    ensures Tree(s, n, d) && Linked(s.value, s.building, cs + [p1], es + [e], NIL)
    ensures Owns(s, LinkCells(s.value, cs + [p1], es + [e]) + (At(s, n, d) + rest))
    ensures SameOn(old(s.value), s.value, rest)
  {
    hide Balanced, Rep, Cells, LinkCells;
    ghost var c1, c2, links, v := At(s, x, e), At(s, n, d), LinkCells(s.value, cs, es), s.value;
    ghost var all := c1 + (c2 + (links + (One(p1) + rest)));
    OwnedExist(s, s.vars, s.env, all);
    Store2(s, p1, x, NIL, all);
    RepStore(v, s.building, p1, VCons(x, NIL), x, e);
    RepStore(v, s.building, p1, VCons(x, NIL), n, d);
    LinkOther(v, s.building, cs, es, NIL, p1, VCons(x, NIL));
    if prev != NULL {
      ghost var w := s.value;
      Store2(s, prev, s.value[prev].car, p1, all);
      RepStore(w, s.building, prev, VCons(w[prev].car, p1), x, e);
      RepStore(w, s.building, prev, VCons(w[prev].car, p1), n, d);
      LinkStore(w, s.building, cs, es, NIL, p1);
    }
    LinkAppend(s.value, s.building, cs, es, p1, e);
    assert all == LinkCells(s.value, cs + [p1], es + [e]) + (c2 + rest);
  }

  // (not expr)
  method Not(s: Instance, p: Ref, ghost a: SExp, ghost rest: multiset<Ref>, ghost fuel: nat)
    returns (r: Ref)
    requires Tree(s, p, a) && Owns(s, At(s, p, a) + rest)
    requires LispEval.Run(fuel, s.env, BNot, a).Done?
    modifies s
    ensures Evaluated(s, rest, r, LispEval.Run(fuel, old(s.env), BNot, a))
    decreases fuel, 7
  {
    hide Balanced, Rep, Cells, LispEval.Eval;
    ghost var o := LispEval.Eval(fuel, s.env, Car(a));
    var q := EvalOnly(s, p, a, rest, fuel);
    Kind(s, q, o.val, At(s, q, o.val) + rest);
    DropTree(s, q, o.val, rest);
    NilOwnsNothing(s);
    r := if q != NIL then NIL else TRUE;
    assert At(s, r, if o.val == Nil then T else Nil) + rest == rest;
  }

  method Or(s: Instance, p: Ref, ghost a: SExp, ghost rest: multiset<Ref>, ghost fuel: nat)
    returns (r: Ref)
    requires Tree(s, p, a) && Owns(s, At(s, p, a) + rest)
    requires LispEval.Run(fuel, s.env, BOr, a).Done?
    modifies s
    ensures Evaluated(s, rest, r, LispEval.Run(fuel, old(s.env), BOr, a))
    decreases fuel, 7
  {
    hide Balanced, Rep, Cells, SameOn, Untouched, LispEval.Eval;
    ghost var whole := LispEval.Or(fuel, s.env, a);
    ghost var b, v, t := a, Nil, {};
    var q := p;
    r := NULL;
    NullOwnsNothing(s);
    Start(s, p, a, rest);
    assert At(s, r, Nil) + (At(s, p, a) + rest) == At(s, p, a) + rest;
    while true
      invariant Tree(s, q, b) && if r == NULL then v == Nil else Tree(s, r, v)
      invariant Owns(s, At(s, r, v) + (At(s, q, b) + rest))
      invariant whole == LispEval.Or(fuel, s.env, b).After(t)
      invariant s.building == old(s.building) && SameOn(old(s.value), s.value, rest)
      invariant Untouched(old(s.vars), s.vars, t)
      decreases b
    {
      ghost var o, w, vars := LispEval.Eval(fuel, s.env, Car(b)), s.value, s.vars;
      r, q := Round(s, r, v, q, b, rest, fuel);
      Onward(old(s.value), w, s.value, rest, old(s.vars), vars, s.vars, t, o.touched);
      b, v, t := Cdr(b), o.val, t + o.touched;
      if r != NIL || q == NIL {
        Swap(At(s, r, v), At(s, q, b), rest);
        w := s.value;
        DropFirst(s, q, b, r, v, rest);
        Onward(old(s.value), w, s.value, rest, old(s.vars), s.vars, s.vars, t, {});
        return;
      }
    }
  }

  method ProgN(s: Instance, p: Ref, ghost a: SExp, ghost rest: multiset<Ref>, ghost fuel: nat)
    returns (r: Ref)
    requires Tree(s, p, a) && Owns(s, At(s, p, a) + rest)
    requires LispEval.Progn(fuel, s.env, a).Done?
    modifies s
    ensures Evaluated(s, rest, r, LispEval.Progn(fuel, old(s.env), a))
    decreases fuel, 4
  {
    hide Balanced, Rep, Cells, SameOn, Untouched, LispEval.Eval;
    ghost var whole := LispEval.Progn(fuel, s.env, a);
    ghost var b, v, t := a, Nil, {};
    var q := p;
    r := NULL;
    NullOwnsNothing(s);
    Start(s, p, a, rest);
    assert At(s, r, Nil) + (At(s, p, a) + rest) == At(s, p, a) + rest;
    while true
      invariant Tree(s, q, b) && if r == NULL then v == Nil else Tree(s, r, v)
      invariant Owns(s, At(s, r, v) + (At(s, q, b) + rest))
      invariant whole == LispEval.Progn(fuel, s.env, b).After(t)
      invariant s.building == old(s.building) && SameOn(old(s.value), s.value, rest)
      invariant Untouched(old(s.vars), s.vars, t)
      decreases b
    {
      ghost var o, w, vars := LispEval.Eval(fuel, s.env, Car(b)), s.value, s.vars;
      r, q := Round(s, r, v, q, b, rest, fuel);
      Onward(old(s.value), w, s.value, rest, old(s.vars), vars, s.vars, t, o.touched);
      b, v, t := Cdr(b), o.val, t + o.touched;
      if q == NIL {
        NilOwnsNothing(s);
        assert At(s, r, v) + (At(s, q, b) + rest) == At(s, r, v) + rest;
        return;
      }
    }
  }

  // (set name value)
  method Set(s: Instance, p: Ref, ghost a: SExp, ghost rest: multiset<Ref>, ghost fuel: nat)
    returns (r: Ref)
    requires Tree(s, p, a) && Owns(s, At(s, p, a) + rest)
    requires LispEval.Run(fuel, s.env, BSet, a).Done?
    modifies s
    ensures Evaluated(s, rest, r, LispEval.Run(fuel, old(s.env), BSet, a))
    decreases fuel, 7
  {
    hide Balanced, Rep, Cells, LispEval.Eval;
    ghost var o1 := LispEval.Eval(fuel, s.env, Car(a));
    ghost var o2 := LispEval.Eval(fuel, o1.env, Car(Cdr(a)));
    var p1, p2 := EvalTwo(s, p, a, rest, fuel);
    p2 := Store(s, p1, o1.val, p2, o2.val, rest);
    Result(s, o1.val, p2, if IsName(o1.val) then o2.val else Nil, rest);
    r := p2;
  }

  // p1 = eval(car(args)); p2 = eval(car(cdr(args))); the rest is released.
  method EvalTwo(s: Instance, p: Ref, ghost a: SExp, ghost rest: multiset<Ref>, ghost fuel: nat)
    returns (p1: Ref, p2: Ref)
    requires Tree(s, p, a) && Owns(s, At(s, p, a) + rest)
    requires LispEval.Eval(fuel, s.env, Car(a)).Done?
    requires LispEval.Eval(fuel, LispEval.Eval(fuel, s.env, Car(a)).env, Car(Cdr(a))).Done?
    modifies s
    ensures var o1 := LispEval.Eval(fuel, old(s.env), Car(a));
      var o2 := LispEval.Eval(fuel, o1.env, Car(Cdr(a)));
      && s.env == o2.env && Tree(s, p1, o1.val) && Tree(s, p2, o2.val)
      && Owns(s, At(s, p2, o2.val) + (At(s, p1, o1.val) + rest))
      && s.building == old(s.building) && SameOn(old(s.value), s.value, rest)
      && Untouched(old(s.vars), s.vars, o1.touched + o2.touched)
    decreases fuel, 5
  {
    hide Balanced, Rep, Cells, LispEval.Eval;
    ghost var o1 := LispEval.Eval(fuel, s.env, Car(a));
    var n;
    p1, n := EvalHead(s, p, a, rest, fuel);
    ghost var c1, v := At(s, p1, o1.val), s.value;
    Swap(c1, At(s, n, Cdr(a)), rest);
    p2 := EvalOnly(s, n, Cdr(a), c1 + rest, fuel);
    RepFrame(v, s.value, s.building, p1, o1.val, c1 + rest);
  }

  // check_set_object, set_object and the release of the name: the value that was
  // assigned, still owned by the variable, or nil.
  method Store(s: Instance, p1: Ref, ghost n: SExp, p2: Ref, ghost v: SExp, ghost rest: multiset<Ref>)
    returns (r: Ref)
    requires Tree(s, p1, n) && Tree(s, p2, v) && Owns(s, At(s, p2, v) + (At(s, p1, n) + rest))
    modifies s
    ensures Owns(s, rest) && SameOn(old(s.value), s.value, rest) && s.building == old(s.building)
    ensures if IsName(n)
      then s.env == old(s.env)[NameOf(n) := v] && s.vars == old(s.vars)[NameOf(n) := p2]
        && r == p2 && Tree(s, r, v)
      else s.env == old(s.env) && s.vars == old(s.vars) && r == NIL
  {
    hide Balanced, Rep, Cells;
    ghost var c1 := At(s, p1, n);
    Kind(s, p1, n, At(s, p2, v) + (c1 + rest));
    if s.IsNameObj(p1) {
      ghost var w := s.value;
      SetObject(s, s.NameAt(p1), p2, v, c1 + rest);
      RepFrame(w, s.value, s.building, p1, n, c1 + rest);
      r := p2;
    } else {
      DropFirst(s, p2, v, p1, n, rest);
      r := NIL;
    }
    DropTree(s, p1, n, rest);
    if IsName(n) {
      TakeVariable(s, s.vars, s.env, NameOf(n), rest);
    }
  }

  // incref_tree on the value that was just assigned.
  method Result(s: Instance, ghost n: SExp, r: Ref, ghost v: SExp, ghost rest: multiset<Ref>)
    requires Owns(s, rest)
    requires IsName(n) ==> NameOf(n) in s.env && s.env[NameOf(n)] == v
    requires IsName(n) ==> NameOf(n) in s.vars && r == s.vars[NameOf(n)]
    requires !IsName(n) ==> v == Nil && r == NIL
    modifies s
    ensures Tree(s, r, v) && Owns(s, At(s, r, v) + rest) && Kept(s, rest)
    ensures s.value == old(s.value)
  {
    hide Rep, Cells, VarCells, Instance.Valid;
    if IsName(n) {
      VarsTake(s.value, s.building, s.vars, s.env, NameOf(n));
    } else {
      NilOwnsNothing(s);
    }
    ShareTree(s, r, v, rest);
  }

  // (setq name value...)
  method SetQ(s: Instance, p: Ref, ghost a: SExp, ghost rest: multiset<Ref>, ghost fuel: nat)
    returns (r: Ref)
    requires Tree(s, p, a) && Owns(s, At(s, p, a) + rest)
    requires LispEval.Run(fuel, s.env, BSetq, a).Done?
    modifies s
    ensures Evaluated(s, rest, r, LispEval.Run(fuel, old(s.env), BSetq, a))
    decreases fuel, 7
  {
    hide Balanced, Rep, Cells, SameOn, Untouched, LispEval.Eval;
    Start(s, p, a, rest);
    ghost var whole := LispEval.Setq(fuel, s.env, a);
    ghost var b, t := a, {};
    var q := p;
    while true
      invariant Tree(s, q, b) && Owns(s, At(s, q, b) + rest)
      invariant whole == LispEval.Setq(fuel, s.env, b).After(t)
      invariant s.building == old(s.building) && SameOn(old(s.value), s.value, rest)
      invariant Untouched(old(s.vars), s.vars, t)
      decreases b
    {
      ghost var name, w, vars := Car(b), s.value, s.vars;
      ghost var v := LispEval.Eval(fuel, s.env, Car(Cdr(b)));
      ghost var o := Assign(v, name);
      r, q := SetRound(s, q, b, rest, fuel);
      Onward(old(s.value), w, s.value, rest, old(s.vars), vars, s.vars, t, o.touched);
      b, t := Cdr(Cdr(b)), t + o.touched;
      if q == NIL {
        NilOwnsNothing(s);
        assert At(s, q, b) + rest == rest;
        w := s.value;
        Result(s, name, r, o.val, rest);
        Onward(old(s.value), w, s.value, rest, old(s.vars), s.vars, s.vars, t, {});
        return;
      }
    }
  }

  // One round of `setq`.
  method SetRound(s: Instance, p: Ref, ghost a: SExp, ghost rest: multiset<Ref>, ghost fuel: nat)
    returns (r: Ref, n: Ref)
    requires Tree(s, p, a) && Owns(s, At(s, p, a) + rest)
    requires LispEval.Eval(fuel, s.env, Car(Cdr(a))).Done?
    modifies s
    ensures Tree(s, n, Cdr(Cdr(a))) && (n == NIL <==> Cdr(Cdr(a)) == Nil)
    ensures var v := LispEval.Eval(fuel, old(s.env), Car(Cdr(a)));
      var o := Assign(v, Car(a));
      && s.env == o.env && Owns(s, At(s, n, Cdr(Cdr(a))) + rest)
      && s.building == old(s.building) && SameOn(old(s.value), s.value, rest)
      && Untouched(old(s.vars), s.vars, o.touched)
      && (if IsName(Car(a)) then NameOf(Car(a)) in s.vars && r == s.vars[NameOf(Car(a))]
          else r == NIL)
    decreases fuel, 5
  {
    hide Balanced, Rep, Cells, LispEval.Eval;
    ghost var name, tail := Car(a), Cdr(Cdr(a));
    var p1, q := Unwrap(s, p, a, rest);
    ghost var c1, w := At(s, p1, name), s.value;
    Swap(c1, At(s, q, Cdr(a)), rest);
    ghost var v := LispEval.Eval(fuel, s.env, Car(Cdr(a)));
    r, n := EvalHead(s, q, Cdr(a), c1 + rest, fuel);
    RepFrame(w, s.value, s.building, p1, name, c1 + rest);
    ghost var c2, c3 := At(s, r, v.val), At(s, n, tail);
    Kind(s, n, tail, c2 + (c3 + (c1 + rest)));
    Swap(c3, c1, rest);
    w := s.value;
    r := Store(s, p1, name, r, v.val, c3 + rest);
    RepFrame(w, s.value, s.building, n, tail, c3 + rest);
  }

  // (unless expr else-expr...)
  method Unless(s: Instance, p: Ref, ghost a: SExp, ghost rest: multiset<Ref>, ghost fuel: nat)
    returns (r: Ref)
    requires Tree(s, p, a) && Owns(s, At(s, p, a) + rest)
    requires LispEval.Run(fuel, s.env, BUnless, a).Done?
    modifies s
    ensures Evaluated(s, rest, r, LispEval.Run(fuel, old(s.env), BUnless, a))
    decreases fuel, 7
  {
    hide Balanced, Rep, Cells, SameOn, Untouched, LispEval.Eval, LispEval.Progn;
    ghost var o, w, vars := LispEval.Eval(fuel, s.env, Car(a)), s.value, s.vars;
    Start(s, p, a, rest);
    var c, q := Condition(s, p, a, rest, fuel);
    ghost var v, m := s.value, s.vars;
    if !c {
      r := ProgN(s, q, Cdr(a), rest, fuel);
      Onward(w, v, s.value, rest, vars, m, s.vars, o.touched, LispEval.Progn(fuel, o.env, Cdr(a)).touched);
    } else {
      DropTree(s, q, Cdr(a), rest);
      NilLast(s, rest);
      r := NIL;
      Onward(w, v, s.value, rest, vars, m, s.vars, o.touched, {});
    }
  }

  // (unset name)
  method Unset(s: Instance, p: Ref, ghost a: SExp, ghost rest: multiset<Ref>, ghost fuel: nat)
    returns (r: Ref)
    requires Tree(s, p, a) && Owns(s, At(s, p, a) + rest)
    requires LispEval.Run(fuel, s.env, BUnset, a).Done?
    modifies s
    ensures Evaluated(s, rest, r, LispEval.Run(fuel, old(s.env), BUnset, a))
    decreases fuel, 7
  {
    hide Balanced, Rep, Cells, LispEval.Eval;
    ghost var o := LispEval.Eval(fuel, s.env, Car(a));
    r := EvalOnly(s, p, a, rest, fuel);
    Kind(s, r, o.val, At(s, r, o.val) + rest);
    if s.IsNameObj(r) {
      ghost var v := Lookup(s.env, NameOf(o.val));
      var q := UnsetObject(s, s.NameAt(r), At(s, r, o.val) + rest);
      DropFirst(s, q, v, r, o.val, rest);
    }
  }

  // (unsetq name...)
  method UnsetQ(s: Instance, p: Ref, ghost a: SExp, ghost rest: multiset<Ref>, ghost fuel: nat)
    returns (r: Ref)
    requires Tree(s, p, a) && Owns(s, At(s, p, a) + rest)
    requires LispEval.Run(fuel, s.env, BUnsetq, a).Done?
    modifies s
    ensures Evaluated(s, rest, r, LispEval.Run(fuel, old(s.env), BUnsetq, a))
    decreases fuel, 7
  {
    hide Balanced, Rep, Cells, SameOn, Untouched;
    Start(s, p, a, rest);
    ghost var whole := LispEval.Unsetq(s.env, a);
    ghost var b, v, t := a, Nil, {};
    var q := p;
    r := NULL;
    NullOwnsNothing(s);
    assert At(s, r, v) + (At(s, q, b) + rest) == At(s, q, b) + rest;
    while true
      invariant Tree(s, q, b) && if r == NULL then v == Nil else Tree(s, r, v)
      invariant Owns(s, At(s, r, v) + (At(s, q, b) + rest))
      invariant whole == LispEval.Unsetq(s.env, b).After(t)
      invariant s.building == old(s.building) && SameOn(old(s.value), s.value, rest)
      invariant Untouched(old(s.vars), s.vars, t)
      decreases b
    {
      ghost var o, w, vars := Unassign(s.env, Car(b)), s.value, s.vars;
      r, q := UnsetRound(s, r, v, q, b, rest);
      Onward(old(s.value), w, s.value, rest, old(s.vars), vars, s.vars, t, o.touched);
      b, v, t := Cdr(b), o.val, t + o.touched;
      if q == NIL {
        NilOwnsNothing(s);
        assert At(s, r, v) + (At(s, q, b) + rest) == At(s, r, v) + rest;
        return;
      }
    }
  }

  // One round of `unsetq`; the value removed in the previous round is dropped.
  method UnsetRound(s: Instance, r0: Ref, ghost v0: SExp, p: Ref, ghost a: SExp,
                    ghost rest: multiset<Ref>)
    returns (r: Ref, n: Ref)
    requires Tree(s, p, a) && if r0 == NULL then v0 == Nil else Tree(s, r0, v0)
    requires Owns(s, At(s, r0, v0) + (At(s, p, a) + rest))
    modifies s
    ensures Tree(s, n, Cdr(a)) && (n == NIL <==> Cdr(a) == Nil)
    ensures var o := Unassign(old(s.env), Car(a));
      && s.env == o.env && Tree(s, r, o.val) && r != NULL
      && Owns(s, At(s, r, o.val) + (At(s, n, Cdr(a)) + rest))
      && s.building == old(s.building) && SameOn(old(s.value), s.value, rest)
      && Untouched(old(s.vars), s.vars, o.touched)
  {
    hide Balanced, Rep, Cells;
    if r0 != NULL {
      DropFirst(s, r0, v0, p, a, rest);
    } else {
      NullOwnsNothing(s);
      assert At(s, r0, v0) + (At(s, p, a) + rest) == At(s, p, a) + rest;
    }
    ghost var o := Unassign(s.env, Car(a));
    var c;
    c, n := Unwrap(s, p, a, rest);
    ghost var c1, c2 := At(s, c, Car(a)), At(s, n, Cdr(a));
    Kind(s, n, Cdr(a), c1 + (c2 + rest));
    r := TakeNamed(s, c, Car(a), c1 + (c2 + rest));
    ghost var c3 := At(s, r, o.val);
    Swap(c3, c1, c2 + rest);
    ghost var w := s.value;
    DropFirst(s, c, Car(a), r, o.val, c2 + rest);
    RepFrame(w, s.value, s.building, n, Cdr(a), c2 + rest);
  }

  // unset_object: the value of the variable that the object `c` names, or nil.
  method TakeNamed(s: Instance, c: Ref, ghost name: SExp, ghost rest: multiset<Ref>) returns (r: Ref)
    requires Tree(s, c, name) && Owns(s, rest)
    modifies s`vars, s`env
    ensures var o := Unassign(old(s.env), name);
      && s.env == o.env && Tree(s, r, o.val) && Owns(s, At(s, r, o.val) + rest)
      && Untouched(old(s.vars), s.vars, o.touched) && r != NULL
  {
    hide Balanced, Rep, Cells;
    ghost var o := Unassign(s.env, name);
    Kind(s, c, name, rest);
    if s.IsNameObj(c) {
      r := UnsetObject(s, s.NameAt(c), rest);
    } else {
      r := NIL;
      NilOwnsNothing(s);
      assert At(s, r, o.val) + rest == rest;
    }
    Kind(s, r, o.val, At(s, r, o.val) + rest);
  }

  // The test of `when` and `unless`: evaluated, and its value released.
  method Condition(s: Instance, p: Ref, ghost a: SExp, ghost rest: multiset<Ref>, ghost fuel: nat)
    returns (c: bool, q: Ref)
    requires Tree(s, p, a) && Owns(s, At(s, p, a) + rest)
    requires LispEval.Eval(fuel, s.env, Car(a)).Done?
    modifies s
    ensures var o := LispEval.Eval(fuel, old(s.env), Car(a));
      && s.env == o.env && Tree(s, q, Cdr(a)) && Owns(s, At(s, q, Cdr(a)) + rest) && (c <==> o.val != Nil)
      && s.building == old(s.building) && SameOn(old(s.value), s.value, rest)
      && Untouched(old(s.vars), s.vars, o.touched)
    decreases fuel, 6
  {
    hide Balanced, Rep, Cells, LispEval.Eval;
    var p1;
    p1, q := Unwrap(s, p, a, rest);
    ghost var o := LispEval.Eval(fuel, s.env, Car(a));
    p1 := EvalHolding(s, p1, Car(a), q, Cdr(a), rest, fuel);
    Kind(s, p1, o.val, At(s, p1, o.val) + (At(s, q, Cdr(a)) + rest));
    DropFirst(s, p1, o.val, q, Cdr(a), rest);
    c := p1 != NIL;
  }

  // (when expr then-expr...)
  method When(s: Instance, p: Ref, ghost a: SExp, ghost rest: multiset<Ref>, ghost fuel: nat)
    returns (r: Ref)
    requires Tree(s, p, a) && Owns(s, At(s, p, a) + rest)
    requires LispEval.Run(fuel, s.env, BWhen, a).Done?
    modifies s
    ensures Evaluated(s, rest, r, LispEval.Run(fuel, old(s.env), BWhen, a))
    decreases fuel, 7
  {
    hide Balanced, Rep, Cells, SameOn, Untouched, LispEval.Eval, LispEval.Progn;
    ghost var o, w, vars := LispEval.Eval(fuel, s.env, Car(a)), s.value, s.vars;
    Start(s, p, a, rest);
    var c, q := Condition(s, p, a, rest, fuel);
    ghost var v, m := s.value, s.vars;
    if c {
      r := ProgN(s, q, Cdr(a), rest, fuel);
      Onward(w, v, s.value, rest, vars, m, s.vars, o.touched, LispEval.Progn(fuel, o.env, Cdr(a)).touched);
    } else {
      DropTree(s, q, Cdr(a), rest);
      NilLast(s, rest);
      r := NIL;
      Onward(w, v, s.value, rest, vars, m, s.vars, o.touched, {});
    }
  }

  // The test was nil: it and the body go.
  method EndLoop(s: Instance, ghost p: Ref, ghost v: SExp, p1: Ref, ghost test: SExp, p2: Ref, ghost body: SExp,
                 ghost rest: multiset<Ref>)
    requires p == NIL && Tree(s, p, v) && Tree(s, p1, test) && Tree(s, p2, body)
    requires Owns(s, At(s, p, v) + (At(s, p1, test) + (At(s, p2, body) + rest)))
    modifies s
    ensures Tree(s, NIL, Nil) && Owns(s, At(s, NIL, Nil) + rest) && Kept(s, rest)
  {
    hide Balanced, Rep, Cells, SameOn;
    ghost var frame, w := At(s, p1, test) + (At(s, p2, body) + rest), s.value;
    Kind(s, p, v, At(s, p, v) + frame);
    NilLast(s, frame);
    Held(s, p1, test, p2, body, rest);
    DropFirst(s, p1, test, p2, body, rest);
    ghost var w1 := s.value;
    DropTree(s, p2, body, rest);
    Chained(w, w1, s.value, rest);
    NilLast(s, rest);
  }

  // What one round of `while` leaves to be done.
  lemma WhileRound(f: nat, env: Env, test: SExp, body: SExp, t: set<string>)
    requires LispEval.While(f, env, test, body).Done?
    ensures var c, all := LispEval.Eval(f, env, test), LispEval.While(f, env, test, body).After(t);
      && c.Done? && (c.val == Nil ==> all == c.After(t))
      && (c.val != Nil ==>
           var o := LispEval.Progn(f, c.env, body);
           f > 0 && o.Done? && LispEval.While(f - 1, o.env, test, body).Done?
           && all == LispEval.While(f - 1, o.env, test, body).After(t + c.touched + o.touched))
  {
    hide LispEval.Eval, LispEval.Progn;
    var c := LispEval.Eval(f, env, test);
    if c.val != Nil {
      var o := LispEval.Progn(f, c.env, body);
      var r := LispEval.While(f - 1, o.env, test, body);
      assert t + (c.touched + o.touched + r.touched) == t + c.touched + o.touched + r.touched;
    }
  }

  // (while expr exprs...)
  method While(s: Instance, p: Ref, ghost a: SExp, ghost rest: multiset<Ref>, ghost fuel: nat)
    returns (r: Ref)
    requires Tree(s, p, a) && Owns(s, At(s, p, a) + rest)
    requires LispEval.Run(fuel, s.env, BWhile, a).Done?
    modifies s
    ensures Evaluated(s, rest, r, LispEval.Run(fuel, old(s.env), BWhile, a))
    decreases fuel, 7
  {
    hide Balanced, Rep, Cells, SameOn, Untouched, LispEval.Eval, LispEval.Progn, LispEval.While;
    Start(s, p, a, rest);
    ghost var test, body, whole := Car(a), Cdr(a), LispEval.While(fuel, s.env, Car(a), Cdr(a));
    ghost var w := s.value;
    var p1, p2 := Unwrap(s, p, a, rest);
    Onward(old(s.value), w, s.value, rest, old(s.vars), s.vars, s.vars, {}, {});
    ghost var f: nat, t := fuel, {};
    while true
      invariant Tree(s, p1, test) && Tree(s, p2, body) && f <= fuel
      invariant Owns(s, At(s, p1, test) + (At(s, p2, body) + rest))
      invariant LispEval.While(f, s.env, test, body).Done?
      invariant whole == LispEval.While(f, s.env, test, body).After(t)
      invariant s.building == old(s.building) && SameOn(old(s.value), s.value, rest)
      invariant Untouched(old(s.vars), s.vars, t)
      decreases f
    {
      ghost var c, vars := LispEval.Eval(f, s.env, test), s.vars;
      WhileRound(f, s.env, test, body, t);
      w := s.value;
      var p3 := EvalShared(s, p1, test, p2, body, rest, f);
      Onward(old(s.value), w, s.value, rest, old(s.vars), vars, s.vars, t, c.touched);
      t := t + c.touched;
      if p3 == NIL {
        w := s.value;
        EndLoop(s, p3, c.val, p1, test, p2, body, rest);
        Onward(old(s.value), w, s.value, rest, old(s.vars), s.vars, s.vars, t, {});
        return NIL;
      }
      ghost var o := LispEval.Progn(f, s.env, body);
      w, vars := s.value, s.vars;
      RunShared(s, p3, c.val, p1, test, p2, body, rest, f);
      Onward(old(s.value), w, s.value, rest, old(s.vars), vars, s.vars, t, o.touched);
      t, f := t + o.touched, f - 1;
    }
  }

  // incref_tree(p1); eval(p1)
  method EvalShared(s: Instance, p1: Ref, ghost test: SExp, ghost p2: Ref, ghost body: SExp,
                    ghost rest: multiset<Ref>, ghost fuel: nat)
    returns (r: Ref)
    requires Tree(s, p1, test) && Tree(s, p2, body)
    requires Owns(s, At(s, p1, test) + (At(s, p2, body) + rest))
    requires LispEval.Eval(fuel, s.env, test).Done?
    modifies s
    ensures Tree(s, p1, test) && Tree(s, p2, body)
    ensures var o := LispEval.Eval(fuel, old(s.env), test);
      && s.env == o.env && Tree(s, r, o.val) && (r == NIL <==> o.val == Nil)
      && Owns(s, At(s, r, o.val) + (At(s, p1, test) + (At(s, p2, body) + rest)))
      && s.building == old(s.building) && SameOn(old(s.value), s.value, rest)
      && Untouched(old(s.vars), s.vars, o.touched)
    decreases fuel, 5
  {
    hide Balanced, Rep, Cells, LispEval.Eval;
    ghost var frame, o := At(s, p1, test) + (At(s, p2, body) + rest), LispEval.Eval(fuel, s.env, test);
    ShareTree(s, p1, test, frame);
    r := EvalHolding2(s, p1, test, p1, test, p2, body, rest, fuel);
    Kind(s, r, o.val, At(s, r, o.val) + frame);
  }

  // delete_tree(p3); incref_tree(p2); delete_tree(F_progn(p2))
  method RunShared(s: Instance, p3: Ref, ghost c: SExp, ghost p1: Ref, ghost test: SExp, p2: Ref,
                   ghost body: SExp, ghost rest: multiset<Ref>, ghost fuel: nat)
    requires Tree(s, p3, c) && Tree(s, p1, test) && Tree(s, p2, body)
    requires Owns(s, At(s, p3, c) + (At(s, p1, test) + (At(s, p2, body) + rest)))
    requires LispEval.Progn(fuel, s.env, body).Done?
    modifies s
    ensures Tree(s, p1, test) && Tree(s, p2, body)
    ensures var o := LispEval.Progn(fuel, old(s.env), body);
      && s.env == o.env && Owns(s, At(s, p1, test) + (At(s, p2, body) + rest))
      && s.building == old(s.building) && SameOn(old(s.value), s.value, rest)
      && Untouched(old(s.vars), s.vars, o.touched)
    decreases fuel, 5
  {
    hide Balanced, Rep, Cells, LispEval.Progn;
    ghost var frame, o := At(s, p1, test) + (At(s, p2, body) + rest), LispEval.Progn(fuel, s.env, body);
    ghost var v := s.value;
    DropTree(s, p3, c, frame);
    RepFrame(v, s.value, s.building, p1, test, frame);
    RepFrame(v, s.value, s.building, p2, body, frame);
    ShareTree(s, p2, body, frame);
    v := s.value;
    var r := ProgN(s, p2, body, frame, fuel);
    RepFrame(v, s.value, s.building, p1, test, frame);
    RepFrame(v, s.value, s.building, p2, body, frame);
    v := s.value;
    DropTree(s, r, o.val, frame);
    RepFrame(v, s.value, s.building, p1, test, frame);
    RepFrame(v, s.value, s.building, p2, body, frame);
  }

  // r = eval(car(p)); n = cdr(p); delete_object(p): how the builtins that loop over
  // their arguments take the first one.
  method EvalHead(s: Instance, p: Ref, ghost a: SExp, ghost rest: multiset<Ref>, ghost fuel: nat)
    returns (r: Ref, n: Ref)
    requires Tree(s, p, a) && Owns(s, At(s, p, a) + rest)
    requires LispEval.Eval(fuel, s.env, Car(a)).Done?
    modifies s
    ensures Tree(s, n, Cdr(a))
    ensures var o := LispEval.Eval(fuel, old(s.env), Car(a));
      && s.env == o.env && Tree(s, r, o.val)
      && Owns(s, At(s, r, o.val) + (At(s, n, Cdr(a)) + rest))
      && s.building == old(s.building) && SameOn(old(s.value), s.value, rest)
      && Untouched(old(s.vars), s.vars, o.touched)
    decreases fuel, 2
  {
    hide Balanced, Rep, Cells, LispEval.Eval;
    Open(s, p, a, rest);
    n := s.CdrOf(p);
    ghost var v0, d := s.value, At(s, n, Cdr(a));
    assert At(s, p, a) + rest == At(s, s.CarOf(p), Car(a)) + (One(p) + (d + rest));
    ghost var o := LispEval.Eval(fuel, s.env, Car(a));
    r := Eval(s, s.CarOf(p), Car(a), One(p) + (d + rest), fuel);
    RepFrame(v0, s.value, s.building, n, Cdr(a), One(p) + (d + rest));
    ghost var v1, c := s.value, At(s, r, o.val);
    Swap(c, One(p), d + rest);
    DropObject(s, p, c + (d + rest));
    RepFrame(v1, s.value, s.building, n, Cdr(a), c + (d + rest));
    RepFrame(v1, s.value, s.building, r, o.val, c + (d + rest));
  }

  // One round of a builtin that loops over its arguments and keeps the last value:
  // the previous value `r0`, if there is one, is dropped.
  method Round(s: Instance, r0: Ref, ghost v0: SExp, p: Ref, ghost a: SExp,
               ghost rest: multiset<Ref>, ghost fuel: nat)
    returns (r: Ref, n: Ref)
    requires Tree(s, p, a) && if r0 == NULL then v0 == Nil else Tree(s, r0, v0)
    requires Owns(s, At(s, r0, v0) + (At(s, p, a) + rest))
    requires LispEval.Eval(fuel, s.env, Car(a)).Done?
    modifies s
    ensures Tree(s, n, Cdr(a)) && (n == NIL <==> Cdr(a) == Nil)
    ensures var o := LispEval.Eval(fuel, old(s.env), Car(a));
      && s.env == o.env && Tree(s, r, o.val) && r != NULL && (r == NIL <==> o.val == Nil)
      && Owns(s, At(s, r, o.val) + (At(s, n, Cdr(a)) + rest))
      && s.building == old(s.building) && SameOn(old(s.value), s.value, rest)
      && Untouched(old(s.vars), s.vars, o.touched)
    decreases fuel, 3
  {
    hide Balanced, Rep, Cells, LispEval.Eval;
    if r0 != NULL {
      DropFirst(s, r0, v0, p, a, rest);
    } else {
      NullOwnsNothing(s);
      assert At(s, r0, v0) + (At(s, p, a) + rest) == At(s, p, a) + rest;
    }
    ghost var o := LispEval.Eval(fuel, s.env, Car(a));
    r, n := EvalHead(s, p, a, rest, fuel);
    ghost var all := At(s, r, o.val) + (At(s, n, Cdr(a)) + rest);
    Kind(s, n, Cdr(a), all);
    Kind(s, r, o.val, all);
  }

  method EvalFunc(s: Instance, ghost name: string, p: Ref, p3: Ref, ghost args: SExp,
                  ghost rest: multiset<Ref>, ghost fuel: nat)
    returns (r: Ref)
    requires name in s.vars && s.vars[name] == p && name in s.env
    requires Tree(s, p3, args) && Owns(s, At(s, p3, args) + rest)
    requires Call(fuel, s.env, name, s.env[name], args).Done?
    modifies s
    ensures Evaluated(s, rest, r, Call(fuel, old(s.env), name, old(s.env)[name], args))
    decreases fuel, 9
  {
    hide Balanced, Rep, Cells, CallBody, EvalEach;
    ghost var f, all := s.env[name], At(s, p3, args) + rest;
    VariableOwned(s, name, all);
    Parts(s, p, f, all);
    var p1 := s.CarOf(p);
    Kind(s, p1, Car(f), all);
    if s.IsId(p1) && s.NameAt(p1) == "lambda" {
      Parts(s, s.CdrOf(p), Cdr(f), all);
      var p2 := s.CarOf(s.CdrOf(p));
      var i := CountList(s, p2, Car(Cdr(f)), all);
      var j := CountList(s, p3, args, all);
      if i == j {
        r := CallLambda(s, name, p, f, p3, args, rest, fuel);
        return;
      }
    }
    DropTree(s, p3, args, rest);
    NilLast(s, rest);
    r := NIL;
  }

  // The call proper: evaluate the arguments, bind the parameters, run the body,
  // put the old values back. The function `f` at `p` belongs to its variable.
  method CallLambda(s: Instance, ghost name: string, p: Ref, ghost f: SExp, p3: Ref,
                    ghost args: SExp, ghost rest: multiset<Ref>, ghost fuel: nat)
    returns (r: Ref)
    requires name in s.vars && s.vars[name] == p && name in s.env && s.env[name] == f
    requires Tree(s, p3, args) && Owns(s, At(s, p3, args) + rest) && Car(f) == Id("lambda")
    requires Count(Car(Cdr(f))) == Count(args)
    requires Call(fuel, s.env, name, f, args).Done?
    modifies s
    ensures Evaluated(s, rest, r, Call(fuel, old(s.env), name, f, args))
    decreases fuel, 8
  {
    hide Balanced, Rep, Cells, SeqRep, SeqCells, SameOn, Untouched, EvalEach, LispEval.Progn, Bind;
    ghost var names := Names(Car(Cdr(f)));
    ghost var a := EvalEach(fuel, s.env, args);
    assert name !in a.touched;
    var objs := EvalArgs(s, p3, args, rest, fuel);
    ghost var v, vars := s.value, s.vars;
    StillBound(old(s.vars), s.vars, old(s.env), s.env, name, a.touched);
    r := CallBound(s, name, p, f, objs, a, rest, fuel);
    ghost var t := LispEval.Progn(fuel, Bind(a.env, names, Elements(a.val)), Cdr(Cdr(f))).touched;
    Onward(old(s.value), v, s.value, rest, old(s.vars), vars, s.vars, a.touched, t - ToSet(names));
  }

  lemma StillBound(vars: map<string, Ref>, vars': map<string, Ref>, env: Env, env': Env,
                   n: string, touched: set<string>)
    requires Untouched(vars, vars', touched) && AgreeOutside(env, env', touched) && n !in touched
    ensures n in vars ==> n in vars' && vars'[n] == vars[n]
    ensures n in env ==> n in env' && env'[n] == env[n]
  {
  }

  // The call once the arguments are in `objs`, with `a` the outcome so far.
  method CallBound(s: Instance, ghost name: string, p: Ref, ghost f: SExp, objs: seq<Ref>,
                   ghost a: Outcome, ghost rest: multiset<Ref>, ghost fuel: nat)
    returns (r: Ref)
    requires name in s.vars && s.vars[name] == p && name in s.env && s.env[name] == f
    requires a.Done? && s.env == a.env && IsParameterList(Car(Cdr(f)))
    requires NULL !in objs && |objs| == Count(a.val) == Count(Car(Cdr(f)))
    requires SeqRep(s.value, s.building, objs, Elements(a.val))
    requires Owns(s, SeqCells(s.value, objs, Elements(a.val)) + rest)
    requires CallBody(fuel, a, Names(Car(Cdr(f))), Elements(a.val), Cdr(Cdr(f))).Done?
    modifies s
    ensures var names, vals := Names(Car(Cdr(f))), Elements(a.val);
      var o := CallBody(fuel, a, names, vals, Cdr(Cdr(f)));
      && s.env == o.env && Tree(s, r, o.val) && Owns(s, At(s, r, o.val) + rest)
      && s.building == old(s.building) && SameOn(old(s.value), s.value, rest)
      && Untouched(old(s.vars), s.vars,
           LispEval.Progn(fuel, Bind(a.env, names, vals), Cdr(Cdr(f))).touched - ToSet(names))
    decreases fuel, 7
  {
    hide Balanced, Rep, Cells, SeqRep, SeqCells, SameOn, Untouched, Bind, Restore, LispEval.Progn,
      CanRestore;
    ghost var params, body := Car(Cdr(f)), Cdr(Cdr(f));
    ghost var names, vals := Names(params), Elements(a.val);
    ghost var lookups, all := Lookups(s.env, names), SeqCells(s.value, objs, vals) + rest;
    VariableOwned(s, name, all);
    Parts(s, p, f, all);
    var q := s.CdrOf(p);
    Parts(s, q, Cdr(f), all);
    var saved := BindParams(s, s.CarOf(q), params, objs, vals, rest);
    StillOwned(s, name, p, f, q, names, vals, saved, a.env, old(s.vars), rest);
    ghost var vars2, b := s.vars, LispEval.Progn(fuel, s.env, body);
    var p2;
    r, p2 := RunBody(s, q, Cdr(f), saved, lookups, rest, fuel);
    ghost var v3, vars3, c := s.value, s.vars, At(s, r, b.val);
    RestoreParams(s, p2, params, saved, a.env, old(s.vars), c + rest);
    RepFrame(v3, s.value, s.building, r, b.val, c + rest);
    Narrow(v3, s.value, c + rest, rest);
    Onward(old(s.value), v3, s.value, rest, map[], map[], map[], {}, {});
    PutBack(old(s.vars), vars2, vars3, s.vars, ToSet(names), b.touched);
  }

  lemma PutBack(m1: map<string, Ref>, m2: map<string, Ref>, m3: map<string, Ref>,
                m4: map<string, Ref>, names: set<string>, touched: set<string>)
    requires Untouched(m1, m2, names) && Untouched(m2, m3, touched) && Untouched(m3, m4, names)
    requires forall n :: n in names ==> (n in m4 <==> n in m1) && (n in m1 ==> m4[n] == m1[n])
    ensures Untouched(m1, m4, touched - names)
  {
  }

  // The function's tree is still owned after the parameters were bound: by its
  // variable, or by the saved value if a parameter has the same name.
  lemma StillOwned(s: Instance, name: string, p: Ref, f: SExp, q: Ref, names: seq<string>,
                   vals: seq<SExp>, saved: seq<Ref>, env: Env, vars: map<string, Ref>,
                   rest: multiset<Ref>)
    requires Tree(s, p, f) && q == s.CdrOf(p) && |names| == |vals| == |saved|
    requires name in vars && vars[name] == p && name in env && env[name] == f
    requires s.env == Bind(env, names, vals) && IsSaved(vars, names, saved)
    requires Untouched(vars, s.vars, ToSet(names))
    requires Owns(s, SeqCells(s.value, saved, Lookups(env, names)) + rest)
    ensures At(s, q, Cdr(f)) <= VarCells(s.value, s.vars, s.env)
                              + (SeqCells(s.value, saved, Lookups(env, names)) + rest)
  {
    hide Balanced, Rep, Cells, VarCells;
    var sv := SeqCells(s.value, saved, Lookups(env, names));
    Borrowed(s, name, p, f, names, vals, saved, env, rest);
    Parts(s, p, f, sv + rest);
  }

  lemma Narrow(v: Store, w: Store, more: multiset<Ref>, less: multiset<Ref>)
    requires SameOn(v, w, more) && less <= more
    ensures SameOn(v, w, less)
  {
  }

  // What `names` are bound to, nil for the ones that are not.
  ghost function Lookups(env: Env, names: seq<string>): seq<SExp> {
    seq(|names|, i requires 0 <= i < |names| => Lookup(env, names[i]))
  }

  ghost predicate IsSaved(vars: map<string, Ref>, names: seq<string>, saved: seq<Ref>) {
    |saved| == |names| && forall i :: 0 <= i < |names| ==>
      if names[i] in vars then saved[i] == vars[names[i]] && saved[i] != NULL else saved[i] == NULL
  }

  method EvalArgs(s: Instance, p: Ref, ghost a: SExp, ghost rest: multiset<Ref>, ghost fuel: nat)
    returns (objs: seq<Ref>)
    requires Tree(s, p, a) && Owns(s, At(s, p, a) + rest) && IsProperList(a)
    requires EvalEach(fuel, s.env, a).Done?
    modifies s
    ensures var o := EvalEach(fuel, old(s.env), a);
      && s.env == o.env && NULL !in objs && SeqRep(s.value, s.building, objs, Elements(o.val))
      && Owns(s, SeqCells(s.value, objs, Elements(o.val)) + rest)
      && s.building == old(s.building) && SameOn(old(s.value), s.value, rest)
      && Untouched(old(s.vars), s.vars, o.touched) && |objs| == Count(o.val)
    decreases fuel, 4
  {
    hide Balanced, Rep, Cells, SeqRep, SeqCells, SameOn, Untouched, LispEval.Eval;
    Start(s, p, a, rest);
    ghost var whole := EvalEach(fuel, s.env, a);
    ghost var b, t := a, {};
    ghost var es: seq<SExp> := [];
    var q := p;
    objs := [];
    NoSeq(s);
    assert At(s, q, b) + (SeqCells(s.value, objs, es) + rest) == At(s, q, b) + rest;
    Kind(s, q, b, At(s, q, b) + rest);
    while q != NIL
      invariant Tree(s, q, b) && IsProperList(b) && (q == NIL <==> b == Nil)
      invariant |objs| == |es| && NULL !in objs && SeqRep(s.value, s.building, objs, es)
      invariant Owns(s, At(s, q, b) + (SeqCells(s.value, objs, es) + rest))
      invariant var o := EvalEach(fuel, s.env, b);
        o.Done? && whole == Done(o.env, ListOf(es, o.val), t + o.touched)
      invariant s.building == old(s.building) && SameOn(old(s.value), s.value, rest)
      invariant Untouched(old(s.vars), s.vars, t)
      decreases b
    {
      ghost var o, w, vars := LispEval.Eval(fuel, s.env, Car(b)), s.value, s.vars;
      var r;
      r, q := ArgRound(s, objs, es, q, b, rest, fuel);
      Onward(old(s.value), w, s.value, rest, old(s.vars), vars, s.vars, t, o.touched);
      assert (es + [o.val])[..|es|] == es;
      objs, es, b, t := objs + [r], es + [o.val], Cdr(b), t + o.touched;
    }
    ElementsOfList(es, Nil);
    NilOwnsNothing(s);
    assert es + [] == es;
    assert At(s, q, b) + (SeqCells(s.value, objs, es) + rest) == SeqCells(s.value, objs, es) + rest;
  }

  lemma NoSeq(s: Instance)
    ensures SeqRep(s.value, s.building, [], []) && SeqCells(s.value, [], []) == multiset{}
  {
  }

  lemma SeqHead(s: Instance, ps: seq<Ref>, es: seq<SExp>)
    requires |ps| == |es| > 0 && SeqRep(s.value, s.building, ps, es)
    ensures if ps[0] == NULL then es[0] == Nil else Tree(s, ps[0], es[0])
    ensures SeqRep(s.value, s.building, ps[1..], es[1..])
  {
    hide Rep;
  }

  lemma SeqRepAppend(s: Instance, ps: seq<Ref>, es: seq<SExp>, p: Ref, e: SExp)
    requires |ps| == |es| && SeqRep(s.value, s.building, ps, es)
    requires if p == NULL then e == Nil else Tree(s, p, e)
    ensures SeqRep(s.value, s.building, ps + [p], es + [e])
  {
    hide Rep;
  }

  // One round of the argument loop.
  method ArgRound(s: Instance, ghost objs: seq<Ref>, ghost es: seq<SExp>, p: Ref, ghost a: SExp,
                  ghost rest: multiset<Ref>, ghost fuel: nat)
    returns (r: Ref, n: Ref)
    requires Tree(s, p, a) && |objs| == |es| && SeqRep(s.value, s.building, objs, es)
    requires Owns(s, At(s, p, a) + (SeqCells(s.value, objs, es) + rest))
    requires LispEval.Eval(fuel, s.env, Car(a)).Done?
    modifies s
    ensures Tree(s, n, Cdr(a)) && (n == NIL <==> Cdr(a) == Nil) && r != NULL
    ensures var o := LispEval.Eval(fuel, old(s.env), Car(a));
      && s.env == o.env && SeqRep(s.value, s.building, objs + [r], es + [o.val])
      && Owns(s, At(s, n, Cdr(a)) + (SeqCells(s.value, objs + [r], es + [o.val]) + rest))
      && s.building == old(s.building) && SameOn(old(s.value), s.value, rest)
      && Untouched(old(s.vars), s.vars, o.touched)
    decreases fuel, 3
  {
    hide Balanced, Rep, Cells, SeqRep, SeqCells, SameOn, Untouched, LispEval.Eval;
    ghost var o, v := LispEval.Eval(fuel, s.env, Car(a)), s.value;
    ghost var sv := SeqCells(s.value, objs, es);
    r, n := EvalHead(s, p, a, sv + rest, fuel);
    ghost var c1, c2 := At(s, r, o.val), At(s, n, Cdr(a));
    Kind(s, n, Cdr(a), c1 + (c2 + (sv + rest)));
    Kind(s, r, o.val, c1 + (c2 + (sv + rest)));
    SeqFrame(v, s.value, s.building, objs, es, sv + rest);
    SeqAppend(s.value, objs, es, r, o.val);
    SeqRepAppend(s, objs, es, r, o.val);
    Narrow(v, s.value, sv + rest, rest);
    assert c1 + (c2 + (sv + rest)) == c2 + ((sv + c1) + rest);
  }

  // The first `i` parameters are bound to the first `i` of `vals`; what they were
  // bound to before is in `saved`.
  ghost predicate Binding(s: Instance, objs: seq<Ref>, vals: seq<SExp>, names: seq<string>,
                          saved: seq<Ref>, vars: map<string, Ref>, env: Env, rest: multiset<Ref>)
    reads s
  {
    var i := |saved|;
    && |objs| == |vals| == |names| && NULL !in objs && i <= |names| && Distinct(names)
    && SeqRep(s.value, s.building, objs[i..], vals[i..])
    && SeqRep(s.value, s.building, saved, Lookups(env, names)[..i])
    && Owns(s, SeqCells(s.value, objs[i..], vals[i..])
               + (SeqCells(s.value, saved, Lookups(env, names)[..i]) + rest))
    && Bind(s.env, names[i..], vals[i..]) == Bind(env, names, vals)
    && IsSaved(vars, names[..i], saved) && vars.Keys == env.Keys
    && Untouched(vars, s.vars, ToSet(names[..i])) && AgreeOutside(env, s.env, ToSet(names[..i]))
  }

  lemma BindingStarts(s: Instance, objs: seq<Ref>, vals: seq<SExp>, names: seq<string>,
                      rest: multiset<Ref>)
    requires |objs| == |vals| == |names| && NULL !in objs && Distinct(names)
    requires SeqRep(s.value, s.building, objs, vals) && Owns(s, SeqCells(s.value, objs, vals) + rest)
    ensures Binding(s, objs, vals, names, [], s.vars, s.env, rest)
  {
    hide Instance.Valid, VarCells, Rep, Cells, SeqCells;
    NoSeq(s);
    assert objs[0..] == objs && vals[0..] == vals && names[0..] == names;
    assert Lookups(s.env, names)[..0] == [];
    assert SeqCells(s.value, objs, vals) + (SeqCells(s.value, [], []) + rest)
        == SeqCells(s.value, objs, vals) + rest;
  }

  lemma BindingEnds(s: Instance, objs: seq<Ref>, vals: seq<SExp>, names: seq<string>,
                    saved: seq<Ref>, vars: map<string, Ref>, env: Env, rest: multiset<Ref>)
    requires Binding(s, objs, vals, names, saved, vars, env, rest) && |saved| == |names|
    ensures s.env == Bind(env, names, vals) && IsSaved(vars, names, saved)
    ensures SeqRep(s.value, s.building, saved, Lookups(env, names))
    ensures Owns(s, SeqCells(s.value, saved, Lookups(env, names)) + rest)
    ensures Untouched(vars, s.vars, ToSet(names))
  {
    hide Balanced, Rep, Cells, SeqCells;
    NoSeq(s);
    var n, lookups := |names|, Lookups(env, names);
    assert objs[n..] == [] && vals[n..] == [] && names[..n] == names && lookups[..n] == lookups;
    assert SeqCells(s.value, [], []) + (SeqCells(s.value, saved, lookups) + rest)
        == SeqCells(s.value, saved, lookups) + rest;
  }

  lemma BindingOwner(s: Instance, objs: seq<Ref>, vals: seq<SExp>, names: seq<string>,
                     saved: seq<Ref>, vars: map<string, Ref>, env: Env, rest: multiset<Ref>)
    returns (all: multiset<Ref>)
    requires Binding(s, objs, vals, names, saved, vars, env, rest)
    ensures Owns(s, all)
  {
    all := SeqCells(s.value, objs[|saved|..], vals[|saved|..])
           + (SeqCells(s.value, saved, Lookups(env, names)[..|saved|]) + rest);
  }

  // One more parameter.
  method BindNext(s: Instance, name: string, objs: seq<Ref>, ghost vals: seq<SExp>,
                  ghost names: seq<string>, saved: seq<Ref>, ghost vars: map<string, Ref>,
                  ghost env: Env, ghost rest: multiset<Ref>)
    returns (r: Ref)
    requires Binding(s, objs, vals, names, saved, vars, env, rest)
    requires |saved| < |names| && names[|saved|] == name
    modifies s`vars, s`env
    ensures Binding(s, objs, vals, names, saved + [r], vars, env, rest)
  {
    hide Balanced, Rep, Cells, SeqRep, SeqCells, Bind, Untouched, AgreeOutside, IsSaved;
    var i := |saved|;
    ghost var lookups := Lookups(env, names);
    BindingStep(vars, s.vars, env, s.env, names, vals, saved, objs[i]);
    r := BindOne(s, name, objs[i..], vals[i..], saved, lookups[..i], rest);
    assert objs[i..][1..] == objs[i+1..] && vals[i..][1..] == vals[i+1..];
    assert lookups[..i+1] == lookups[..i] + [Lookup(old(s.env), name)];
  }

  lemma BindingStep(vars: map<string, Ref>, vars': map<string, Ref>, env: Env, env': Env,
                    names: seq<string>, vals: seq<SExp>, saved: seq<Ref>, x: Ref)
    requires |saved| < |names| == |vals| && Distinct(names)
    requires IsSaved(vars, names[..|saved|], saved)
    requires Untouched(vars, vars', ToSet(names[..|saved|]))
    requires AgreeOutside(env, env', ToSet(names[..|saved|]))
    ensures var i, name := |saved|, names[|saved|];
      && (name in vars <==> name in vars') && (name in vars ==> vars[name] == vars'[name])
      && Lookup(env', name) == Lookups(env, names)[i]
      && Bind(env', names[i..], vals[i..]) == Bind(env'[name := vals[i]], names[i+1..], vals[i+1..])
      && Untouched(vars, vars'[name := x], ToSet(names[..i+1]))
      && AgreeOutside(env, env'[name := vals[i]], ToSet(names[..i+1]))
      && forall r :: (if name in vars then r == vars[name] && r != NULL else r == NULL)
           ==> IsSaved(vars, names[..i+1], saved + [r])
  {
    hide Bind;
    var i, name := |saved|, names[|saved|];
    assert names[..i+1] == names[..i] + [name] && name !in names[..i];
    assert ToSet(names[..i+1]) == ToSet(names[..i]) + {name};
    BindUnfold(env', names[i..], vals[i..]);
    assert names[i..][1..] == names[i+1..] && vals[i..][1..] == vals[i+1..];
  }

  lemma BindUnfold(env: Env, names: seq<string>, vals: seq<SExp>)
    requires |names| == |vals| > 0
    ensures Bind(env, names, vals) == Bind(env[names[0] := vals[0]], names[1..], vals[1..])
  {
  }

  method BindParams(s: Instance, p: Ref, ghost params: SExp, objs: seq<Ref>, ghost vals: seq<SExp>,
                    ghost rest: multiset<Ref>)
    returns (saved: seq<Ref>)
    requires Tree(s, p, params) && IsParameterList(params) && |objs| == |vals| == Count(params)
    requires NULL !in objs
    requires SeqRep(s.value, s.building, objs, vals)
    requires Owns(s, SeqCells(s.value, objs, vals) + rest)
    modifies s`vars, s`env
    ensures var names := Names(params);
      && s.env == Bind(old(s.env), names, vals) && IsSaved(old(s.vars), names, saved)
      && SeqRep(s.value, s.building, saved, Lookups(old(s.env), names))
      && Owns(s, SeqCells(s.value, saved, Lookups(old(s.env), names)) + rest)
      && Untouched(old(s.vars), s.vars, ToSet(names))
  {
    hide Balanced, Rep, Cells, SeqRep, SeqCells, Bind, Binding;
    ghost var names, b := Names(params), params;
    var q := p;
    saved := [];
    BindingStarts(s, objs, vals, names, rest);
    Kind(s, q, b, SeqCells(s.value, objs, vals) + rest);
    while q != NIL
      invariant Tree(s, q, b) && IsProperList(b) && AllNames(b) && (q == NIL <==> b == Nil)
      invariant |saved| <= |names| && Names(b) == names[|saved|..]
      invariant Binding(s, objs, vals, names, saved, old(s.vars), old(s.env), rest)
      decreases b
    {
      ghost var all := BindingOwner(s, objs, vals, names, saved, old(s.vars), old(s.env), rest);
      Parts(s, q, b, all);
      Kind(s, s.CarOf(q), Car(b), all);
      var r := BindNext(s, s.NameAt(s.CarOf(q)), objs, vals, names, saved, old(s.vars), old(s.env), rest);
      q, b, saved := s.CdrOf(q), Cdr(b), saved + [r];
      all := BindingOwner(s, objs, vals, names, saved, old(s.vars), old(s.env), rest);
      Kind(s, q, b, all);
    }
    BindingEnds(s, objs, vals, names, saved, old(s.vars), old(s.env), rest);
  }

  // One round of binding: the value `objs[0]` becomes the value of `name`, and what
  // `name` was bound to before is appended to the saved values.
  method BindOne(s: Instance, name: string, objs: seq<Ref>, ghost vals: seq<SExp>,
                 ghost saved: seq<Ref>, ghost lookups: seq<SExp>, ghost rest: multiset<Ref>)
    returns (r: Ref)
    requires |objs| == |vals| > 0 && |saved| == |lookups| && objs[0] != NULL
    requires SeqRep(s.value, s.building, objs, vals) && SeqRep(s.value, s.building, saved, lookups)
    requires Owns(s, SeqCells(s.value, objs, vals) + (SeqCells(s.value, saved, lookups) + rest))
    modifies s`vars, s`env
    ensures s.env == old(s.env)[name := vals[0]] && s.vars == old(s.vars)[name := objs[0]]
    ensures if name in old(s.vars) then r == old(s.vars)[name] && r != NULL else r == NULL
    ensures SeqRep(s.value, s.building, objs[1..], vals[1..])
    ensures SeqRep(s.value, s.building, saved + [r], lookups + [Lookup(old(s.env), name)])
    ensures Owns(s, SeqCells(s.value, objs[1..], vals[1..])
                    + (SeqCells(s.value, saved + [r], lookups + [Lookup(old(s.env), name)]) + rest))
  {
    hide Balanced, Rep, Cells, SeqRep;
    SeqHead(s, objs, vals);
    ghost var tail, sv := SeqCells(s.value, objs[1..], vals[1..]), SeqCells(s.value, saved, lookups);
    ghost var c := At(s, objs[0], vals[0]);
    assert SeqCells(s.value, objs, vals) + (sv + rest) == c + (tail + (sv + rest));
    ghost var e := Lookup(s.env, name);
    TakeVariable(s, s.vars, s.env, name, c + (tail + (sv + rest)));
    if name in s.vars { Kind(s, s.vars[name], e, c + (tail + (sv + rest))); }
    r := ReplaceObject(s, name, objs[0], vals[0], tail + (sv + rest));
    if r == NULL {
      SetObjectDirect(s, name, objs[0], vals[0], tail + (sv + rest));
      NullOwnsNothing(s);
    }
    SeqAppend(s.value, saved, lookups, r, e);
    SeqRepAppend(s, saved, lookups, r, e);
    assert At(s, r, e) + (tail + (sv + rest)) == tail + ((sv + At(s, r, e)) + rest);
    assert multiset{} + (tail + (sv + rest)) == tail + (sv + rest);
  }

  lemma Borrowed(s: Instance, name: string, p: Ref, f: SExp, names: seq<string>, vals: seq<SExp>,
                 saved: seq<Ref>, env: Env, rest: multiset<Ref>)
    requires Tree(s, p, f) && |names| == |vals| == |saved| && name in env && env[name] == f
    requires s.env == Bind(env, names, vals)
    requires name !in names ==> name in s.vars && s.vars[name] == p
    requires forall i :: 0 <= i < |names| && names[i] == name ==> saved[i] == p
    requires Owns(s, SeqCells(s.value, saved, Lookups(env, names)) + rest)
    ensures At(s, p, f) <= VarCells(s.value, s.vars, s.env)
                         + (SeqCells(s.value, saved, Lookups(env, names)) + rest)
  {
    hide Balanced, Rep, Cells, VarCells;
    ghost var lookups := Lookups(env, names);
    if name in names {
      var i :| 0 <= i < |names| && names[i] == name;
      SeqMember(s.value, saved, lookups, i);
    } else {
      VariableOwned(s, name, SeqCells(s.value, saved, lookups) + rest);
      BindAt(env, names, vals);
    }
  }

  // F_progn(cdr(incref_tree(q))), then q's cons is given back; `p2` is the
  // parameter list of the copy.
  method RunBody(s: Instance, q: Ref, ghost g: SExp, ghost saved: seq<Ref>, ghost lookups: seq<SExp>,
                 ghost rest: multiset<Ref>, ghost fuel: nat)
    returns (r: Ref, p2: Ref)
    requires Tree(s, q, g) && |saved| == |lookups| && SeqRep(s.value, s.building, saved, lookups)
    requires Owns(s, SeqCells(s.value, saved, lookups) + rest)
    requires At(s, q, g) <= VarCells(s.value, s.vars, s.env) + (SeqCells(s.value, saved, lookups) + rest)
    requires LispEval.Progn(fuel, s.env, Cdr(g)).Done?
    modifies s
    ensures SeqRep(s.value, s.building, saved, lookups) && Tree(s, p2, Car(g))
    ensures var o := LispEval.Progn(fuel, old(s.env), Cdr(g));
      && s.env == o.env && Tree(s, r, o.val)
      && Owns(s, At(s, p2, Car(g))
                 + (SeqCells(s.value, saved, lookups) + (At(s, r, o.val) + rest)))
      && s.building == old(s.building) && SameOn(old(s.value), s.value, rest)
      && Untouched(old(s.vars), s.vars, o.touched)
    decreases fuel, 6
  {
    hide Balanced, Rep, Cells, SeqRep, SeqCells, VarCells, SameOn, Untouched, LispEval.Progn;
    ghost var sv, o := SeqCells(s.value, saved, lookups), LispEval.Progn(fuel, s.env, Cdr(g));
    ShareTree(s, q, g, sv + rest);
    Open(s, q, g, sv + rest);
    p2 := s.CarOf(q);
    ghost var c1 := At(s, p2, Car(g));
    assert At(s, q, g) + (sv + rest) == At(s, s.CdrOf(q), Cdr(g)) + (c1 + (sv + (One(q) + rest)));
    ghost var v0 := s.value;
    r := ProgHolding(s, s.CdrOf(q), Cdr(g), p2, Car(g), saved, lookups, One(q) + rest, fuel);
    ghost var v1, c2 := s.value, At(s, r, o.val);
    ghost var frame := c1 + (sv + (c2 + rest));
    assert c2 + (c1 + (sv + (One(q) + rest))) == One(q) + frame;
    DropShell(s, q, p2, Car(g), saved, lookups, r, o.val, rest);
    Narrow(v0, v1, One(q) + rest, rest);
    Onward(old(s.value), v1, s.value, rest, old(s.vars), s.vars, s.vars, o.touched, {});
  }

  // F_progn while holding the parameter list and the saved values.
  method ProgHolding(s: Instance, p: Ref, ghost e: SExp, ghost q: Ref, ghost f: SExp,
                     ghost ps: seq<Ref>, ghost es: seq<SExp>, ghost rest: multiset<Ref>,
                     ghost fuel: nat)
    returns (r: Ref)
    requires Tree(s, p, e) && Tree(s, q, f) && |ps| == |es| && SeqRep(s.value, s.building, ps, es)
    requires Owns(s, At(s, p, e) + (At(s, q, f) + (SeqCells(s.value, ps, es) + rest)))
    requires LispEval.Progn(fuel, s.env, e).Done?
    modifies s
    ensures Tree(s, q, f) && At(s, q, f) == old(At(s, q, f))
    ensures SeqRep(s.value, s.building, ps, es)
    ensures SeqCells(s.value, ps, es) == old(SeqCells(s.value, ps, es))
    ensures var o := LispEval.Progn(fuel, old(s.env), e);
      && s.env == o.env && Tree(s, r, o.val)
      && Owns(s, At(s, r, o.val) + (At(s, q, f) + (SeqCells(s.value, ps, es) + rest)))
      && s.building == old(s.building) && SameOn(old(s.value), s.value, rest)
      && Untouched(old(s.vars), s.vars, o.touched)
    decreases fuel, 5
  {
    hide Balanced, Rep, Cells, SeqRep, SeqCells, SameOn, Untouched, LispEval.Progn;
    ghost var v, frame := s.value, At(s, q, f) + (SeqCells(s.value, ps, es) + rest);
    r := ProgN(s, p, e, frame, fuel);
    RepFrame(v, s.value, s.building, q, f, frame);
    SeqFrame(v, s.value, s.building, ps, es, frame);
    Narrow(v, s.value, frame, rest);
  }

  // delete_object while holding two trees and the saved values.
  method DropShell(s: Instance, p: Ref, ghost q: Ref, ghost f: SExp, ghost ps: seq<Ref>,
                   ghost es: seq<SExp>, ghost r: Ref, ghost e: SExp, ghost rest: multiset<Ref>)
    requires p !in s.building && Tree(s, q, f) && Tree(s, r, e)
    requires |ps| == |es| && SeqRep(s.value, s.building, ps, es)
    requires Owns(s, One(p) + (At(s, q, f) + (SeqCells(s.value, ps, es) + (At(s, r, e) + rest))))
    modifies s
    ensures Tree(s, q, f) && Tree(s, r, e) && SeqRep(s.value, s.building, ps, es)
    ensures Owns(s, At(s, q, f) + (SeqCells(s.value, ps, es) + (At(s, r, e) + rest)))
    ensures At(s, q, f) == old(At(s, q, f)) && At(s, r, e) == old(At(s, r, e))
    ensures SeqCells(s.value, ps, es) == old(SeqCells(s.value, ps, es))
    ensures Kept(s, rest)
  {
    hide Balanced, Rep, Cells, SeqRep, SeqCells, SameOn;
    ghost var v, frame := s.value, At(s, q, f) + (SeqCells(s.value, ps, es) + (At(s, r, e) + rest));
    DropObject(s, p, frame);
    RepFrame(v, s.value, s.building, q, f, frame);
    RepFrame(v, s.value, s.building, r, e, frame);
    SeqFrame(v, s.value, s.building, ps, es, frame);
    Narrow(v, s.value, frame, rest);
  }

  // The parameters that are not in `names[i..]` have their saved bindings back.
  ghost predicate Restoring(s: Instance, saved: seq<Ref>, names: seq<string>, i: nat, env: Env,
                            vars: map<string, Ref>, env': Env, vars': map<string, Ref>)
    reads s
  {
    && i <= |names| && Distinct(names) && IsSaved(vars, names, saved) && vars.Keys == env.Keys
    && SeqRep(s.value, s.building, saved[i..], Lookups(env, names)[i..])
    && Restore(env, s.env, names[i..]) == Restore(env, env', names)
    && CanRestore(env, s.env, names[i..])
    && Untouched(vars', s.vars, ToSet(names[..i]))
    && forall n :: n in names[..i] ==>
         (n in s.vars <==> n in vars) && (n in vars ==> s.vars[n] == vars[n])
  }

  lemma RestoringStarts(s: Instance, saved: seq<Ref>, names: seq<string>, env: Env,
                        vars: map<string, Ref>)
    requires Distinct(names) && IsSaved(vars, names, saved) && vars.Keys == env.Keys
    requires SeqRep(s.value, s.building, saved, Lookups(env, names))
    requires CanRestore(env, s.env, names)
    ensures Restoring(s, saved, names, 0, env, vars, s.env, s.vars)
    ensures saved[0..] == saved && Lookups(env, names)[0..] == Lookups(env, names)
  {
    hide SeqRep, Restore;
    assert saved[0..] == saved && Lookups(env, names)[0..] == Lookups(env, names);
    assert names[0..] == names && names[..0] == [];
  }

  // What giving one more parameter its binding back does to the bookkeeping.
  lemma RestoringStep(names: seq<string>, i: nat, saved: seq<Ref>, env: Env, vars: map<string, Ref>,
                      env': Env, vars': map<string, Ref>, env1: Env, vars1: map<string, Ref>,
                      env2: Env, vars2: map<string, Ref>)
    requires i < |names| && Distinct(names) && IsSaved(vars, names, saved) && vars.Keys == env.Keys
    requires CanRestore(env, env1, names[i..]) && Untouched(vars', vars1, ToSet(names[..i]))
    requires Restore(env, env1, names[i..]) == Restore(env, env', names)
    requires forall n :: n in names[..i] ==>
      (n in vars1 <==> n in vars) && (n in vars ==> vars1[n] == vars[n])
    requires if saved[i] == NULL
      then env2 == env1 - {names[i]} && vars2 == vars1 - {names[i]}
      else env2 == env1[names[i] := Lookup(env, names[i])] && vars2 == vars1[names[i] := saved[i]]
    ensures CanRestore(env, env2, names[i+1..]) && Untouched(vars', vars2, ToSet(names[..i+1]))
    ensures Restore(env, env2, names[i+1..]) == Restore(env, env', names)
    ensures forall n :: n in names[..i+1] ==>
      (n in vars2 <==> n in vars) && (n in vars ==> vars2[n] == vars[n])
  {
    hide Restore, CanRestore, Untouched;
    var name := names[i];
    assert name in vars <==> saved[i] != NULL;
    RestoringEnv(name, names[i..], env, env1, env2);
    assert names[i..][1..] == names[i+1..];
    assert names[..i+1] == names[..i] + [name] && ToSet(names[..i+1]) == ToSet(names[..i]) + {name};
    OneChanged(vars1, name, saved[i]);
    SameElsewhere(vars', vars1, vars2, ToSet(names[..i]), name);
  }

  lemma RestoringEnv(name: string, names: seq<string>, env: Env, env1: Env, env2: Env)
    requires names != [] && names[0] == name && Distinct(names) && CanRestore(env, env1, names)
    requires env2 == if name in env then env1[name := env[name]] else env1 - {name}
    ensures CanRestore(env, env2, names[1..])
    ensures Restore(env, env2, names[1..]) == Restore(env, env1, names)
  {
    assert name !in names[1..];
    assert forall n :: n in names[1..] ==> n in names;
  }

  lemma OneChanged(m: map<string, Ref>, name: string, x: Ref)
    ensures Untouched(m, m - {name}, {name}) && Untouched(m, m[name := x], {name})
  {
  }

  lemma SameElsewhere(m: map<string, Ref>, m1: map<string, Ref>, m2: map<string, Ref>,
                      touched: set<string>, name: string)
    requires Untouched(m, m1, touched) && Untouched(m1, m2, {name})
    ensures Untouched(m, m2, touched + {name})
  {
  }

  method RestoreParams(s: Instance, p: Ref, ghost params: SExp, saved: seq<Ref>, ghost env: Env,
                       ghost vars: map<string, Ref>, ghost rest: multiset<Ref>)
    requires Tree(s, p, params) && IsParameterList(params) && vars.Keys == env.Keys
    requires IsSaved(vars, Names(params), saved) && CanRestore(env, s.env, Names(params))
    requires SeqRep(s.value, s.building, saved, Lookups(env, Names(params)))
    requires Owns(s, At(s, p, params)
                     + (SeqCells(s.value, saved, Lookups(env, Names(params))) + rest))
    modifies s
    ensures Owns(s, rest) && s.env == Restore(env, old(s.env), Names(params))
    ensures s.building == old(s.building) && SameOn(old(s.value), s.value, rest)
    ensures Untouched(old(s.vars), s.vars, ToSet(Names(params)))
    ensures forall n :: n in Names(params) ==>
      (n in s.vars <==> n in vars) && (n in vars ==> s.vars[n] == vars[n])
  {
    hide Balanced, Rep, Cells, SeqRep, SeqCells, SameOn, Restoring;
    ghost var names, lookups, b := Names(params), Lookups(env, Names(params)), params;
    ghost var all := At(s, p, params) + (SeqCells(s.value, saved, lookups) + rest);
    var q, i := p, 0;
    OwnedExist(s, s.vars, s.env, all);
    Narrow(s.value, s.value, VarCells(s.value, s.vars, s.env) + all, rest);
    RestoringStarts(s, saved, names, env, vars);
    Kind(s, q, b, all);
    while q != NIL
      invariant Tree(s, q, b) && IsProperList(b) && AllNames(b) && (q == NIL <==> b == Nil)
      invariant 0 <= i <= |names| == |saved| && Names(b) == names[i..]
      invariant Owns(s, At(s, q, b) + (SeqCells(s.value, saved[i..], lookups[i..]) + rest))
      invariant Restoring(s, saved, names, i, env, vars, old(s.env), old(s.vars))
      invariant s.building == old(s.building) && SameOn(old(s.value), s.value, rest)
      decreases b
    {
      ghost var w := s.value;
      q := RestoreNext(s, q, b, saved, names, i, env, vars, old(s.env), old(s.vars), rest);
      Onward(old(s.value), w, s.value, rest, map[], map[], map[], {}, {});
      b, i := Cdr(b), i + 1;
    }
    NoSeq(s);
    NilOwnsNothing(s);
    assert saved[i..] == [] && lookups[i..] == [] && names[i..] == [] && names[..i] == names;
    assert At(s, q, b) + (SeqCells(s.value, saved[i..], lookups[i..]) + rest) == rest;
    RestoringEnds(s, saved, names, env, vars, old(s.env), old(s.vars));
  }

  lemma RestoringEnds(s: Instance, saved: seq<Ref>, names: seq<string>, env: Env,
                      vars: map<string, Ref>, env': Env, vars': map<string, Ref>)
    requires Restoring(s, saved, names, |names|, env, vars, env', vars')
    ensures s.env == Restore(env, env', names) && Untouched(vars', s.vars, ToSet(names))
    ensures forall n :: n in names ==>
      (n in s.vars <==> n in vars) && (n in vars ==> s.vars[n] == vars[n])
  {
    hide SeqRep;
    assert names[|names|..] == [] && names[..|names|] == names;
  }

  // One more parameter.
  method RestoreNext(s: Instance, p: Ref, ghost b: SExp, saved: seq<Ref>, ghost names: seq<string>,
                     i: nat, ghost env: Env, ghost vars: map<string, Ref>, ghost env': Env,
                     ghost vars': map<string, Ref>, ghost rest: multiset<Ref>)
    returns (n: Ref)
    requires Restoring(s, saved, names, i, env, vars, env', vars') && i < |names| == |saved|
    requires Tree(s, p, b) && IsName(Car(b)) && NameOf(Car(b)) == names[i]
    requires Owns(s, At(s, p, b) + (SeqCells(s.value, saved[i..], Lookups(env, names)[i..]) + rest))
    modifies s
    ensures Restoring(s, saved, names, i + 1, env, vars, env', vars')
    ensures Tree(s, n, Cdr(b)) && (n == NIL <==> Cdr(b) == Nil)
    ensures Owns(s, At(s, n, Cdr(b))
                    + (SeqCells(s.value, saved[i+1..], Lookups(env, names)[i+1..]) + rest))
    ensures s.building == old(s.building) && SameOn(old(s.value), s.value, rest)
  {
    hide Balanced, Rep, Cells, SeqRep, SeqCells, SameOn, Restore, Untouched, CanRestore, IsSaved;
    ghost var lookups, env1, vars1 := Lookups(env, names), s.env, s.vars;
    Bound(env, env1, vars, names, saved, i);
    n := RestoreOne(s, p, b, saved[i..], lookups[i..], names[i], rest);
    assert saved[i..][1..] == saved[i+1..] && lookups[i..][1..] == lookups[i+1..];
    RestoringStep(names, i, saved, env, vars, env', vars', env1, vars1, s.env, s.vars);
  }

  lemma Bound(env: Env, env1: Env, vars: map<string, Ref>, names: seq<string>, saved: seq<Ref>, i: nat)
    requires i < |names| && CanRestore(env, env1, names[i..]) && IsSaved(vars, names, saved)
    requires vars.Keys == env.Keys
    ensures |saved| == |names| && (saved[i] != NULL ==> names[i] in env1)
  {
    assert names[i] in names[i..];
  }

  // One round of restoring: the parameter gets its saved binding back, and its
  // value, its name and its list cell are given up.
  method RestoreOne(s: Instance, p: Ref, ghost b: SExp, saved: seq<Ref>, ghost lookups: seq<SExp>,
                    ghost name: string, ghost rest: multiset<Ref>)
    returns (n: Ref)
    requires Tree(s, p, b) && IsName(Car(b)) && NameOf(Car(b)) == name
    requires |saved| == |lookups| > 0 && SeqRep(s.value, s.building, saved, lookups)
    requires Owns(s, At(s, p, b) + (SeqCells(s.value, saved, lookups) + rest))
    requires saved[0] != NULL ==> name in s.env
    modifies s
    ensures Tree(s, n, Cdr(b)) && (n == NIL <==> Cdr(b) == Nil)
    ensures SeqRep(s.value, s.building, saved[1..], lookups[1..])
    ensures Owns(s, At(s, n, Cdr(b)) + (SeqCells(s.value, saved[1..], lookups[1..]) + rest))
    ensures if saved[0] == NULL
      then s.env == old(s.env) - {name} && s.vars == old(s.vars) - {name}
      else s.env == old(s.env)[name := lookups[0]] && s.vars == old(s.vars)[name := saved[0]]
    ensures s.building == old(s.building) && SameOn(old(s.value), s.value, rest)
  {
    hide Balanced, Rep, Cells, SeqRep, SeqCells, SameOn;
    ghost var sv, v := SeqCells(s.value, saved, lookups), s.value;
    var c;
    c, n := Unwrap(s, p, b, sv + rest);
    ghost var c1, c2 := At(s, c, Car(b)), At(s, n, Cdr(b));
    SeqFrame(v, s.value, s.building, saved, lookups, sv + rest);
    Narrow(v, s.value, sv + rest, rest);
    ghost var w := s.value;
    Kind(s, c, Car(b), c1 + (c2 + (sv + rest)));
    Kind(s, n, Cdr(b), c1 + (c2 + (sv + rest)));
    Swap(c2, sv, rest);
    Swap(c1, sv, c2 + rest);
    ghost var e := Lookup(s.env, name);
    var x := PutSaved(s, s.NameAt(c), saved, lookups, c1 + (c2 + rest));
    ghost var tail, c3 := SeqCells(s.value, saved[1..], lookups[1..]), At(s, x, e);
    Swap(tail, c1, c2 + rest);
    Swap(tail, c2, rest);
    DropBinding(s, x, e, c, Car(b), n, Cdr(b), saved[1..], lookups[1..], rest);
    Onward(v, w, s.value, rest, map[], map[], map[], {}, {});
  }

  // replace_object or unset_object: the parameter's value comes back to the caller.
  method PutSaved(s: Instance, name: string, saved: seq<Ref>, ghost lookups: seq<SExp>,
                  ghost rest: multiset<Ref>)
    returns (x: Ref)
    requires |saved| == |lookups| > 0 && SeqRep(s.value, s.building, saved, lookups)
    requires Owns(s, SeqCells(s.value, saved, lookups) + rest)
    requires saved[0] != NULL ==> name in s.env
    modifies s`vars, s`env
    ensures if saved[0] == NULL
      then s.env == old(s.env) - {name} && s.vars == old(s.vars) - {name}
      else s.env == old(s.env)[name := lookups[0]] && s.vars == old(s.vars)[name := saved[0]]
    ensures Tree(s, x, Lookup(old(s.env), name)) && SeqRep(s.value, s.building, saved[1..], lookups[1..])
    ensures Owns(s, At(s, x, Lookup(old(s.env), name))
                    + (SeqCells(s.value, saved[1..], lookups[1..]) + rest))
  {
    hide Balanced, Rep, Cells, SeqRep;
    SeqHead(s, saved, lookups);
    ghost var sv, tail := SeqCells(s.value, saved, lookups), SeqCells(s.value, saved[1..], lookups[1..]);
    if saved[0] == NULL {
      NullOwnsNothing(s);
      assert sv + rest == tail + rest;
      x := UnsetObject(s, name, tail + rest);
    } else {
      assert sv + rest == At(s, saved[0], lookups[0]) + (tail + rest);
      TakeVariable(s, s.vars, s.env, name, sv + rest);
      x := ReplaceObject(s, name, saved[0], lookups[0], tail + rest);
    }
  }

  // delete_tree on the parameter's value and on its name.
  method DropBinding(s: Instance, x: Ref, ghost e: SExp, c: Ref, ghost f: SExp, ghost n: Ref,
                     ghost g: SExp, ghost ps: seq<Ref>, ghost es: seq<SExp>, ghost rest: multiset<Ref>)
    requires Tree(s, x, e) && Tree(s, c, f) && Tree(s, n, g)
    requires |ps| == |es| && SeqRep(s.value, s.building, ps, es)
    requires Owns(s, At(s, x, e) + (At(s, c, f) + (At(s, n, g) + (SeqCells(s.value, ps, es) + rest))))
    modifies s
    ensures Tree(s, n, g) && SeqRep(s.value, s.building, ps, es) && Kept(s, rest)
    ensures Owns(s, At(s, n, g) + (SeqCells(s.value, ps, es) + rest))
  {
    hide Balanced, Rep, Cells, SeqRep, SeqCells, SameOn;
    ghost var sv, v := SeqCells(s.value, ps, es), s.value;
    ghost var hold := At(s, n, g) + (sv + rest);
    DropFirst(s, x, e, c, f, hold);
    RepFrame(v, s.value, s.building, n, g, hold);
    SeqFrame(v, s.value, s.building, ps, es, hold);
    Narrow(v, s.value, hold, rest);
    ghost var w := s.value;
    DropTree(s, c, f, hold);
    RepFrame(w, s.value, s.building, n, g, hold);
    SeqFrame(w, s.value, s.building, ps, es, hold);
    Narrow(w, s.value, hold, rest);
    Onward(v, w, s.value, rest, map[], map[], map[], {}, {});
  }
}
