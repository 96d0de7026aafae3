// What each builtin of src/alisp/alisp.c computes, as laws between whole programs: the
// value and the variables of a form, from those of the forms in it.

module LispLaws {
  import opened LispSyntax
  import opened LispEval

  function Form(name: string, args: SExp): SExp {
    Cons(Id(name), args)
  }

  // A proper list.
  function ListOf(xs: seq<SExp>): SExp {
    if xs == [] then Nil else Cons(xs[0], ListOf(xs[1..]))
  }

  // It goes on as `q` does, after `earlier` names were touched.
  predicate Same(r: Outcome, earlier: set<string>, q: Outcome) {
    r == if q.Done? then Done(q.env, q.val, earlier + q.touched) else q
  }

  // It ends as `o` does, but with this value.
  predicate Ends(r: Outcome, o: Outcome, val: SExp) {
    r == if o.Done? then Done(o.env, val, o.touched) else o
  }

  predicate Is(r: Outcome, env: Env, val: SExp) {
    r == Done(env, val, {})
  }

  lemma Builtin(fuel: nat, env: Env, name: string, b: Builtin, args: SExp)
    requires fuel > 0 && name != "lambda" && Intrinsic(name) == Modelled(b)
    ensures Eval(fuel, env, Form(name, args)) == Run(fuel - 1, env, b, args)
  {
    hide Run, Intrinsic;
    assert Eval(fuel, env, Form(name, args)) == Apply(fuel - 1, env, name, args);
  }

  lemma ListIs(fuel: nat, env: Env, args: SExp)
    requires fuel > 0
    ensures Eval(fuel, env, Form("list", args)) == EvalEach(fuel - 1, env, args)
  {
    Builtin(fuel, env, "list", BList, args);
  }

  lemma ProgNIs(fuel: nat, env: Env, args: SExp)
    requires fuel > 0
    ensures Eval(fuel, env, Form("progn", args)) == Progn(fuel - 1, env, args)
  {
    Builtin(fuel, env, "progn", BProgn, args);
  }

  // ---- what is no call ----

  lemma AtomLaw(fuel: nat, env: Env, e: SExp)
    requires !e.Cons?
    ensures Is(Eval(fuel, env, e), env, if !e.Id? then e else if e.s in env then env[e.s] else Nil)
  {
  }

  lemma HeadLaw(fuel: nat, env: Env, e: SExp)
    requires e.Cons? && (!e.car.Id? || e.car == Id("lambda"))
    ensures Is(Eval(fuel, env, e), env, if e.car.Id? then e else Nil)
  {
  }

  lemma QuoteLaw(fuel: nat, env: Env, x: SExp, more: SExp)
    requires fuel > 0
    ensures Is(Eval(fuel, env, Form("quote", Cons(x, more))), env, x)
  {
    Builtin(fuel, env, "quote", BQuote, Cons(x, more));
  }

  // ---- pairs ----

  lemma CarLaw(fuel: nat, env: Env, x: SExp, more: SExp)
    requires fuel > 0
    ensures var o := Eval(fuel - 1, env, x);
      Ends(Eval(fuel, env, Form("car", Cons(x, more))), o, if o.Done? && o.val.Cons? then o.val.car else Nil)
  {
    Builtin(fuel, env, "car", BCar, Cons(x, more));
  }

  lemma CdrLaw(fuel: nat, env: Env, x: SExp, more: SExp)
    requires fuel > 0
    ensures var o := Eval(fuel - 1, env, x);
      Ends(Eval(fuel, env, Form("cdr", Cons(x, more))), o, if o.Done? && o.val.Cons? then o.val.cdr else Nil)
  {
    Builtin(fuel, env, "cdr", BCdr, Cons(x, more));
  }

  lemma ConsLaw(fuel: nat, env: Env, x: SExp, y: SExp, more: SExp)
    requires fuel > 0
    ensures var r, a := Eval(fuel, env, Form("cons", Cons(x, Cons(y, more)))), Eval(fuel - 1, env, x);
      if !a.Done? then r == a
      else
        var d := Eval(fuel - 1, a.env, y);
        r == if d.Done? then Done(d.env, Cons(a.val, d.val), a.touched + d.touched) else d
  {
    Builtin(fuel, env, "cons", BCons, Cons(x, Cons(y, more)));
  }

  lemma ListLaw(fuel: nat, env: Env, x: SExp, more: SExp)
    requires fuel > 0
    ensures Is(Eval(fuel, env, Form("list", Nil)), env, Nil)
    ensures var r, a := Eval(fuel, env, Form("list", Cons(x, more))), Eval(fuel - 1, env, x);
      if !a.Done? then r == a
      else
        var d := Eval(fuel, a.env, Form("list", more));
        r == if d.Done? then Done(d.env, Cons(a.val, d.val), a.touched + d.touched) else d
  {
    ListIs(fuel, env, Nil);
    ListIs(fuel, env, Cons(x, more));
    var a := Eval(fuel - 1, env, x);
    if a.Done? { ListIs(fuel, a.env, more); }
  }

  // ---- logic ----

  lemma NotLaw(fuel: nat, env: Env, name: string, x: SExp, more: SExp)
    requires fuel > 0 && (name == "not" || name == "null")
    ensures var o := Eval(fuel - 1, env, x);
      Ends(Eval(fuel, env, Form(name, Cons(x, more))), o, if o.Done? && o.val == Nil then T else Nil)
  {
    Builtin(fuel, env, name, BNot, Cons(x, more));
  }

  lemma AndLaw(fuel: nat, env: Env, x: SExp, more: SExp)
    requires fuel > 0
    ensures var r, a := Eval(fuel, env, Form("and", Cons(x, more))), Eval(fuel - 1, env, x);
      if a.Done? && a.val != Nil && more != Nil then Same(r, a.touched, Eval(fuel, a.env, Form("and", more)))
      else r == a
  {
    Builtin(fuel, env, "and", BAnd, Cons(x, more));
    var a := Eval(fuel - 1, env, x);
    if a.Done? { Builtin(fuel, a.env, "and", BAnd, more); }
  }

  lemma OrLaw(fuel: nat, env: Env, x: SExp, more: SExp)
    requires fuel > 0
    ensures var r, a := Eval(fuel, env, Form("or", Cons(x, more))), Eval(fuel - 1, env, x);
      if a.Done? && a.val == Nil && more != Nil then Same(r, a.touched, Eval(fuel, a.env, Form("or", more)))
      else r == a
  {
    Builtin(fuel, env, "or", BOr, Cons(x, more));
    var a := Eval(fuel - 1, env, x);
    if a.Done? { Builtin(fuel, a.env, "or", BOr, more); }
  }

  // ---- control ----

  lemma ProgNLaw(fuel: nat, env: Env, x: SExp, more: SExp)
    requires fuel > 0
    ensures Is(Eval(fuel, env, Form("progn", Nil)), env, Nil)
    ensures var r, a := Eval(fuel, env, Form("progn", Cons(x, more))), Eval(fuel - 1, env, x);
      if a.Done? && more != Nil then Same(r, a.touched, Eval(fuel, a.env, Form("progn", more))) else r == a
  {
    ProgNIs(fuel, env, Nil);
    assert Progn(fuel - 1, env, Nil) == Done(env, Nil, {});
    ProgNIs(fuel, env, Cons(x, more));
    var a := Eval(fuel - 1, env, x);
    if a.Done? { ProgNIs(fuel, a.env, more); }
  }

  lemma IfLaw(fuel: nat, env: Env, c: SExp, x: SExp, more: SExp)
    requires fuel > 0
    ensures var r, t := Eval(fuel, env, Form("if", Cons(c, Cons(x, more)))), Eval(fuel - 1, env, c);
      if !t.Done? then r == t
      else if t.val != Nil then Same(r, t.touched, Eval(fuel - 1, t.env, x))
      else Same(r, t.touched, Eval(fuel, t.env, Form("progn", more)))
  {
    Builtin(fuel, env, "if", BIf, Cons(c, Cons(x, more)));
    var t := Eval(fuel - 1, env, c);
    if t.Done? { ProgNIs(fuel, t.env, more); }
  }

  lemma WhenLaw(fuel: nat, env: Env, c: SExp, body: SExp)
    requires fuel > 0
    ensures var r, t := Eval(fuel, env, Form("when", Cons(c, body))), Eval(fuel - 1, env, c);
      if t.Done? && t.val != Nil then Same(r, t.touched, Eval(fuel, t.env, Form("progn", body))) else Ends(r, t, Nil)
  {
    hide EvalEach, And, Or, Cond, Setq, Unsetq, Call, CallBody;
    Builtin(fuel, env, "when", BWhen, Cons(c, body));
    var t := Eval(fuel - 1, env, c);
    if t.Done? { ProgNIs(fuel, t.env, body); }
  }

  lemma UnlessLaw(fuel: nat, env: Env, c: SExp, body: SExp)
    requires fuel > 0
    ensures var r, t := Eval(fuel, env, Form("unless", Cons(c, body))), Eval(fuel - 1, env, c);
      if t.Done? && t.val == Nil then Same(r, t.touched, Eval(fuel, t.env, Form("progn", body))) else Ends(r, t, Nil)
  {
    Builtin(fuel, env, "unless", BUnless, Cons(c, body));
    var t := Eval(fuel - 1, env, c);
    if t.Done? { ProgNIs(fuel, t.env, body); }
  }

  // The first clause whose test is true; without a body, the value of the test.
  lemma CondLaw(fuel: nat, env: Env, c: SExp, body: SExp, more: SExp)
    requires fuel > 0
    ensures var r, t := Eval(fuel, env, Form("cond", Cons(Cons(c, body), more))), Eval(fuel - 1, env, c);
      if !t.Done? then r == t
      else if t.val != Nil then
        if body == Nil then r == t else Same(r, t.touched, Eval(fuel, t.env, Form("progn", body)))
      else if more == Nil then r == t
      else Same(r, t.touched, Eval(fuel, t.env, Form("cond", more)))
  {
    Builtin(fuel, env, "cond", BCond, Cons(Cons(c, body), more));
    var t := Eval(fuel - 1, env, c);
    if t.Done? {
      ProgNIs(fuel, t.env, body);
      Builtin(fuel, t.env, "cond", BCond, more);
    }
  }

  lemma WhileIs(fuel: nat, env: Env, c: SExp, body: SExp)
    requires fuel > 0
    ensures Eval(fuel, env, Form("while", Cons(c, body))) == While(fuel - 1, env, c, body)
  {
    Builtin(fuel, env, "while", BWhile, Cons(c, body));
  }

  // One round.
  lemma WhileLaw(fuel: nat, env: Env, c: SExp, body: SExp)
    requires fuel > 0
    ensures var r, t := Eval(fuel, env, Form("while", Cons(c, body))), Eval(fuel - 1, env, c);
      if !t.Done? || t.val == Nil then r == t
      else
        var b := Eval(fuel, t.env, Form("progn", body));
        if !b.Done? then r == b else Same(r, t.touched + b.touched, Eval(fuel - 1, b.env, Form("while", Cons(c, body))))
  {
    hide Eval, Progn;
    WhileIs(fuel, env, c, body);
    var t := Eval(fuel - 1, env, c);
    if t.Done? {
      ProgNIs(fuel, t.env, body);
      var b := Progn(fuel - 1, t.env, body);
      if b.Done? {
        if fuel > 1 { WhileIs(fuel - 1, b.env, c, body); } else { NoFuel(b.env, Form("while", Cons(c, body))); }
      }
    }
  }

  lemma NoFuel(env: Env, e: SExp)
    requires e.Cons? && e.car.Id? && e.car.s != "lambda"
    ensures Eval(0, env, e) == OutOfFuel
  {
  }

  // ---- variables ----

  // What a value stored under `n` makes of an outcome.
  predicate Stores(r: Outcome, earlier: set<string>, v: Outcome, n: SExp) {
    if !v.Done? then r == v
    else if n.Id? || n.Str? then r == Done(v.env[n.s := v.val], v.val, earlier + v.touched + {n.s})
    else r == Done(v.env, Nil, earlier + v.touched)
  }

  lemma SetLaw(fuel: nat, env: Env, n: SExp, x: SExp, more: SExp)
    requires fuel > 0
    ensures var r, name := Eval(fuel, env, Form("set", Cons(n, Cons(x, more)))), Eval(fuel - 1, env, n);
      if !name.Done? then r == name else Stores(r, name.touched, Eval(fuel - 1, name.env, x), name.val)
  {
    Builtin(fuel, env, "set", BSet, Cons(n, Cons(x, more)));
  }

  lemma SetqIs(fuel: nat, env: Env, name: string, args: SExp)
    requires fuel > 0 && (name == "setq" || name == "setf")
    ensures Eval(fuel, env, Form(name, args)) == Setq(fuel - 1, env, args)
  {
    Builtin(fuel, env, name, BSetq, args);
  }

  lemma SetqLaw(fuel: nat, env: Env, name: string, n: SExp, x: SExp, more: SExp)
    requires fuel > 0 && (name == "setq" || name == "setf")
    ensures var v, one := Eval(fuel - 1, env, x), Eval(fuel, env, Form(name, Cons(n, Cons(x, Nil))));
      && Stores(one, {}, v, n)
      && (one.Done? && more != Nil ==>
           Same(Eval(fuel, env, Form(name, Cons(n, Cons(x, more)))), one.touched,
                Eval(fuel, one.env, Form(name, more))))
      && (!one.Done? ==> Eval(fuel, env, Form(name, Cons(n, Cons(x, more)))) == one)
  {
    hide Eval;
    SetqIs(fuel, env, name, Cons(n, Cons(x, Nil)));
    SetqIs(fuel, env, name, Cons(n, Cons(x, more)));
    var one := Setq(fuel - 1, env, Cons(n, Cons(x, Nil)));
    if one.Done? { SetqIs(fuel, one.env, name, more); }
  }

  lemma UnsetLaw(fuel: nat, env: Env, n: SExp, more: SExp)
    requires fuel > 0
    ensures var r, name := Eval(fuel, env, Form("unset", Cons(n, more))), Eval(fuel - 1, env, n);
      if !name.Done? then r == name
      else if name.val.Id? || name.val.Str? then
        r == Done(name.env - {name.val.s}, name.val, name.touched + {name.val.s})
      else r == name
  {
    Builtin(fuel, env, "unset", BUnset, Cons(n, more));
  }

  lemma UnsetqLaw(fuel: nat, env: Env, name: string, n: SExp, more: SExp)
    requires fuel > 0 && (name == "unsetq" || name == "unsetf")
    ensures var one, isName := Eval(fuel, env, Form(name, Cons(n, Nil))), n.Id? || n.Str?;
      && one == (if !isName then Done(env, Nil, {})
                 else Done(env - {n.s}, if n.s in env then env[n.s] else Nil, {n.s}))
      && (more != Nil ==>
           Same(Eval(fuel, env, Form(name, Cons(n, more))), one.touched, Eval(fuel, one.env, Form(name, more))))
  {
    Builtin(fuel, env, name, BUnsetq, Cons(n, Nil));
    Builtin(fuel, env, name, BUnsetq, Cons(n, more));
    var one := Eval(fuel, env, Form(name, Cons(n, Nil)));
    Builtin(fuel, one.env, name, BUnsetq, more);
  }

  lemma DefunLaw(fuel: nat, env: Env, n: SExp, params: SExp, body: SExp)
    requires fuel > 0 && (n.Id? || n.Str?)
    ensures Eval(fuel, env, Form("defun", Cons(n, Cons(params, body))))
         == Done(env[n.s := Form("lambda", Cons(params, body))], Nil, {n.s})
  {
    Builtin(fuel, env, "defun", BDefun, Cons(n, Cons(params, body)));
  }

  // ---- calls ----

  lemma FuncallLaw(fuel: nat, env: Env, f: SExp, args: SExp)
    requires fuel > 0
    ensures var r, name := Eval(fuel, env, Form("funcall", Cons(f, args))), Eval(fuel - 1, env, f);
      if !name.Done? then r == name
      else if !name.val.Id? && !name.val.Str? then r == Done(name.env, Nil, name.touched)
      else name.val.s != "lambda" ==> Same(r, name.touched, Eval(fuel - 1, name.env, Form(name.val.s, args)))
  {
    Builtin(fuel, env, "funcall", BFuncall, Cons(f, args));
  }

  // A name that is no builtin's.
  predicate IsUserName(g: string) {
    && g != "lambda" && g !in UNMODELLED
    && g !in {"and", "car", "cdr", "cond", "cons", "defun", "funcall", "if", "list", "not", "null", "or", "progn",
              "quote", "set", "setf", "setq", "unless", "unset", "unsetf", "unsetq", "when", "while"}
  }

  predicate IsLambda(f: SExp) {
    f.Cons? && f.car == Id("lambda")
  }

  lemma UserCall(fuel: nat, env: Env, g: string, args: SExp)
    requires fuel > 0 && IsUserName(g)
    ensures Eval(fuel, env, Form(g, args)) ==
      if g in env && env[g] != Nil then Call(fuel - 1, env, g, env[g], args) else Done(env, Nil, {})
  {
    hide Run, Call;
    assert Eval(fuel, env, Form(g, args)) == Apply(fuel - 1, env, g, args);
  }

  lemma UndefinedLaw(fuel: nat, env: Env, g: string, args: SExp)
    requires fuel > 0 && IsUserName(g) && (g in env ==> !IsLambda(env[g]))
    ensures Is(Eval(fuel, env, Form(g, args)), env, Nil)
  {
    UserCall(fuel, env, g, args);
  }

  // The names of parameters.
  predicate AreParameters(ps: seq<SExp>) {
    (forall p :: p in ps ==> p.Id? || p.Str?) && forall i, j :: 0 <= i < j < |ps| ==> ps[i].s != ps[j].s
  }

  predicate IsOneOf(n: string, ps: seq<SExp>)
    requires AreParameters(ps)
  {
    exists p :: p in ps && p.s == n
  }

  // `inner` is `env` with the parameters bound to the values.
  ghost predicate Bound(inner: Env, env: Env, ps: seq<SExp>, vals: seq<SExp>)
    requires AreParameters(ps) && |ps| == |vals|
  {
    && (forall i :: 0 <= i < |ps| ==> ps[i].s in inner && inner[ps[i].s] == vals[i])
    && forall n :: !IsOneOf(n, ps) ==> (n in inner <==> n in env) && (n in env ==> inner[n] == env[n])
  }

  // `after` is `env` but for the parameters, which are bound as in `before`.
  ghost predicate Restored(after: Env, env: Env, before: Env, ps: seq<SExp>)
    requires AreParameters(ps)
  {
    forall n ::
      var from := if IsOneOf(n, ps) then before else env;
      (n in after <==> n in from) && (n in from ==> after[n] == from[n])
  }

  // What becomes of a call after the arguments ended with `a` and the body with `b`.
  ghost predicate Returns(r: Outcome, a: Outcome, b: Outcome, ps: seq<SExp>)
    requires AreParameters(ps) && a.Done?
  {
    if !b.Done? then r == b
    else if exists p :: p in ps && p.s in a.env && p.s !in b.env then r == Stuck
    else
      && r.Done? && r.val == b.val && Restored(r.env, b.env, a.env, ps)
      && r.touched == a.touched + (b.touched - (set p | p in ps :: p.s))
  }

  ghost predicate Calls(r: Outcome, g: string, ps: seq<SExp>, vals: seq<SExp>, inner: Env, a: Outcome, b: Outcome)
    requires AreParameters(ps) && |ps| == |vals|
  {
    if !a.Done? then r == a
    else a.val == ListOf(vals) && Bound(inner, a.env, ps, vals) ==>
      if g in a.touched then r == Stuck else Returns(r, a, b, ps)
  }

  // A call: the arguments are evaluated as for a list, then the body with the parameters
  // bound to them; the value is that of the body, and the parameters get back what they
  // had. It is stuck exactly if the arguments touch the function, or if the body unsets a
  // parameter that had a value.
  lemma CallLaw(fuel: nat, env: Env, g: string, ps: seq<SExp>, body: SExp, args: seq<SExp>, vals: seq<SExp>,
                inner: Env)
    requires fuel > 0 && IsUserName(g) && g in env && env[g] == Form("lambda", Cons(ListOf(ps), body))
    requires AreParameters(ps) && |args| == |ps| == |vals|
    ensures Calls(Eval(fuel, env, Form(g, ListOf(args))), g, ps, vals, inner,
                  Eval(fuel, env, Form("list", ListOf(args))), Eval(fuel, inner, Form("progn", body)))
  {
    hide *;
    IsCons("lambda", Cons(ListOf(ps), body));
    UserCall(fuel, env, g, ListOf(args));
    ListIs(fuel, env, ListOf(args));
    ProgNIs(fuel, inner, body);
    CallEnds(fuel - 1, env, g, env[g], ps, body, args, vals, inner);
  }

  lemma IsCons(name: string, args: SExp)
    ensures Form(name, args).Cons?
  {
  }

  lemma CallEnds(f: nat, env: Env, g: string, fn: SExp, ps: seq<SExp>, body: SExp, args: seq<SExp>,
                 vals: seq<SExp>, inner: Env)
    requires fn == Form("lambda", Cons(ListOf(ps), body)) && AreParameters(ps) && |args| == |ps| == |vals|
    ensures Calls(Call(f, env, g, fn, ListOf(args)), g, ps, vals, inner, EvalEach(f, env, ListOf(args)),
                  Progn(f, inner, body))
  {
    hide EvalEach, Progn, Call, CallBody, Bound, Returns, AreParameters, IsParameterList, Names;
    CallParts(f, env, g, fn, ps, body, args);
    ListShape(vals);
    var a := EvalEach(f, env, ListOf(args));
    if a.Done? && g !in a.touched && a.val == ListOf(vals) && Bound(inner, a.env, ps, vals) {
      BodyLaw(f, a, inner, ps, vals, body);
    }
  }

  lemma CallParts(f: nat, env: Env, g: string, fn: SExp, ps: seq<SExp>, body: SExp, args: seq<SExp>)
    requires fn == Form("lambda", Cons(ListOf(ps), body)) && AreParameters(ps) && |args| == |ps|
    ensures IsParameterList(ListOf(ps))
    ensures var a, r := EvalEach(f, env, ListOf(args)), Call(f, env, g, fn, ListOf(args));
      && (!a.Done? ==> r == a)
      && (a.Done? && g in a.touched ==> r == Stuck)
      && (a.Done? && g !in a.touched ==>
           && Count(a.val) == |ps| == |Names(ListOf(ps))|
           && r == CallBody(f, a, Names(ListOf(ps)), Elements(a.val), body))
  {
    hide EvalEach, CallBody;
    ListShape(ps);
    ListShape(args);
    ParametersShape(ps);
  }

  // The body, with the parameters bound.
  lemma BodyLaw(f: nat, a: Outcome, inner: Env, ps: seq<SExp>, vals: seq<SExp>, body: SExp)
    requires AreParameters(ps) && |ps| == |vals| && a.Done? && Bound(inner, a.env, ps, vals)
    ensures IsParameterList(ListOf(ps)) && |Names(ListOf(ps))| == |vals|
    ensures var b, r := Progn(f, inner, body), CallBody(f, a, Names(ListOf(ps)), vals, body);
      Returns(r, a, b, ps)
  {
    hide Progn, IsOneOf, IsParameterList, Bind, Restore, Bound, Restored, Eval;
    ParametersShape(ps);
    var names := Names(ListOf(ps));
    assert ToSet(names) == set p | p in ps :: p.s by { NameSet(ps); }
    assert Bind(a.env, names, vals) == inner by { BoundIs(a.env, ps, vals, inner); }
    var b := Progn(f, inner, body);
    if b.Done? {
      assert CanRestore(a.env, b.env, names) <==> !exists p :: p in ps && p.s in a.env && p.s !in b.env;
      RestoredIs(a.env, b.env, ps);
    }
  }

  lemma NameSet(ps: seq<SExp>)
    requires AreParameters(ps)
    ensures AllNames(ListOf(ps)) && ToSet(Names(ListOf(ps))) == set p | p in ps :: p.s
    ensures forall p :: p in ps ==> p.s in Names(ListOf(ps))
    ensures forall n :: n in Names(ListOf(ps)) ==> exists p :: p in ps && p.s == n
  {
    ParametersShape(ps);
  }

  lemma BoundIs(env: Env, ps: seq<SExp>, vals: seq<SExp>, inner: Env)
    requires AreParameters(ps) && |ps| == |vals| && Bound(inner, env, ps, vals)
    ensures AllNames(ListOf(ps)) && |Names(ListOf(ps))| == |vals| && Bind(env, Names(ListOf(ps)), vals) == inner
  {
    hide Bind, IsOneOf;
    ParametersShape(ps);
    var names := Names(ListOf(ps));
    BindAt(env, names, vals);
    var bound := Bind(env, names, vals);
    forall n ensures (n in bound <==> n in inner) && (n in bound ==> bound[n] == inner[n]) {
      if n in names { var i :| 0 <= i < |names| && names[i] == n; }
    }
  }

  lemma RestoredIs(saved: Env, env: Env, ps: seq<SExp>)
    requires AreParameters(ps)
    ensures AllNames(ListOf(ps)) && Restored(Restore(saved, env, Names(ListOf(ps))), env, saved, ps)
  {
    hide Restore, IsOneOf;
    ParametersShape(ps);
    RestoreAt(saved, env, Names(ListOf(ps)));
  }

  lemma {:induction false} ListShape(xs: seq<SExp>)
    ensures Count(ListOf(xs)) == |xs| && IsProperList(ListOf(xs)) && Elements(ListOf(xs)) == xs
  {
    if xs != [] { ListShape(xs[1..]); }
  }

  lemma {:induction false} NamesOf(ps: seq<SExp>)
    requires forall p :: p in ps ==> p.Id? || p.Str?
    ensures AllNames(ListOf(ps)) && |Names(ListOf(ps))| == |ps|
    ensures forall i :: 0 <= i < |ps| ==> Names(ListOf(ps))[i] == ps[i].s
  {
    if ps != [] { NamesOf(ps[1..]); }
  }

  lemma ParametersShape(ps: seq<SExp>)
    requires AreParameters(ps)
    ensures IsParameterList(ListOf(ps)) && |Names(ListOf(ps))| == |ps|
    ensures forall n :: n in Names(ListOf(ps)) <==> IsOneOf(n, ps)
    ensures forall i :: 0 <= i < |ps| ==> Names(ListOf(ps))[i] == ps[i].s
  {
    ListShape(ps);
    NamesOf(ps);
    var names := Names(ListOf(ps));
    forall n ensures n in names <==> IsOneOf(n, ps) {
      if n in names {
        var i :| 0 <= i < |names| && names[i] == n;
        assert ps[i] in ps;
      }
      if IsOneOf(n, ps) {
        var p :| p in ps && p.s == n;
        var i :| 0 <= i < |ps| && ps[i] == p;
        assert names[i] == n;
      }
    }
  }

  // The wrong number of arguments.
  lemma ArityLaw(fuel: nat, env: Env, g: string, ps: seq<SExp>, body: SExp, args: seq<SExp>)
    requires fuel > 0 && IsUserName(g) && g in env && env[g] == Form("lambda", Cons(ListOf(ps), body))
    requires |args| != |ps|
    ensures Is(Eval(fuel, env, Form(g, ListOf(args))), env, Nil)
  {
    hide Eval, EvalEach, CallBody;
    UserCall(fuel, env, g, ListOf(args));
    ListShape(ps);
    ListShape(args);
  }
}
