// Dynamic scoping, and the independence of every result from the fuel.

module LispScoping {
  import opened LispSyntax
  import opened LispEval

  ghost predicate SameBinding(a: Env, b: Env, n: string) {
    (n in a <==> n in b) && (n in a ==> a[n] == b[n])
  }

  // A call of a user function leaves every parameter bound as it was when the
  // arguments had been evaluated - and so as it was before the call, unless an
  // argument itself assigned it. Whatever the body does, calls nested in it included.
  lemma CallRestoresParameters(fuel: nat, env: Env, name: string, f: SExp, args: SExp, n: string)
    requires Call(fuel, env, name, f, args).Done?
    requires Car(f) == Id("lambda") && Count(Car(Cdr(f))) == Count(args)
    requires AllNames(Car(Cdr(f))) && n in Names(Car(Cdr(f)))
    ensures EvalEach(fuel, env, args).Done?
    ensures SameBinding(Call(fuel, env, name, f, args).env, EvalEach(fuel, env, args).env, n)
    ensures n !in EvalEach(fuel, env, args).touched ==>
      SameBinding(Call(fuel, env, name, f, args).env, env, n)
  {
    hide EvalEach, Progn;
    var a, names := EvalEach(fuel, env, args), Names(Car(Cdr(f)));
    var b := Progn(fuel, Bind(a.env, names, Elements(a.val)), Cdr(Cdr(f)));
    RestoreAt(a.env, b.env, names);
  }

  // ---- parameters that are not distinct, bodies that unset them ----

  // What replace_object found in a variable.
  datatype Saved = Unbound | Bound(value: SExp)

  function Found(env: Env, name: string): Saved {
    if name in env then Bound(env[name]) else Unbound
  }

  // Binds the parameters one by one, saving what is found each time.
  function SaveAndBind(env: Env, names: seq<string>, vals: seq<SExp>): (r: (Env, seq<Saved>))
    requires |names| == |vals|
    ensures |r.1| == |names|
    decreases names
  {
    if names == [] then (env, [])
    else
      var (bound, saved) := SaveAndBind(env[names[0] := vals[0]], names[1..], vals[1..]);
      (bound, [Found(env, names[0])] + saved)
  }

  // Puts back what was saved: a variable is unset if nothing was found in it, and gets
  // the value back otherwise, if it still exists.
  function PutBack(env: Env, names: seq<string>, saved: seq<Saved>): Env
    requires |names| == |saved|
    decreases names
  {
    if names == [] then env
    else
      PutBack(match saved[0]
              case Unbound => env - {names[0]}
              case Bound(v) => if names[0] in env then env[names[0] := v] else env,
              names[1..], saved[1..])
  }

  // What the last occurrence of the parameter `n` found: the value of the occurrence
  // before it, if there is one.
  function LastFound(env: Env, names: seq<string>, vals: seq<SExp>, n: string): Saved
    requires |names| == |vals|
    decreases names
  {
    if names == [] || n !in names[1..] then Found(env, n)
    else LastFound(env[names[0] := vals[0]], names[1..], vals[1..], n)
  }

  lemma {:induction false} PutBackAt(env: Env, names: seq<string>, vals: seq<SExp>, after: Env, n: string)
    requires |names| == |vals| && n in names
    ensures var r := PutBack(after, names, SaveAndBind(env, names, vals).1);
      Found(r, n) == if n in env && n in after then LastFound(env, names, vals, n) else Unbound
    decreases names
  {
    var saved := SaveAndBind(env, names, vals).1;
    var env', m := env[names[0] := vals[0]], names[0];
    var after' := match saved[0]
      case Unbound => after - {m}
      case Bound(v) => if m in after then after[m := v] else after;
    assert saved[1..] == SaveAndBind(env', names[1..], vals[1..]).1;
    if n in names[1..] {
      PutBackAt(env', names[1..], vals[1..], after', n);
    } else {
      PutBackElse(after', names[1..], saved[1..], n);
    }
  }

  lemma {:induction false} PutBackElse(env: Env, names: seq<string>, saved: seq<Saved>, n: string)
    requires |names| == |saved| && n !in names
    ensures Found(PutBack(env, names, saved), n) == Found(env, n)
    decreases names
  {
    if names != [] {
      var m := names[0];
      PutBackElse(match saved[0]
                  case Unbound => env - {m}
                  case Bound(v) => if m in env then env[m := v] else env,
                  names[1..], saved[1..], n);
    }
  }

  // Exactly when a parameter gets its binding back, for any parameter list, whatever the
  // body has left behind: it was unbound, or the body has not unset it and the value
  // found by its last occurrence is the old one.
  lemma RestoredExactly(env: Env, names: seq<string>, vals: seq<SExp>, after: Env, n: string)
    requires |names| == |vals| && n in names
    ensures SameBinding(PutBack(after, names, SaveAndBind(env, names, vals).1), env, n)
      <==> n !in env || (n in after && LastFound(env, names, vals, n) == Bound(env[n]))
  {
    hide PutBack, LastFound;
    PutBackAt(env, names, vals, after, n);
  }

  // The parameters `(x x)`: a bound `x` has the first of the two values after the call.
  lemma TwiceTheSame(env: Env, v: SExp, w: SExp, after: Env)
    requires "x" in env && "x" in after
    ensures var r := PutBack(after, ["x", "x"], SaveAndBind(env, ["x", "x"], [v, w]).1);
      Found(r, "x") == Bound(v) && (SameBinding(r, env, "x") <==> v == env["x"])
  {
    var names, vals := ["x", "x"], [v, w];
    assert names[1..] == ["x"] && vals[1..] == [w] && ["x"][1..] == [];
    assert LastFound(env["x" := v], ["x"], [w], "x") == Bound(v);
    PutBackAt(env, names, vals, after, "x");
    RestoredExactly(env, names, vals, after, "x");
  }

  // The saved values that find no variable to be put back into. Nobody owns them any more.
  function Lost(env: Env, names: seq<string>, saved: seq<Saved>): seq<SExp>
    requires |names| == |saved|
    decreases names
  {
    if names == [] then []
    else
      match saved[0]
      case Unbound => Lost(env - {names[0]}, names[1..], saved[1..])
      case Bound(v) =>
        if names[0] in env then Lost(env[names[0] := v], names[1..], saved[1..])
        else [v] + Lost(env, names[1..], saved[1..])
  }

  // The body has not unset a parameter that was bound, and none that was unbound occurs twice.
  predicate KeepsAll(env: Env, names: seq<string>, after: Env) {
    && (forall i :: 0 <= i < |names| && names[i] in env ==> names[i] in after)
    && (forall i, j :: 0 <= i < j < |names| && names[i] == names[j] ==> names[i] in env)
  }

  // Exactly then no value is lost.
  lemma {:induction false} LostExactly(env: Env, names: seq<string>, vals: seq<SExp>, after: Env)
    requires |names| == |vals|
    ensures Lost(after, names, SaveAndBind(env, names, vals).1) == [] <==> KeepsAll(env, names, after)
    decreases names
  {
    if names != [] {
      var m, env' := names[0], env[names[0] := vals[0]];
      var after' := if m !in env then after - {m} else if m in after then after[m := env[m]] else after;
      var saved := SaveAndBind(env, names, vals).1;
      assert saved[0] == Found(env, m) && saved[1..] == SaveAndBind(env', names[1..], vals[1..]).1;
      LostExactly(env', names[1..], vals[1..], after');
      KeepsAllStep(env, names, vals[0], after);
    }
  }

  lemma KeepsAllStep(env: Env, names: seq<string>, v: SExp, after: Env)
    requires names != []
    ensures var m := names[0];
      var after' := if m !in env then after - {m} else if m in after then after[m := env[m]] else after;
      KeepsAll(env, names, after) <==> (m in env ==> m in after) && KeepsAll(env[m := v], names[1..], after')
  {
    var m := names[0];
    var after' := if m !in env then after - {m} else if m in after then after[m := env[m]] else after;
    assert forall i :: 0 <= i < |names| - 1 ==> names[1..][i] == names[i+1];
    if KeepsAll(env[m := v], names[1..], after') {
      forall i | 0 < i < |names| ensures (names[i] in env ==> names[i] in after) && (names[i] == m ==> m in env) {
        assert names[1..][i-1] == names[i];
      }
      forall i, j | 0 < i < j < |names| && names[i] == names[j] ensures names[i] in env {
        assert names[1..][i-1] == names[1..][j-1];
      }
    }
  }

  lemma {:induction false} SavedAt(env: Env, names: seq<string>, vals: seq<SExp>)
    requires |names| == |vals| && Distinct(names)
    ensures SaveAndBind(env, names, vals).0 == Bind(env, names, vals)
    ensures forall i :: 0 <= i < |names| ==> SaveAndBind(env, names, vals).1[i] == Found(env, names[i])
    decreases names
  {
    if names != [] {
      var env' := env[names[0] := vals[0]];
      assert Distinct(names[1..]) && names[0] !in names[1..];
      SavedAt(env', names[1..], vals[1..]);
      forall i | 0 < i < |names| ensures SaveAndBind(env, names, vals).1[i] == Found(env, names[i]) {
        assert names[1..][i-1] == names[i] && Found(env', names[i]) == Found(env, names[i]);
      }
    }
  }

  lemma {:induction false} PutBackRestores(env: Env, names: seq<string>, saved: seq<Saved>, after: Env)
    requires |names| == |saved| && Distinct(names) && CanRestore(env, after, names)
    requires forall i :: 0 <= i < |names| ==> saved[i] == Found(env, names[i])
    ensures PutBack(after, names, saved) == Restore(env, after, names)
    decreases names
  {
    if names != [] {
      var m := names[0];
      var after' := if m in env then after[m := env[m]] else after - {m};
      assert Distinct(names[1..]) && m !in names[1..];
      assert forall i :: 0 <= i < |names| - 1 ==> saved[1..][i] == Found(env, names[1..][i]);
      PutBackRestores(env, names[1..], saved[1..], after');
    }
  }

  // For distinct parameters, that is what LispEval says.
  lemma DistinctParameters(env: Env, names: seq<string>, vals: seq<SExp>, after: Env)
    requires |names| == |vals| && Distinct(names) && CanRestore(env, after, names)
    ensures SaveAndBind(env, names, vals).0 == Bind(env, names, vals)
    ensures PutBack(after, names, SaveAndBind(env, names, vals).1) == Restore(env, after, names)
  {
    SavedAt(env, names, vals);
    PutBackRestores(env, names, SaveAndBind(env, names, vals).1, after);
  }

  // `r` is what more fuel gives, if less fuel gave `o`.
  ghost predicate Settled(o: Outcome, r: Outcome) {
    o == OutOfFuel || r == o
  }

  lemma {:induction false} MoreFuelEval(fuel: nat, more: nat, env: Env, e: SExp)
    requires fuel <= more
    ensures Settled(Eval(fuel, env, e), Eval(more, env, e))
    decreases fuel, 0, e
  {
    hide Apply;
    match e
    case Cons(Id(name), args) =>
      if fuel > 0 { MoreFuelApply(fuel - 1, more - 1, env, name, args); }
    case _ =>
  }

  lemma {:induction false} MoreFuelApply(fuel: nat, more: nat, env: Env, name: string, args: SExp)
    requires fuel <= more
    ensures Settled(Apply(fuel, env, name, args), Apply(more, env, name, args))
    decreases fuel, 5, args
  {
    hide Intrinsic, Run, Call;
    match Intrinsic(name)
    case Modelled(b) => MoreFuelRun(fuel, more, env, b, args);
    case Unmodelled =>
    case NotIntrinsic =>
      if Lookup(env, name) != Nil { MoreFuelCall(fuel, more, env, name, env[name], args); }
  }

  lemma {:induction false} MoreFuelRun(fuel: nat, more: nat, env: Env, b: Builtin, args: SExp)
    requires fuel <= more
    ensures Settled(Run(fuel, env, b, args), Run(more, env, b, args))
    decreases fuel, 4, args
  {
    hide Eval, Apply, Progn, And, Or, Cond, Setq, While, EvalEach, Unsetq, Assign, Unassign, Framed,
      AgreeOutside, Car, Cdr, Lambda;
    match b
    case BAnd => MoreFuelAnd(fuel, more, env, args);
    case BOr => MoreFuelOr(fuel, more, env, args);
    case BCond => MoreFuelCond(fuel, more, env, args);
    case BList => MoreFuelEach(fuel, more, env, args);
    case BProgn => MoreFuelProgn(fuel, more, env, args);
    case BSetq => MoreFuelSetq(fuel, more, env, args);
    case BWhile => MoreFuelWhile(fuel, more, env, Car(args), Cdr(args));
    case BFuncall | BIf | BUnless | BWhen => MoreFuelBranch(fuel, more, env, b, args);
    case BCons | BSet => MoreFuelPair(fuel, more, env, b, args);
    case _ => MoreFuelPlain(fuel, more, env, b, args);
  }

  // The builtins that evaluate one argument and then are done, or none at all ...
  lemma {:induction false} MoreFuelPlain(fuel: nat, more: nat, env: Env, b: Builtin, args: SExp)
    requires fuel <= more
    requires b in {BCar, BCdr, BDefun, BNot, BQuote, BUnset, BUnsetq}
    ensures Settled(Run(fuel, env, b, args), Run(more, env, b, args))
    decreases fuel, 3, args
  {
    hide Eval, Apply, Progn, EvalEach, Unsetq, Assign, Unassign, Framed, AgreeOutside, Car, Cdr,
      Lambda;
    MoreFuelEval(fuel, more, env, Car(args));
  }

  // ... or two of them ...
  lemma {:induction false} MoreFuelPair(fuel: nat, more: nat, env: Env, b: Builtin, args: SExp)
    requires fuel <= more && b in {BCons, BSet}
    ensures Settled(Run(fuel, env, b, args), Run(more, env, b, args))
    decreases fuel, 3, args
  {
    hide Eval, Apply, Progn, EvalEach, Unsetq, Assign, Unassign, Framed, AgreeOutside, Car, Cdr,
      Lambda;
    MoreFuelEval(fuel, more, env, Car(args));
    var c := Eval(fuel, env, Car(args));
    if c.Done? { MoreFuelEval(fuel, more, c.env, Car(Cdr(args))); }
  }

  // ... and those that go on with some of the others.
  lemma {:induction false} MoreFuelBranch(fuel: nat, more: nat, env: Env, b: Builtin, args: SExp)
    requires fuel <= more && b in {BFuncall, BIf, BUnless, BWhen}
    ensures Settled(Run(fuel, env, b, args), Run(more, env, b, args))
    decreases fuel, 3, args
  {
    hide Eval, Apply, Progn, EvalEach, Unsetq, Assign, Unassign, Framed, AgreeOutside, Car, Cdr,
      Lambda;
    MoreFuelEval(fuel, more, env, Car(args));
    var c := Eval(fuel, env, Car(args));
    if !c.Done? { return; }
    match b
    case BFuncall =>
      if IsName(c.val) && fuel > 0 {
        MoreFuelApply(fuel - 1, more - 1, c.env, NameOf(c.val), Cdr(args));
      }
    case BIf =>
      MoreFuelEval(fuel, more, c.env, Car(Cdr(args)));
      MoreFuelProgn(fuel, more, c.env, Cdr(Cdr(args)));
    case BUnless | BWhen => MoreFuelProgn(fuel, more, c.env, Cdr(args));
    case _ =>
  }

  lemma {:induction false} MoreFuelEach(fuel: nat, more: nat, env: Env, args: SExp)
    requires fuel <= more
    ensures Settled(EvalEach(fuel, env, args), EvalEach(more, env, args))
    decreases fuel, 1, args
  {
    hide Eval;
    if args != Nil {
      MoreFuelEval(fuel, more, env, Car(args));
      var a := Eval(fuel, env, Car(args));
      if a.Done? && Cdr(args) != Nil { MoreFuelEach(fuel, more, a.env, Cdr(args)); }
    }
  }

  lemma {:induction false} MoreFuelProgn(fuel: nat, more: nat, env: Env, args: SExp)
    requires fuel <= more
    ensures Settled(Progn(fuel, env, args), Progn(more, env, args))
    decreases fuel, 1, args
  {
    hide Eval;
    MoreFuelEval(fuel, more, env, Car(args));
    var v := Eval(fuel, env, Car(args));
    if v.Done? && Cdr(args) != Nil { MoreFuelProgn(fuel, more, v.env, Cdr(args)); }
  }

  lemma {:induction false} MoreFuelAnd(fuel: nat, more: nat, env: Env, args: SExp)
    requires fuel <= more
    ensures Settled(And(fuel, env, args), And(more, env, args))
    decreases fuel, 1, args
  {
    hide Eval;
    MoreFuelEval(fuel, more, env, Car(args));
    var v := Eval(fuel, env, Car(args));
    if v.Done? && v.val != Nil && Cdr(args) != Nil { MoreFuelAnd(fuel, more, v.env, Cdr(args)); }
  }

  lemma {:induction false} MoreFuelOr(fuel: nat, more: nat, env: Env, args: SExp)
    requires fuel <= more
    ensures Settled(Or(fuel, env, args), Or(more, env, args))
    decreases fuel, 1, args
  {
    hide Eval;
    MoreFuelEval(fuel, more, env, Car(args));
    var v := Eval(fuel, env, Car(args));
    if v.Done? && v.val == Nil && Cdr(args) != Nil { MoreFuelOr(fuel, more, v.env, Cdr(args)); }
  }

  lemma {:induction false} MoreFuelCond(fuel: nat, more: nat, env: Env, args: SExp)
    requires fuel <= more
    ensures Settled(Cond(fuel, env, args), Cond(more, env, args))
    decreases fuel, 2, args
  {
    hide Eval, Progn;
    var clause := Car(args);
    MoreFuelEval(fuel, more, env, Car(clause));
    var v := Eval(fuel, env, Car(clause));
    if v.Done? {
      MoreFuelProgn(fuel, more, v.env, Cdr(clause));
      if Cdr(args) != Nil { MoreFuelCond(fuel, more, v.env, Cdr(args)); }
    }
  }

  lemma {:induction false} MoreFuelSetq(fuel: nat, more: nat, env: Env, args: SExp)
    requires fuel <= more
    ensures Settled(Setq(fuel, env, args), Setq(more, env, args))
    decreases fuel, 1, args
  {
    hide Eval, Assign;
    MoreFuelEval(fuel, more, env, Car(Cdr(args)));
    var v := Eval(fuel, env, Car(Cdr(args)));
    if v.Done? && Cdr(Cdr(args)) != Nil {
      MoreFuelSetq(fuel, more, Assign(v, Car(args)).env, Cdr(Cdr(args)));
    }
  }

  lemma {:induction false} MoreFuelWhile(fuel: nat, more: nat, env: Env, test: SExp, body: SExp)
    requires fuel <= more
    ensures Settled(While(fuel, env, test, body), While(more, env, test, body))
    decreases fuel, 2, body
  {
    hide Eval, Progn;
    MoreFuelEval(fuel, more, env, test);
    var c := Eval(fuel, env, test);
    if c.Done? && c.val != Nil {
      MoreFuelProgn(fuel, more, c.env, body);
      var b := Progn(fuel, c.env, body);
      if b.Done? && fuel > 0 { MoreFuelWhile(fuel - 1, more - 1, b.env, test, body); }
    }
  }

  lemma {:induction false} MoreFuelCall(fuel: nat, more: nat, env: Env, name: string, f: SExp, args: SExp)
    requires fuel <= more
    ensures Settled(Call(fuel, env, name, f, args), Call(more, env, name, f, args))
    decreases fuel, 4, args
  {
    hide EvalEach, Progn;
    var params, body := Car(Cdr(f)), Cdr(Cdr(f));
    MoreFuelEach(fuel, more, env, args);
    var a := EvalEach(fuel, env, args);
    if a.Done? && IsParameterList(params) && Count(params) == Count(args) && IsProperList(args) {
      MoreFuelProgn(fuel, more, Bind(a.env, Names(params), Elements(a.val)), body);
    }
  }
}
