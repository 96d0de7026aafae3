// What an ALSA Lisp program means, on S-expressions: the evaluator of
// src/alisp/alisp.c with memory management taken out. Fuel bounds the nesting
// of applications and the number of loop rounds, since programs may diverge.

module LispEval {
  import opened LispSyntax

  type Env = map<string, SExp>

  datatype Builtin =
    | BAnd | BCar | BCdr | BCond | BCons | BDefun | BFuncall | BIf | BList | BNot | BOr
    | BProgn | BQuote | BSet | BSetq | BUnless | BUnset | BUnsetq | BWhen | BWhile

  datatype Binding = Modelled(builtin: Builtin) | Unmodelled | NotIntrinsic

  // Intrinsics of the two tables whose C functions are not part of this model.
  const UNMODELLED: set<string> := {
    "!=", "%", "&check-memory", "&dump-memory", "&dump-objects", "&stat-memory", "*", "+", "-",
    "/", "<", "<=", "=", ">", ">=", "assoc", "assq", "atom", "compare-strings", "concat", "eq",
    "equal", "eval", "exfun", "format", "garbage-collect", "gc", "include", "nth", "path",
    "princ", "prog1", "prog2", "rassoc", "rassq", "string-equal", "string-to-float",
    "string-to-integer", "string-to-number", "string=",
    "Acall", "Aerror", "Ahandle", "Aresult", "Asnderr", "Asyserr"
  }

  function Intrinsic(name: string): Binding {
    if name == "and" then Modelled(BAnd)
    else if name == "car" then Modelled(BCar)
    else if name == "cdr" then Modelled(BCdr)
    else if name == "cond" then Modelled(BCond)
    else if name == "cons" then Modelled(BCons)
    else if name == "defun" then Modelled(BDefun)
    else if name == "funcall" then Modelled(BFuncall)
    else if name == "if" then Modelled(BIf)
    else if name == "list" then Modelled(BList)
    else if name == "not" || name == "null" then Modelled(BNot)
    else if name == "or" then Modelled(BOr)
    else if name == "progn" then Modelled(BProgn)
    else if name == "quote" then Modelled(BQuote)
    else if name == "set" then Modelled(BSet)
    else if name == "setf" || name == "setq" then Modelled(BSetq)
    else if name == "unless" then Modelled(BUnless)
    else if name == "unset" then Modelled(BUnset)
    else if name == "unsetf" || name == "unsetq" then Modelled(BUnsetq)
    else if name == "when" then Modelled(BWhen)
    else if name == "while" then Modelled(BWhile)
    else if name in UNMODELLED then Unmodelled
    else NotIntrinsic
  }

  // `touched` over-approximates the names whose binding was replaced, created
  // or removed and not put back.
  //
  // `Stuck` stands for the programs on which the C code has no balanced, defined
  // behaviour: an intrinsic outside the model; `defun` of something that is not a
  // name; a lambda whose parameter list is not a list of distinct names or whose
  // argument list is dotted; arguments that rebind the function being called; a
  // body that unsets a parameter whose old value has to be restored.
  datatype Outcome =
    | Done(env: Env, val: SExp, touched: set<string>)
    | Stuck
    | OutOfFuel
  {
    predicate IsFailure() { !Done? }

    function PropagateFailure(): Outcome
      requires IsFailure()
    { this }

    function Extract(): Outcome
      requires Done?
    { this }

    // This outcome, reached after `earlier` names were touched.
    function After(earlier: set<string>): Outcome {
      if Done? then Done(env, val, earlier + touched) else this
    }
  }

  function Lookup(env: Env, name: string): SExp {
    if name in env then env[name] else Nil
  }

  function Bind(env: Env, names: seq<string>, vals: seq<SExp>): Env
    requires |names| == |vals|
    decreases names
  {
    if names == [] then env else Bind(env[names[0] := vals[0]], names[1..], vals[1..])
  }

  // Every name that was bound in `saved` can be put back into `env`.
  predicate CanRestore(saved: Env, env: Env, names: seq<string>) {
    forall n :: n in names && n in saved ==> n in env
  }

  // Puts the bindings that `names` have in `saved` back into `env`, one by one.
  function Restore(saved: Env, env: Env, names: seq<string>): Env
    decreases names
  {
    if names == [] then env
    else if names[0] in saved then
      Restore(saved, env[names[0] := saved[names[0]]], names[1..])
    else
      Restore(saved, env - {names[0]}, names[1..])
  }

  function Lambda(params: SExp, body: SExp): SExp {
    Cons(Id("lambda"), Cons(params, body))
  }

  // The two environments agree outside `touched`.
  ghost predicate AgreeOutside(a: Env, b: Env, touched: set<string>) {
    forall n :: n !in touched ==> (n in a <==> n in b) && (n in a ==> a[n] == b[n])
  }

  ghost predicate Framed(env: Env, r: Outcome) {
    r.Done? ==> AgreeOutside(env, r.env, r.touched)
  }

  function Eval(fuel: nat, env: Env, e: SExp): (r: Outcome)
    ensures Framed(env, r)
    decreases fuel, 0, e
  {
    match e
    case Id(name) => Done(env, Lookup(env, name), {})
    case Cons(Id(name), args) =>
      if name == "lambda" then Done(env, e, {})
      else if fuel == 0 then OutOfFuel
      else Apply(fuel - 1, env, name, args)
    case Cons(_, _) => Done(env, Nil, {})
    case _ => Done(env, e, {})
  }

  // eval_cons1: intrinsics first, then user functions.
  function Apply(fuel: nat, env: Env, name: string, args: SExp): (r: Outcome)
    ensures Framed(env, r)
    decreases fuel, 5, args
  {
    match Intrinsic(name)
    case Modelled(b) => Run(fuel, env, b, args)
    case Unmodelled => Stuck
    case NotIntrinsic =>
      if Lookup(env, name) != Nil then Call(fuel, env, name, env[name], args)
      else Done(env, Nil, {})
  }

  function Run(fuel: nat, env: Env, b: Builtin, args: SExp): (r: Outcome)
    ensures Framed(env, r)
    decreases fuel, 4, args
  {
    match b
    case BAnd => And(fuel, env, args)
    case BCar =>
      var o :- Eval(fuel, env, Car(args));
      o.(val := Car(o.val))
    case BCdr =>
      var o :- Eval(fuel, env, Car(args));
      o.(val := Cdr(o.val))
    case BCond => Cond(fuel, env, args)
    case BCons =>
      var a :- Eval(fuel, env, Car(args));
      var d :- Eval(fuel, a.env, Car(Cdr(args)));
      Done(d.env, Cons(a.val, d.val), a.touched + d.touched)
    case BDefun =>
      if IsName(Car(args)) then
        var name := NameOf(Car(args));
        Done(env[name := Lambda(Car(Cdr(args)), Cdr(Cdr(args)))], Nil, {name})
      else Stuck
    case BFuncall =>
      var f :- Eval(fuel, env, Car(args));
      if !IsName(f.val) then f.(val := Nil)
      else if fuel == 0 then OutOfFuel
      else Apply(fuel - 1, f.env, NameOf(f.val), Cdr(args)).After(f.touched)
    case BIf =>
      var c :- Eval(fuel, env, Car(args));
      if c.val != Nil then Eval(fuel, c.env, Car(Cdr(args))).After(c.touched)
      else Progn(fuel, c.env, Cdr(Cdr(args))).After(c.touched)
    case BList => EvalEach(fuel, env, args)
    case BNot =>
      var o :- Eval(fuel, env, Car(args));
      o.(val := if o.val == Nil then T else Nil)
    case BOr => Or(fuel, env, args)
    case BProgn => Progn(fuel, env, args)
    case BQuote => Done(env, Car(args), {})
    case BSet =>
      var n :- Eval(fuel, env, Car(args));
      var v :- Eval(fuel, n.env, Car(Cdr(args)));
      Assign(v, n.val).After(n.touched)
    case BSetq => Setq(fuel, env, args)
    case BUnless =>
      var c :- Eval(fuel, env, Car(args));
      if c.val == Nil then Progn(fuel, c.env, Cdr(args)).After(c.touched) else c.(val := Nil)
    case BUnset =>
      var n :- Eval(fuel, env, Car(args));
      Unassign(n.env, n.val).(val := n.val).After(n.touched)
    case BUnsetq => Unsetq(env, args)
    case BWhen =>
      var c :- Eval(fuel, env, Car(args));
      if c.val != Nil then Progn(fuel, c.env, Cdr(args)).After(c.touched) else c
    case BWhile => While(fuel, env, Car(args), Cdr(args))
  }

  // The state after evaluating `v`, with its value stored under `name`.
  function Assign(v: Outcome, name: SExp): (r: Outcome)
    requires v.Done?
    ensures r.Done?
    ensures forall env :: AgreeOutside(env, v.env, v.touched) ==> AgreeOutside(env, r.env, r.touched)
  {
    if IsName(name) then
      Done(v.env[NameOf(name) := v.val], v.val, v.touched + {NameOf(name)})
    else v.(val := Nil)
  }

  // unset_object: the result is the value that was removed.
  function Unassign(env: Env, name: SExp): (r: Outcome)
    ensures r.Done? && Framed(env, r)
  {
    if IsName(name) then
      Done(env - {NameOf(name)}, Lookup(env, NameOf(name)), {NameOf(name)})
    else Done(env, Nil, {})
  }

  // Evaluates the elements of `args` from left to right.
  function EvalEach(fuel: nat, env: Env, args: SExp): (r: Outcome)
    ensures Framed(env, r)
    ensures r.Done? && IsProperList(args) ==> Count(r.val) == Count(args)
    decreases fuel, 1, args
  {
    if args == Nil then Done(env, Nil, {}) else
    var a :- Eval(fuel, env, Car(args));
    if Cdr(args) == Nil then a.(val := Cons(a.val, Nil)) else
    var d :- EvalEach(fuel, a.env, Cdr(args));
    Done(d.env, Cons(a.val, d.val), a.touched + d.touched)
  }

  function Progn(fuel: nat, env: Env, args: SExp): (r: Outcome)
    ensures Framed(env, r)
    decreases fuel, 1, args
  {
    var v :- Eval(fuel, env, Car(args));
    if Cdr(args) == Nil then v else Progn(fuel, v.env, Cdr(args)).After(v.touched)
  }

  function And(fuel: nat, env: Env, args: SExp): (r: Outcome)
    ensures Framed(env, r)
    decreases fuel, 1, args
  {
    var v :- Eval(fuel, env, Car(args));
    if v.val == Nil || Cdr(args) == Nil then v else And(fuel, v.env, Cdr(args)).After(v.touched)
  }

  function Or(fuel: nat, env: Env, args: SExp): (r: Outcome)
    ensures Framed(env, r)
    decreases fuel, 1, args
  {
    var v :- Eval(fuel, env, Car(args));
    if v.val != Nil || Cdr(args) == Nil then v else Or(fuel, v.env, Cdr(args)).After(v.touched)
  }

  function Cond(fuel: nat, env: Env, args: SExp): (r: Outcome)
    ensures Framed(env, r)
    decreases fuel, 2, args
  {
    var clause := Car(args);
    var v :- Eval(fuel, env, Car(clause));
    if v.val != Nil then
      if Cdr(clause) != Nil then Progn(fuel, v.env, Cdr(clause)).After(v.touched) else v
    else if Cdr(args) == Nil then v
    else Cond(fuel, v.env, Cdr(args)).After(v.touched)
  }

  function Setq(fuel: nat, env: Env, args: SExp): (r: Outcome)
    ensures Framed(env, r)
    decreases fuel, 1, args
  {
    var v :- Eval(fuel, env, Car(Cdr(args)));
    var o := Assign(v, Car(args));
    if Cdr(Cdr(args)) == Nil then o else Setq(fuel, o.env, Cdr(Cdr(args))).After(o.touched)
  }

  function Unsetq(env: Env, args: SExp): (r: Outcome)
    ensures r.Done? && Framed(env, r)
    decreases args
  {
    var o := Unassign(env, Car(args));
    if Cdr(args) == Nil then o else Unsetq(o.env, Cdr(args)).After(o.touched)
  }

  function While(fuel: nat, env: Env, test: SExp, body: SExp): (r: Outcome)
    ensures Framed(env, r)
    decreases fuel, 2, body
  {
    var c :- Eval(fuel, env, test);
    if c.val == Nil then c else
    var b :- Progn(fuel, c.env, body).After(c.touched);
    if fuel == 0 then OutOfFuel else While(fuel - 1, b.env, test, body).After(b.touched)
  }

  // eval_func: applies the value `f` bound to `name`.
  function Call(fuel: nat, env: Env, name: string, f: SExp, args: SExp): (r: Outcome)
    ensures Framed(env, r)
    decreases fuel, 4, args
  {
    var params := Car(Cdr(f));
    if Car(f) != Id("lambda") || Count(params) != Count(args) then Done(env, Nil, {})
    else if !IsParameterList(params) || !IsProperList(args) then Stuck
    else
      var a :- EvalEach(fuel, env, args);
      if name in a.touched then Stuck else
      CallBody(fuel, a, Names(params), Elements(a.val), Cdr(Cdr(f)))
  }

  // The part of a call after the arguments were evaluated with outcome `a`.
  function CallBody(fuel: nat, a: Outcome, names: seq<string>, vals: seq<SExp>, body: SExp)
    : (r: Outcome)
    requires a.Done? && |names| == |vals| && Distinct(names)
    ensures Framed(a.env, r)
    ensures forall env :: AgreeOutside(env, a.env, a.touched) ==> Framed(env, r)
    decreases fuel, 3, body
  {
    var b :- Progn(fuel, Bind(a.env, names, vals), body);
    if !CanRestore(a.env, b.env, names) then Stuck else
    RestoreAgrees(a.env, b.env, names, vals, b.touched);
    Done(Restore(a.env, b.env, names), b.val, a.touched + (b.touched - ToSet(names)))
  }

  lemma {:induction false} BindAt(env: Env, names: seq<string>, vals: seq<SExp>)
    requires |names| == |vals|
    ensures Bind(env, names, vals).Keys == env.Keys + ToSet(names)
    ensures forall n :: n in env && n !in names ==> Bind(env, names, vals)[n] == env[n]
    ensures Distinct(names) ==>
      forall i :: 0 <= i < |names| ==> Bind(env, names, vals)[names[i]] == vals[i]
    decreases names
  {
    if names != [] {
      BindAt(env[names[0] := vals[0]], names[1..], vals[1..]);
      assert names == [names[0]] + names[1..];
      if Distinct(names) {
        assert forall i :: 0 < i < |names| ==> names[i] == names[1..][i-1];
      }
    }
  }

  // Restoring gives every name in `names` its saved binding and leaves all
  // other names alone.
  lemma {:induction false} RestoreAt(saved: Env, env: Env, names: seq<string>)
    ensures forall n :: n in names ==>
      (n in Restore(saved, env, names) <==> n in saved) &&
      (n in saved ==> Restore(saved, env, names)[n] == saved[n])
    ensures forall n :: n !in names ==>
      (n in Restore(saved, env, names) <==> n in env) &&
      (n in env ==> Restore(saved, env, names)[n] == env[n])
    decreases names
  {
    if names != [] {
      var env' := if names[0] in saved then env[names[0] := saved[names[0]]] else env - {names[0]};
      RestoreAt(saved, env', names[1..]);
    }
  }

  lemma RestoreAgrees(saved: Env, env: Env, names: seq<string>, vals: seq<SExp>, touched: set<string>)
    requires |names| == |vals|
    requires AgreeOutside(Bind(saved, names, vals), env, touched)
    ensures AgreeOutside(saved, Restore(saved, env, names), touched - ToSet(names))
  {
    BindAt(saved, names, vals);
    RestoreAt(saved, env, names);
  }
}
