// Saving the variables as text and loading them again: dump_objects, the top-level
// loop of alsa_lisp, and why the second undoes the first.

module LispDump {
  import opened LispSyntax
  import opened LispEval
  import opened LispText
  import opened LispRoundTrip

  // The loop of alsa_lisp: reads and evaluates forms until nothing more can be read.
  function RunText(fuel: nat, env: Env, text: string): (r: Outcome)
    ensures Framed(env, r)
    decreases |text|
  {
    match Parse(text)
    case Unread => Done(env, Nil, {})
    case FloatForm => Stuck
    case Form(e, rest) =>
      var o :- Eval(fuel, env, e);
      RunText(fuel, o.env, rest).After(o.touched)
  }

  predicate IsLambda(e: SExp) {
    e.Cons? && e.car == Id("lambda")
  }

  // princ_cons
  function PrintCons(e: SExp): string
    requires e.Cons?
  {
    Print(e.car) + PrintTail(e.cdr)
  }

  // The printer can walk this value: a lambda is printed as a defun, and then needs a
  // second cons. (On any other lambda, dump_objects follows the car of an atom.)
  predicate IsDumpable(e: SExp) {
    IsLambda(e) ==> e.cdr.Cons?
  }

  function DumpLine(name: string, e: SExp): string
    requires IsDumpable(e)
  {
    if IsLambda(e) then "(defun " + name + " " + PrintCons(e.cdr) + ")\n"
    else "(setq " + name + " '" + Print(e) + ")\n"
  }

  // dump_objects, visiting the variables in the order `names`.
  function Dump(env: Env, names: seq<string>): string
    requires forall n :: n in names ==> n in env && IsDumpable(env[n])
  {
    if names == [] then "" else
    assert names[0] in names;
    DumpLine(names[0], env[names[0]]) + Dump(env, names[1..])
  }

  // An identifier that the reader does not take for one of the two constants.
  predicate IsVariableName(n: string) {
    IsLexId(n) && n != "t" && n != "nil"
  }

  // What a line of a dump is read as.
  function Definition(name: string, e: SExp): SExp {
    if IsLambda(e) then Cons(Id("defun"), Cons(Id(name), e.cdr))
    else Cons(Id("setq"), Cons(Id(name), Cons(Quote(e), Nil)))
  }

  lemma ReadQuoted(e: SExp, rest: string)
    requires IsPrintable(e)
    ensures GetToken("'" + (Print(e) + (")" + rest))) == (TChar('\''), Print(e) + (")" + rest))
    ensures ParseToken(TChar('\''), Print(e) + (")" + rest)) == Form(Quote(e), ")" + rest)
  {
    hide GetToken;
    ReadChar('\'', Print(e) + (")" + rest));
    ReadPrinted(e, ")" + rest);
  }

  lemma ReadNil(rest: string)
    requires GetToken(")" + rest) == (TChar(')'), rest)
    ensures ParseForm(")" + rest, true) == Form(Nil, rest)
  {
    hide GetToken;
  }

  // The list at `text` starts with `e`; `more` is what follows it.
  lemma ReadElement(text: string, started: bool, e: SExp, more: string)
    requires var (tok, r) := GetToken(text);
      ParseToken(tok, r) == Form(e, more) && tok != TChar('.') && tok != TChar(')')
    ensures var d := ParseForm(more, true);
      d.Form? ==> ParseForm(text, started) == Form(Cons(e, d.e), d.rest)
  {
    hide GetToken;
  }

  lemma OpenParen(text: string)
    ensures ParseToken(TChar('('), text) == ParseForm(text, false)
  {
    hide ParseForm;
  }

  lemma NothingToRead()
    ensures Parse("") == Unread
  {
  }

  lemma ReadSetq(name: string, e: SExp, rest: string)
    requires IsVariableName(name) && IsPrintable(e)
    ensures Parse("(setq " + name + " '" + Print(e) + ")" + rest)
         == Form(Cons(Id("setq"), Cons(Id(name), Cons(Quote(e), Nil))), rest)
  {
    hide GetToken, Print, ParseForm;
    var t3 := ")" + rest;
    var t2 := "'" + (Print(e) + t3);
    var t1 := name + (" " + t2);
    var t0 := "setq" + (" " + t1);
    assert "(setq " + name + " '" + Print(e) + ")" + rest == ['('] + t0;
    ReadChar('(', t0);
    ReadId("setq", " " + t1);
    SkipBlank(t1);
    ReadId(name, " " + t2);
    SkipBlank(t2);
    ReadQuoted(e, rest);
    assert t3 == [')'] + rest;
    ReadChar(')', rest);
    ReadNil(rest);
    ReadElement(" " + t2, true, Quote(e), t3);
    ReadElement(" " + t1, true, Id(name), " " + t2);
    ReadElement(t0, false, Id("setq"), " " + t1);
    OpenParen(t0);
  }

  lemma SkipNewline(rest: string)
    ensures Parse("\n" + rest) == Parse(rest)
  {
    hide ScanNumber, ScanString, IdTail, Skip, IntText, ParseToken;
    assert ("\n" + rest)[1..] == rest;
  }

  lemma PrintDefun(name: string, e: SExp)
    requires IsLambda(e) && IsDumpable(e)
    ensures Print(Definition(name, e)) == "(defun " + name + " " + PrintCons(e.cdr) + ")"
    ensures IsVariableName(name) && IsPrintable(e) ==> IsPrintable(Definition(name, e))
  {
    var tail := Cons(Id(name), e.cdr);
    assert PrintTail(e.cdr) == " " + PrintCons(e.cdr);
    assert PrintTail(tail) == " " + name + PrintTail(e.cdr);
    assert Print(Definition(name, e)) == "(" + "defun" + PrintTail(tail) + ")";
  }

  lemma ReadLine(name: string, e: SExp, rest: string)
    requires IsVariableName(name) && IsPrintable(e) && IsDumpable(e)
    ensures Parse(DumpLine(name, e) + rest) == Form(Definition(name, e), "\n" + rest)
  {
    hide GetToken, ParseToken, ParseForm, Parse, Print, PrintCons, IsPrintable, IsVariableName;
    if IsLambda(e) {
      var d := Definition(name, e);
      PrintDefun(name, e);
      assert DumpLine(name, e) + rest == Print(d) + ("\n" + rest);
      ReadPrinted(d, "\n" + rest);
    } else {
      ReadSetq(name, e, "\n" + rest);
      assert DumpLine(name, e) + rest == "(setq " + name + " '" + Print(e) + ")" + ("\n" + rest);
    }
  }

  // Evaluating a line gives the variable its value back.
  lemma EvalDefinition(fuel: nat, env: Env, name: string, e: SExp)
    requires fuel >= 2 && IsDumpable(e)
    ensures var o := Eval(fuel, env, Definition(name, e));
      o.Done? && o.env == env[name := e]
  {
    if IsLambda(e) {
      assert Intrinsic("defun") == Modelled(BDefun);
      assert Lambda(Car(e.cdr), Cdr(e.cdr)) == e;
      assert Run(fuel - 1, env, BDefun, Cons(Id(name), e.cdr)).env == env[name := e];
    } else {
      EvalSetq(fuel, env, name, e);
    }
  }

  lemma EvalSetq(fuel: nat, env: Env, name: string, e: SExp)
    requires fuel >= 2
    ensures var o := Eval(fuel, env, Cons(Id("setq"), Cons(Id(name), Cons(Quote(e), Nil))));
      o.Done? && o.env == env[name := e]
  {
    EvalQuote(fuel - 1, env, e);
    assert Intrinsic("setq") == Modelled(BSetq);
    var args := Cons(Id(name), Cons(Quote(e), Nil));
    assert Setq(fuel - 1, env, args).env == env[name := e];
    assert Run(fuel - 1, env, BSetq, args) == Setq(fuel - 1, env, args);
  }

  lemma EvalQuote(fuel: nat, env: Env, e: SExp)
    requires fuel >= 1
    ensures Eval(fuel, env, Quote(e)) == Done(env, e, {})
  {
    assert Intrinsic("quote") == Modelled(BQuote);
    assert Run(fuel - 1, env, BQuote, Cons(e, Nil)) == Done(env, e, {});
    assert Apply(fuel - 1, env, "quote", Cons(e, Nil)) == Done(env, e, {});
  }

  // Overlaying `env` with the variables of `from` that `names` lists.
  function Overlay(env: Env, from: Env, names: seq<string>): Env
    requires forall n :: n in names ==> n in from
    decreases names
  {
    if names == [] then env else
    assert names[0] in names;
    Overlay(env[names[0] := from[names[0]]], from, names[1..])
  }

  lemma {:induction false} OverlayAt(env: Env, from: Env, names: seq<string>)
    requires forall n :: n in names ==> n in from
    ensures var o := Overlay(env, from, names);
      && o.Keys == env.Keys + ToSet(names)
      && forall n :: n in o ==> o[n] == if n in names then from[n] else env[n]
    decreases names
  {
    if names != [] {
      assert names[0] in names;
      OverlayAt(env[names[0] := from[names[0]]], from, names[1..]);
      assert names == [names[0]] + names[1..];
    }
  }

  lemma {:induction false} RunDump(fuel: nat, start: Env, env: Env, names: seq<string>)
    requires fuel >= 2
    requires forall n :: n in names ==>
      n in env && IsDumpable(env[n]) && IsVariableName(n) && IsPrintable(env[n])
    ensures var o := RunText(fuel, start, Dump(env, names));
      o.Done? && o.env == Overlay(start, env, names)
    decreases names
  {
    hide Parse, Eval, DumpLine, IsDumpable, IsVariableName, IsPrintable, Definition;
    if names == [] {
      NothingToRead();
    } else {
      var n, more := names[0], Dump(env, names[1..]);
      assert n in names;
      ReadLine(n, env[n], more);
      EvalDefinition(fuel, start, n, env[n]);
      RunDump(fuel, start[n := env[n]], env, names[1..]);
      RunNewline(fuel, start[n := env[n]], more);
    }
  }

  lemma RunNewline(fuel: nat, env: Env, text: string)
    ensures RunText(fuel, env, "\n" + text) == RunText(fuel, env, text)
  {
    hide Parse, Eval;
    SkipNewline(text);
  }

  // Loading the dump of all variables into a fresh instance restores them, whatever
  // order they were written in.
  lemma DumpRestores(fuel: nat, env: Env, names: seq<string>)
    requires fuel >= 2 && ToSet(names) == env.Keys
    requires forall n :: n in env ==> IsVariableName(n) && IsPrintable(env[n]) && IsDumpable(env[n])
    ensures var o := RunText(fuel, map[], Dump(env, names));
      o.Done? && o.env == env
  {
    hide RunText, Dump, IsDumpable, IsVariableName, IsPrintable, Overlay;
    assert forall n :: n in names <==> n in ToSet(names);
    RunDump(fuel, map[], env, names);
    OverlayAt(map[], env, names);
  }

  // There are environments without a dump: `(setq x '(lambda))` gives one.
  lemma Undumpable(fuel: nat)
    requires fuel >= 2
    ensures var o := RunText(fuel, map[], "(setq x '(lambda))");
      o.Done? && o.env == map["x" := Cons(Id("lambda"), Nil)] && !IsDumpable(o.env["x"])
  {
    hide Parse, Eval;
    var e := Cons(Id("lambda"), Nil);
    UndumpableText();
    ReadSetq("x", e, "");
    EvalSetq(fuel, map[], "x", e);
    NothingToRead();
  }

  lemma UndumpableText()
    ensures var e := Cons(Id("lambda"), Nil);
      && "(setq x '(lambda))" == "(setq " + "x" + " '" + Print(e) + ")" + ""
      && IsVariableName("x") && IsPrintable(e)
  {
    assert PrintTail(Nil) == "" && Print(Id("lambda")) == "lambda";
    assert Print(Cons(Id("lambda"), Nil)) == "(lambda)";
  }
}
