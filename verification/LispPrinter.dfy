// The printer of src/alisp/alisp.c and dump_objects, walking the objects.

module LispPrinter {
  import opened LispSyntax
  import opened LispMemory
  import opened LispEval
  import opened LispOwnership
  import opened LispTrees
  import opened LispText
  import opened LispDump

  lemma {:induction false} EscapeAppend(s: string, c: char)
    ensures EscapeAll(s + [c]) == EscapeAll(s) + Escape(c)
  {
    hide Escape;
    if s == "" {
      assert [c][1..] == "";
      assert EscapeAll([c]) == Escape(c) + EscapeAll("");
    } else {
      assert (s + [c])[1..] == s[1..] + [c];
      EscapeAppend(s[1..], c);
    }
  }

  // princ_string
  method PrincString(s: string) returns (out: string)
    ensures out == "\"" + EscapeAll(s) + "\""
  {
    hide Escape;
    out := "\"";
    assert s[..0] == "";
    for i := 0 to |s|
      invariant out == "\"" + EscapeAll(s[..i])
    {
      EscapeAppend(s[..i], s[i]);
      assert s[..i+1] == s[..i] + [s[i]];
      out := out + Escape(s[i]);
    }
    assert s[..|s|] == s;
    out := out + "\"";
  }

  // princ_object
  method PrincObject(s: Instance, p: Ref, ghost e: SExp, ghost rest: multiset<Ref>)
    returns (out: string)
    requires Tree(s, p, e) && Owns(s, rest)
    ensures out == Print(e)
    decreases e, 1
  {
    hide Balanced, PrintTail, EscapeAll, IntText;
    if p == NIL {
      out := "nil";
    } else if p == TRUE {
      out := "t";
    } else {
      match s.value[p]
      case VInt(i) => out := IntText(i);
      case VId(id) => out := id;
      case VStr(t) => out := PrincString(t);
      case VCons(_, _) =>
        var inner := PrincCons(s, p, e, rest);
        out := "(" + inner + ")";
    }
  }

  // princ_cons
  method PrincCons(s: Instance, p0: Ref, ghost e: SExp, ghost rest: multiset<Ref>)
    returns (out: string)
    requires Tree(s, p0, e) && Owns(s, rest) && e.Cons?
    ensures out == Print(e.car) + PrintTail(e.cdr)
    decreases e, 0
  {
    hide Balanced, Rep, Cells, Print, PrintTail;
    var p := p0;
    ghost var f, whole := e, Print(e.car) + PrintTail(e.cdr);
    out := "";
    while true
      invariant Tree(s, p, f) && f.Cons? && (f == e || f < e)
      invariant whole == out + (Print(f.car) + PrintTail(f.cdr))
      decreases f
    {
      Parts(s, p, f, rest);
      var head := PrincObject(s, s.CarOf(p), f.car, rest);
      out := out + head;
      assert whole == out + PrintTail(f.cdr);
      TailCases(f.cdr);
      p := s.CdrOf(p);
      Kind(s, p, f.cdr, rest);
      if p == NIL {
        return;
      }
      out := out + " ";
      if !s.IsCons(p) {
        var last := PrincObject(s, p, f.cdr, rest);
        out := out + (". " + last);
        return;
      }
      f := f.cdr;
    }
  }

  lemma TailCases(d: SExp)
    ensures d == Nil ==> PrintTail(d) == ""
    ensures d.Cons? ==> PrintTail(d) == " " + (Print(d.car) + PrintTail(d.cdr))
    ensures d != Nil && !d.Cons? ==> PrintTail(d) == " " + (". " + Print(d))
  {
    hide Print;
    if d.Cons? {
      Associate(" ", Print(d.car), PrintTail(d.cdr));
    } else if d != Nil {
      Associate(" ", ". ", Print(d));
    }
  }

  lemma Associate(a: string, b: string, c: string)
    ensures a + b + c == a + (b + c)
  {
  }

  // dump_objects, for the variables in the order in which the hash table lists them.
  method DumpObjects(s: Instance, names: seq<string>, ghost rest: multiset<Ref>)
    returns (out: string)
    requires Owns(s, rest) && forall n :: n in names ==> n in s.env && IsDumpable(s.env[n])
    ensures out == Dump(s.env, names)
  {
    hide Balanced, Rep, Cells, Print, PrintTail, DumpLine;
    out := "";
    assert names[..0] == [];
    for i := 0 to |names|
      invariant out == Dump(s.env, names[..i])
    {
      var line := DumpOne(s, names[i], rest);
      DumpAppend(s.env, names[..i], names[i]);
      assert names[..i+1] == names[..i] + [names[i]];
      out := out + line;
    }
    assert names[..|names|] == names;
  }

  method DumpOne(s: Instance, name: string, ghost rest: multiset<Ref>) returns (line: string)
    requires Owns(s, rest) && name in s.env && IsDumpable(s.env[name])
    ensures line == DumpLine(name, s.env[name])
  {
    hide Rep, Cells, Print, PrintTail, VarCells, Instance.Valid;
    ghost var e := s.env[name];
    assert name in s.vars;
    var p := s.vars[name];
    VariableOwned(s, name, rest);
    Parts(s, p, e, rest);
    Kind(s, p, e, rest);
    Kind(s, s.CarOf(p), Car(e), rest);
    if s.IsCons(p) && s.IsId(s.CarOf(p)) && s.NameAt(s.CarOf(p)) == "lambda" {
      var body := PrincCons(s, s.CdrOf(p), e.cdr, rest);
      line := "(defun " + name + " " + body + ")\n";
    } else {
      var text := PrincObject(s, p, e, rest);
      line := "(setq " + name + " '" + text + ")\n";
    }
  }

  lemma {:induction false} DumpAppend(env: Env, names: seq<string>, name: string)
    requires forall n :: n in names + [name] ==> n in env && IsDumpable(env[n])
    ensures forall n :: n in names ==> n in names + [name]
    ensures Dump(env, names + [name]) == Dump(env, names) + DumpLine(name, env[name])
  {
    hide DumpLine, IsDumpable;
    assert forall n :: n in names ==> n in names + [name];
    assert name in names + [name];
    if names == [] {
      assert [name][1..] == [];
      assert Dump(env, [name]) == DumpLine(name, env[name]) + Dump(env, []);
    } else {
      assert (names + [name])[1..] == names[1..] + [name];
      DumpAppend(env, names[1..], name);
    }
  }
}
