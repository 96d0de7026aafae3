// The parser of src/alisp/alisp.c, which builds the forms it reads out of objects,
// and gives everything back when the text turns out to be malformed.

module LispReader {
  import opened LispSyntax
  import opened LispMemory
  import opened LispEval
  import opened LispOwnership
  import opened LispTrees
  import opened LispCells
  import opened LispLexer
  import opened LispText
  import LispInterp

  // The outcome `o` of reading: a new owned tree, or NULL and nothing.
  twostate predicate Built(s: Instance, lex: Lexer, rest: multiset<Ref>, r: Ref, o: Parsed)
    reads s, lex
  {
    && lex.Valid() && Kept(s, rest)
    && match o
       case Form(e, t) =>
         r != NULL && Tree(s, r, e) && Owns(s, At(s, r, e) + rest) && lex.Rest() == t
       case _ => r == NULL && Owns(s, rest)
  }

  // `o`, with the elements `es` in front of it.
  function After(es: seq<SExp>, o: Parsed): Parsed {
    if o.Form? then Form(ListOf(es, o.e), o.rest) else o
  }

  lemma AfterElement(es: seq<SExp>, e: SExp, o: Parsed)
    ensures After(es, if o.Form? then Form(Cons(e, o.e), o.rest) else o) == After(es + [e], o)
  {
    assert (es + [e])[..|es|] == es;
  }

  lemma Unchanged(s: Instance, rest: multiset<Ref>)
    requires Owns(s, rest)
    ensures SameOn(s.value, s.value, rest)
  {
    hide Balanced, VarCells;
    OwnedExist(s, s.vars, s.env, rest);
    LispInterp.Narrow(s.value, s.value, VarCells(s.value, s.vars, s.env) + rest, rest);
  }

  // parse_object(instance, 0)
  method ParseObject(s: Instance, lex: Lexer, ghost rest: multiset<Ref>) returns (r: Ref)
    requires lex.Valid() && Owns(s, rest) && LispText.Parse(lex.Rest()) != FloatForm
    modifies s, lex
    ensures Built(s, lex, rest, r, LispText.Parse(old(lex.Rest())))
    decreases |lex.Rest()|, 2, 0
  {
    hide Balanced, Rep, Cells, SameOn, LispText.ParseToken, LispText.GetToken, Lexer.Rest, Lexer.Valid;
    Unchanged(s, rest);
    lex.GetToken();
    if lex.kind == KEof {
      return NULL;
    }
    r := ParseToken(s, lex, rest);
  }

  // parse_object(instance, 1)
  method ParseToken(s: Instance, lex: Lexer, ghost rest: multiset<Ref>) returns (r: Ref)
    requires lex.Valid() && Owns(s, rest)
    requires LispText.ParseToken(lex.Current(), lex.Rest()) != FloatForm
    modifies s, lex
    ensures Built(s, lex, rest, r, LispText.ParseToken(old(lex.Current()), old(lex.Rest())))
    decreases |lex.Rest()|, 3
  {
    hide Balanced, Rep, Cells, SameOn, LispText.ParseForm, LispText.Parse, LispText.GetToken, Atol,
      Lexer.Rest, Lexer.BackOk;
    Unchanged(s, rest);
    match lex.kind
    case KChar(c) =>
      if c == '(' {
        r := ParseForm(s, lex, rest);
      } else if c == '\'' {
        r := ParseQuote(s, lex, rest);
      } else {
        r := NULL;
      }
    case KId =>
      if lex.buffer == "t" || lex.buffer == "nil" {
        NilOwnsNothing(s);
        r := if lex.buffer == "t" then TRUE else NIL;
        assert multiset{} + rest == rest;
      } else {
        r := NewAtom(s, Id(lex.buffer), rest);
      }
    case KInt => r := NewAtom(s, Int(Atol(lex.buffer)), rest);
    case KStr => r := NewAtom(s, Str(lex.buffer), rest);
    case _ => r := NULL;
  }

  method NewAtom(s: Instance, e: SExp, ghost rest: multiset<Ref>) returns (p: Ref)
    requires Owns(s, rest) && (e.Int? || e.Id? || e.Str?)
    modifies s
    ensures p != NULL && Tree(s, p, e) && Owns(s, At(s, p, e) + rest) && Kept(s, rest)
  {
    hide Balanced, Rep, Cells;
    p := NewLeaf(s, e, rest);
    Kind(s, p, e, At(s, p, e) + rest);
  }

  // parse_quote
  method ParseQuote(s: Instance, lex: Lexer, ghost rest: multiset<Ref>) returns (r: Ref)
    requires lex.Valid() && Owns(s, rest) && LispText.Parse(lex.Rest()) != FloatForm
    modifies s, lex
    ensures var o := LispText.Parse(old(lex.Rest()));
      Built(s, lex, rest, r, if o.Form? then Form(Quote(o.e), o.rest) else o)
    decreases |lex.Rest()|, 2, 1
  {
    hide Balanced, Rep, Cells, SameOn, LispText.Parse, Lexer.Rest, Lexer.Valid;
    ghost var o, v0 := LispText.Parse(lex.Rest()), s.value;
    r := ParseObject(s, lex, rest);
    if r != NULL {
      ghost var v := s.value;
      r := QuoteObject(s, r, o.e, rest);
      LispInterp.Onward(v0, v, s.value, rest, map[], map[], map[], {}, {});
    }
  }

  // quote_object
  method QuoteObject(s: Instance, obj: Ref, ghost e: SExp, ghost rest: multiset<Ref>) returns (p: Ref)
    requires Tree(s, obj, e) && Owns(s, At(s, obj, e) + rest)
    modifies s
    ensures p != NULL && Tree(s, p, Quote(e)) && Owns(s, At(s, p, Quote(e)) + rest) && Kept(s, rest)
  {
    hide Balanced, Rep, Cells;
    NilLast(s, rest);
    p := LispInterp.WrapCons(s, obj, e, NIL, Nil, rest);
    ghost var f, v := Cons(e, Nil), s.value;
    ghost var frame := At(s, p, f) + rest;
    var id := NewLeaf(s, Id("quote"), frame);
    RepFrame(v, s.value, s.building, p, f, frame);
    p := LispInterp.WrapCons(s, id, Id("quote"), p, f, rest);
    Kind(s, p, Quote(e), At(s, p, Quote(e)) + rest);
  }

  // What parse_form knows between two elements: the conses `cs` hold `es`, and are
  // linked from `first` to `prev`.
  ghost predicate Chain(s: Instance, cs: seq<Ref>, es: seq<SExp>, first: Ref, prev: Ref,
                        rest: multiset<Ref>)
    reads s
  {
    && |cs| == |es| && Linked(s.value, s.building, cs, es, NIL)
    && Owns(s, LinkCells(s.value, cs, es) + rest)
    && (if cs == [] then first == prev == NULL
        else first == cs[0] > TRUE && prev == cs[|cs|-1] > TRUE)
    && forall c :: c in cs ==> c !in rest
  }

  method ParseForm(s: Instance, lex: Lexer, ghost rest: multiset<Ref>) returns (r: Ref)
    requires lex.Valid() && Owns(s, rest) && LispText.ParseForm(lex.Rest(), false) != FloatForm
    modifies s, lex
    ensures Built(s, lex, rest, r, LispText.ParseForm(old(lex.Rest()), false))
    decreases |lex.Rest()|, 1
  {
    hide Balanced, Rep, Cells, SameOn, Chain, LinkCells, LispText.ParseToken, LispText.GetToken,
      Lexer.Rest, Lexer.Valid;
    ghost var whole, b0, v0 := LispText.ParseForm(lex.Rest(), false), s.building, s.value;
    ghost var cs: seq<Ref>, es: seq<SExp> := [], [];
    var first, prev := NULL, NULL;
    ChainStarts(s, rest);
    while true
      invariant lex.Valid() && Chain(s, cs, es, first, prev, rest)
      invariant whole == After(es, LispText.ParseForm(lex.Rest(), cs != []))
      invariant s.building == b0 + ToSet(cs) && (forall c :: c in cs ==> c !in b0)
      invariant s.vars == old(s.vars) && s.env == old(s.env) && SameOn(v0, s.value, rest)
      decreases |lex.Rest()|
    {
      lex.GetToken();
      if lex.kind == KChar(')') || lex.kind == KEof {
        r := EndChain(s, cs, es, first, prev, b0, rest);
        return;
      }
      ghost var w := s.value;
      if lex.kind == KChar('.') {
        r := ParseDotted(s, lex, cs, es, first, prev, b0, rest);
        LispInterp.Onward(v0, w, s.value, rest, map[], map[], map[], {}, {});
        return;
      }
      ghost var o := LispText.ParseToken(lex.Current(), lex.Rest());
      var p, ok := ParseElement(s, lex, cs, es, first, prev, b0, rest);
      LispInterp.Onward(v0, w, s.value, rest, map[], map[], map[], {}, {});
      if !ok {
        return NULL;
      }
      AfterElement(es, o.e, LispText.ParseForm(lex.Rest(), true));
      first, prev := if first == NULL then p else first, p;
      cs, es := cs + [p], es + [o.e];
    }
  }

  lemma ChainStarts(s: Instance, rest: multiset<Ref>)
    requires Owns(s, rest)
    ensures Chain(s, [], [], NULL, NULL, rest) && SameOn(s.value, s.value, rest)
  {
    hide Balanced, Rep, Cells;
    NoLinks(s.value, s.building);
    assert multiset{} + rest == rest;
    Unchanged(s, rest);
  }

  // The list is complete.
  method EndChain(s: Instance, ghost cs: seq<Ref>, ghost es: seq<SExp>, first: Ref, ghost prev: Ref,
                  ghost b0: set<Ref>, ghost rest: multiset<Ref>)
    returns (r: Ref)
    requires Chain(s, cs, es, first, prev, rest)
    requires s.building == b0 + ToSet(cs) && forall c :: c in cs ==> c !in b0
    modifies s
    ensures r != NULL && Tree(s, r, ListOf(es, Nil)) && Owns(s, At(s, r, ListOf(es, Nil)) + rest)
    ensures s.building == b0 && s.value == old(s.value) && s.vars == old(s.vars) && s.env == old(s.env)
  {
    hide Balanced, Rep, Cells, LinkCells, Linked;
    NilOwnsNothing(s);
    assert multiset{} + rest == rest;
    ghost var f := FinishAll(s, cs, es, NIL, Nil, rest);
    assert b0 + ToSet(cs) - ToSet(cs) == b0;
    r := if first == NULL then NIL else first;
  }

  // delete_tree(first) when an element could not be read.
  method DropChain(s: Instance, ghost cs: seq<Ref>, ghost es: seq<SExp>, first: Ref,
                   ghost prev: Ref, ghost b0: set<Ref>, ghost rest: multiset<Ref>)
    requires Chain(s, cs, es, first, prev, rest)
    requires s.building == b0 + ToSet(cs) && forall c :: c in cs ==> c !in b0
    modifies s
    ensures Owns(s, rest) && SameOn(old(s.value), s.value, rest)
    ensures s.building == b0 && s.vars == old(s.vars) && s.env == old(s.env)
  {
    hide Balanced, Rep, Cells, Chain;
    var r := EndChain(s, cs, es, first, prev, b0, rest);
    DropTree(s, r, ListOf(es, Nil), rest);
  }

  // One more element: a new cons at the end of the chain, then its car.
  method ParseElement(s: Instance, lex: Lexer, ghost cs: seq<Ref>, ghost es: seq<SExp>, first: Ref,
                      prev: Ref, ghost b0: set<Ref>, ghost rest: multiset<Ref>)
    returns (p: Ref, ok: bool)
    requires lex.Valid() && Chain(s, cs, es, first, prev, rest)
    requires s.building == b0 + ToSet(cs) && forall c :: c in cs ==> c !in b0
    requires LispText.ParseToken(lex.Current(), lex.Rest()) != FloatForm
    modifies s, lex
    ensures lex.Valid() && s.vars == old(s.vars) && s.env == old(s.env)
    ensures SameOn(old(s.value), s.value, rest)
    ensures match LispText.ParseToken(old(lex.Current()), old(lex.Rest()))
      case Form(e, t) =>
        && ok && p !in b0 && p !in cs && s.building == b0 + ToSet(cs + [p])
        && Chain(s, cs + [p], es + [e], if first == NULL then p else first, p, rest)
        && lex.Rest() == t
      case _ => !ok && s.building == b0 && Owns(s, rest)
    decreases |lex.Rest()|, 4
  {
    hide Balanced, Rep, Cells, SameOn, LinkCells, Linked, LispText.ParseToken, Lexer.Rest,
      Lexer.Valid;
    ghost var o, v0 := LispText.ParseToken(lex.Current(), lex.Rest()), s.value;
    p := AddCell(s, cs, es, first, prev, rest);
    ghost var cs', es', v1 := cs + [p], es + [Nil], s.value;
    ghost var frame := LinkCells(s.value, cs', es') + rest;
    var x := ParseToken(s, lex, frame);
    LinkFrame(v1, s.value, s.building, cs', es', NIL, frame);
    LispInterp.Narrow(v1, s.value, frame, rest);
    LispInterp.Onward(v0, v1, s.value, rest, map[], map[], map[], {}, {});
    ghost var v2 := s.value;
    ok := x != NULL;
    if ok {
      FillCar(s, cs, es, p, x, o.e, rest);
    } else {
      DropChain(s, cs', es', if first == NULL then p else first, p, b0, rest);
    }
    LispInterp.Onward(v0, v2, s.value, rest, map[], map[], map[], {}, {});
  }

  // p = new_object(ALISP_OBJ_CONS), linked to the end of the chain.
  method AddCell(s: Instance, ghost cs: seq<Ref>, ghost es: seq<SExp>, first: Ref, prev: Ref,
                 ghost rest: multiset<Ref>)
    returns (p: Ref)
    requires Chain(s, cs, es, first, prev, rest)
    modifies s
    ensures Chain(s, cs + [p], es + [Nil], if first == NULL then p else first, p, rest)
    ensures p !in cs && p !in old(s.building) && s.building == old(s.building) + {p}
    ensures SameOn(old(s.value), s.value, rest) && s.vars == old(s.vars) && s.env == old(s.env)
  {
    hide Balanced, Rep, Cells, SameOn, LinkCells;
    NilOwnsNothing(s);
    assert LinkCells(s.value, cs, es) + (multiset{} + rest) == LinkCells(s.value, cs, es) + rest;
    ghost var v0 := s.value;
    p := LispInterp.ChainCell(s, cs, es, NIL, Nil, rest);
    NilOwnsNothing(s);
    ghost var links, v1 := LinkCells(s.value, cs, es), s.value;
    assert multiset{} + (links + (One(p) + rest)) == multiset{} + (multiset{} + (links + (One(p) + rest)));
    LispInterp.LinkCell(s, cs, es, prev, p, NIL, Nil, NIL, Nil, rest);
    NilOwnsNothing(s);
    assert LinkCells(s.value, cs + [p], es + [Nil]) + (multiset{} + rest)
        == LinkCells(s.value, cs + [p], es + [Nil]) + rest;
    LispInterp.Onward(v0, v1, s.value, rest, map[], map[], map[], {}, {});
  }

  // p->value.c.car = x
  method FillCar(s: Instance, ghost cs: seq<Ref>, ghost es: seq<SExp>, p: Ref, x: Ref,
                 ghost e: SExp, ghost rest: multiset<Ref>)
    requires |cs| == |es| && Linked(s.value, s.building, cs + [p], es + [Nil], NIL) && Tree(s, x, e)
    requires p !in rest && p in s.building
    requires Owns(s, At(s, x, e) + (LinkCells(s.value, cs + [p], es + [Nil]) + rest))
    modifies s`value
    ensures Linked(s.value, s.building, cs + [p], es + [e], NIL)
    ensures Owns(s, LinkCells(s.value, cs + [p], es + [e]) + rest)
    ensures SameOn(old(s.value), s.value, rest)
  {
    hide Balanced, Rep, Cells, LinkCells;
    ghost var v, b, all := s.value, s.building, At(s, x, e) + (LinkCells(s.value, cs + [p], es + [Nil]) + rest);
    OwnedExist(s, s.vars, s.env, all);
    LinkSplit(v, b, cs, es, p, Nil);
    Store2(s, p, x, NIL, all);
    RepStore(v, b, p, VCons(x, NIL), x, e);
    LinkOther(v, b, cs, es, p, p, VCons(x, NIL));
    LinkAppend(s.value, b, cs, es, p, e);
    assert all == LinkCells(s.value, cs + [p], es + [e]) + rest;
  }

  lemma LinkSplit(v: Store, b: set<Ref>, cs: seq<Ref>, es: seq<SExp>, p: Ref, e: SExp)
    requires |cs| == |es| && Linked(v, b, cs + [p], es + [e], NIL)
    ensures Linked(v, b, cs, es, p) && p !in cs && p > TRUE && p in v && v[p].VCons? && p in b
    ensures Rep(v, b, v[p].car, e) && v[p].cdr == NIL
    ensures LinkCells(v, cs + [p], es + [e]) == LinkCells(v, cs, es) + (One(p) + Cells(v, v[p].car, e))
    ensures Cells(v, v[p].car, Nil) == multiset{}
  {
    hide Rep;
    assert (cs + [p])[..|cs|] == cs && (es + [e])[..|cs|] == es;
    assert forall i :: 0 <= i < |cs| ==> (cs + [p])[i] == cs[i] && (es + [e])[i] == es[i];
    assert (cs + [p])[|cs|] == p && (es + [e])[|cs|] == e;
  }

  // The part of parse_form after a '.' token.
  method ParseDotted(s: Instance, lex: Lexer, ghost cs: seq<Ref>, ghost es: seq<SExp>, first: Ref,
                     prev: Ref, ghost b0: set<Ref>, ghost rest: multiset<Ref>)
    returns (r: Ref)
    requires lex.Valid() && Chain(s, cs, es, first, prev, rest)
    requires s.building == b0 + ToSet(cs) && forall c :: c in cs ==> c !in b0
    requires After(es, DottedTail(lex.Rest(), cs != [])) != FloatForm
    modifies s, lex
    ensures lex.Valid() && s.vars == old(s.vars) && s.env == old(s.env) && s.building == b0
    ensures SameOn(old(s.value), s.value, rest)
    ensures match After(es, DottedTail(old(lex.Rest()), cs != []))
      case Form(e, t) =>
        r != NULL && Tree(s, r, e) && Owns(s, At(s, r, e) + rest) && lex.Rest() == t
      case _ => r == NULL && Owns(s, rest)
    decreases |lex.Rest()|, 4
  {
    hide Balanced, Rep, Cells, SameOn, LinkCells, Linked, LispText.ParseToken, LispText.GetToken,
      Lexer.Rest, Lexer.Valid;
    lex.GetToken();
    ghost var o, v0 := LispText.ParseToken(lex.Current(), lex.Rest()), s.value;
    if prev == NULL {
      DropChain(s, cs, es, first, prev, b0, rest);
      return NULL;
    }
    ghost var frame := LinkCells(s.value, cs, es) + rest;
    var x := ParseToken(s, lex, frame);
    ghost var v1 := s.value;
    LinkFrame(v0, v1, s.building, cs, es, NIL, frame);
    LispInterp.Narrow(v0, v1, frame, rest);
    if x == NULL {
      DropChain(s, cs, es, first, prev, b0, rest);
      LispInterp.Onward(v0, v1, s.value, rest, map[], map[], map[], {}, {});
      return NULL;
    }
    r := CloseDotted(s, cs, es, first, prev, x, o.e, b0, rest);
    LispInterp.Onward(v0, v1, s.value, rest, map[], map[], map[], {}, {});
    ghost var v2 := s.value;
    lex.GetToken();
    if lex.kind != KChar(')') {
      DropTree(s, r, ListOf(es, o.e), rest);
      LispInterp.Onward(v0, v2, s.value, rest, map[], map[], map[], {}, {});
      return NULL;
    }
  }

  // What parse_form reads after the dot.
  function DottedTail(inp: string, started: bool): Parsed {
    var (tok, rest) := LispText.GetToken(inp);
    if !started then Unread else
    var t := LispText.ParseToken(tok, rest);
    if !t.Form? then t else
    var (close, rest3) := LispText.GetToken(t.rest);
    if close == TChar(')') then Form(t.e, rest3) else Unread
  }

  // prev->value.c.cdr = x, after which the whole list is a tree.
  method CloseDotted(s: Instance, ghost cs: seq<Ref>, ghost es: seq<SExp>, first: Ref, prev: Ref,
                     x: Ref, ghost t: SExp, ghost b0: set<Ref>, ghost rest: multiset<Ref>)
    returns (r: Ref)
    requires |cs| == |es| && cs != [] && Linked(s.value, s.building, cs, es, NIL) && Tree(s, x, t)
    requires Owns(s, At(s, x, t) + (LinkCells(s.value, cs, es) + rest))
    requires first == cs[0] > TRUE && prev == cs[|cs|-1] && forall c :: c in cs ==> c !in rest
    requires s.building == b0 + ToSet(cs) && forall c :: c in cs ==> c !in b0
    modifies s
    ensures r != NULL && Tree(s, r, ListOf(es, t)) && Owns(s, At(s, r, ListOf(es, t)) + rest)
    ensures s.building == b0 && s.vars == old(s.vars) && s.env == old(s.env)
    ensures SameOn(old(s.value), s.value, rest)
  {
    hide Balanced, Rep, Cells, LinkCells;
    ghost var v, b, all := s.value, s.building, At(s, x, t) + (LinkCells(s.value, cs, es) + rest);
    OwnedExist(s, s.vars, s.env, all);
    Store2(s, prev, s.value[prev].car, x, all);
    RepStore(v, b, prev, VCons(v[prev].car, x), x, t);
    LinkStore(v, b, cs, es, NIL, x);
    assert all == LinkCells(s.value, cs, es) + (At(s, x, t) + rest);
    ghost var f := FinishAll(s, cs, es, x, t, rest);
    assert b0 + ToSet(cs) - ToSet(cs) == b0;
    r := first;
  }
}
