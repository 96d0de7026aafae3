// Conses while they are being built: new_object for a cons, the stores into its
// car and cdr, and the point where the finished cell becomes part of a tree.

module LispCells {
  import opened LispSyntax
  import opened LispMemory
  import opened LispEval
  import opened LispOwnership
  import opened LispTrees

  // Which conses are under construction matters only to trees that contain them.
  lemma {:induction false} RepRebuild(v: Store, b: set<Ref>, b': set<Ref>, p: Ref, e: SExp)
    requires Rep(v, b, p, e)
    requires forall o :: o in Cells(v, p, e) && o in b' ==> o in b
    ensures Rep(v, b', p, e)
    decreases e
  {
    if e.Cons? {
      assert forall o :: o in Cells(v, v[p].car, e.car) ==> o in Cells(v, p, e);
      assert forall o :: o in Cells(v, v[p].cdr, e.cdr) ==> o in Cells(v, p, e);
      RepRebuild(v, b, b', v[p].car, e.car);
      RepRebuild(v, b, b', v[p].cdr, e.cdr);
    }
  }

  // A store into a cons under construction changes no tree.
  lemma {:induction false} RepStore(v: Store, b: set<Ref>, o: Ref, c: Val, p: Ref, e: SExp)
    requires Rep(v, b, p, e) && o in b && o in v && v[o].VCons? && c.VCons?
    ensures Rep(v[o := c], b, p, e) && Cells(v[o := c], p, e) == Cells(v, p, e)
    ensures o !in Cells(v, p, e)
    decreases e
  {
    if e.Cons? {
      RepStore(v, b, o, c, v[p].car, e.car);
      RepStore(v, b, o, c, v[p].cdr, e.cdr);
    }
  }

  lemma VarsRebuild(v: Store, b: set<Ref>, b': set<Ref>, vars: map<string, Ref>, env: Env)
    requires VarsRep(v, b, vars, env)
    requires forall o :: o in VarCells(v, vars, env) && o in b' ==> o in b
    ensures VarsRep(v, b', vars, env)
  {
    hide Rep, Cells;
    forall n | n in env ensures Rep(v, b', vars[n], env[n]) {
      SumSplit(Trees(v, vars, env), n);
      assert Trees(v, vars, env)[n] == Cells(v, vars[n], env[n]);
      RepRebuild(v, b, b', vars[n], env[n]);
    }
  }

  lemma VarsStore(v: Store, b: set<Ref>, o: Ref, c: Val, vars: map<string, Ref>, env: Env)
    requires VarsRep(v, b, vars, env) && o in b && o in v && v[o].VCons? && c.VCons?
    ensures VarsRep(v[o := c], b, vars, env)
    ensures VarCells(v[o := c], vars, env) == VarCells(v, vars, env)
  {
    hide Rep, Cells;
    forall n | n in env
      ensures Rep(v[o := c], b, vars[n], env[n])
      ensures Cells(v[o := c], vars[n], env[n]) == Cells(v, vars[n], env[n])
    {
      RepStore(v, b, o, c, vars[n], env[n]);
    }
    assert Trees(v[o := c], vars, env) == Trees(v, vars, env);
  }

  // A fresh cons that only its creator knows.
  method NewCell(s: Instance, ghost rest: multiset<Ref>) returns (p: Ref)
    requires Owns(s, rest)
    modifies s
    ensures Owns(s, One(p) + rest) && p > TRUE
    ensures p in s.value && s.value[p] == VCons(NIL, NIL)
    ensures s.building == old(s.building) + {p} && p !in rest && p !in old(s.building)
    ensures SameOn(old(s.value), s.value, rest) && s.vars == old(s.vars) && s.env == old(s.env)
  {
    hide VarsRep, VarCells, ListsOk, AtomsOk, PoolOk, Total;
    ghost var all := VarCells(s.value, s.vars, s.env);
    p := s.NewCons(all + rest);
    VarsFrame(old(s.value), s.value, s.building, s.vars, s.env, all + rest);
    VarsRebuild(s.value, s.building, s.building + {p}, s.vars, s.env);
    assert s.Ledger(all + rest + multiset{p});
    assert (all + rest + multiset{p})[p] > 0;
    s.building := s.building + {p};
    assert all + (One(p) + rest) == all + rest + multiset{p};
  }

  // p->value.c.car = x and p->value.c.cdr = y
  method Store2(s: Instance, p: Ref, x: Ref, y: Ref, ghost rest: multiset<Ref>)
    requires Owns(s, rest) && p in s.building
    modifies s`value
    ensures Owns(s, rest)
    ensures p in old(s.value) && old(s.value)[p].VCons?
    ensures s.value == old(s.value)[p := VCons(x, y)]
  {
    hide VarsRep, VarCells, ListsOk, AtomsOk, PoolOk, Total;
    ghost var c := VCons(x, y);
    VarsStore(s.value, s.building, p, c, s.vars, s.env);
    ConsStore(s.value, s.refs, s.used, p, c);
    s.value := s.value[p := VCons(x, y)];
  }

  lemma ConsStore(value: Store, refs: map<Ref, nat>, used: seq<seq<Ref>>, p: Ref, c: Val)
    requires p in value && value[p].VCons? && c.VCons?
    ensures ListsOk(value, refs, used) ==> ListsOk(value[p := c], refs, used)
    ensures AtomsOk(value, refs) ==> AtomsOk(value[p := c], refs)
  {
  }

  lemma PairCells(v: Store, p: Ref, a: SExp, d: SExp, rest: multiset<Ref>)
    requires p in v && v[p].VCons?
    ensures One(p) + (Cells(v, v[p].car, a) + (Cells(v, v[p].cdr, d) + rest)) == Cells(v, p, Cons(a, d)) + rest
  {
    Regroup(One(p) + Cells(v, v[p].car, a), Cells(v, v[p].cdr, d), rest);
    Regroup(One(p), Cells(v, v[p].car, a), Cells(v, v[p].cdr, d) + rest);
  }

  lemma RepPair(v: Store, b: set<Ref>, p: Ref, a: SExp, d: SExp)
    requires p > TRUE && p in v && v[p].VCons? && p !in b && Rep(v, b, v[p].car, a) && Rep(v, b, v[p].cdr, d)
    ensures Rep(v, b, p, Cons(a, d))
  {
  }

  // The finished cell is the root of a tree.
  ghost method Finish(s: Instance, p: Ref, a: SExp, d: SExp, rest: multiset<Ref>)
    requires p in s.building && p in s.value && s.value[p].VCons? && p > TRUE
    requires Tree(s, s.value[p].car, a) && Tree(s, s.value[p].cdr, d)
    requires Owns(s, One(p) + (At(s, s.value[p].car, a) + (At(s, s.value[p].cdr, d) + rest)))
    modifies s`building
    ensures s.building == old(s.building) - {p}
    ensures Tree(s, p, Cons(a, d)) && Owns(s, At(s, p, Cons(a, d)) + rest)
  {
    hide VarsRep, VarCells, ListsOk, AtomsOk, PoolOk, Total, Rep, Cells;
    ghost var x, y, b := s.value[p].car, s.value[p].cdr, s.building - {p};
    RepRebuild(s.value, s.building, b, x, a);
    RepRebuild(s.value, s.building, b, y, d);
    VarsRebuild(s.value, s.building, b, s.vars, s.env);
    s.building := b;
    PairCells(s.value, p, a, d, rest);
    RepPair(s.value, b, p, a, d);
  }

  // What an atom's object holds.
  function LeafOf(e: SExp): Val
    requires e.Int? || e.Id? || e.Str?
  {
    match e case Int(i) => VInt(i) case Id(id) => VId(id) case Str(t) => VStr(t)
  }

  // new_integer, new_identifier, new_string
  method NewLeaf(s: Instance, e: SExp, ghost rest: multiset<Ref>) returns (p: Ref)
    requires Owns(s, rest) && (e.Int? || e.Id? || e.Str?)
    modifies s
    ensures Tree(s, p, e) && Owns(s, At(s, p, e) + rest) && Kept(s, rest)
  {
    hide VarsRep, VarCells, Instance.Valid;
    ghost var all := VarCells(s.value, s.vars, s.env);
    p := s.NewAtom(LeafOf(e), all + rest);
    VarsFrame(old(s.value), s.value, s.building, s.vars, s.env, all + rest);
    assert all + (One(p) + rest) == all + rest + multiset{p};
  }

  // The trees in an array of owned references; a NULL entry owns nothing.
  ghost function SeqCells(value: Store, ps: seq<Ref>, es: seq<SExp>): multiset<Ref>
    requires |ps| == |es|
  {
    if ps == [] then multiset{}
    else Cells(value, ps[0], es[0]) + SeqCells(value, ps[1..], es[1..])
  }

  ghost predicate SeqRep(value: Store, building: set<Ref>, ps: seq<Ref>, es: seq<SExp>) {
    |ps| == |es| &&
    forall i :: 0 <= i < |ps| ==>
      if ps[i] == NULL then es[i] == Nil else Rep(value, building, ps[i], es[i])
  }

  lemma {:induction false} SeqAppend(value: Store, ps: seq<Ref>, es: seq<SExp>, p: Ref, e: SExp)
    requires |ps| == |es|
    ensures SeqCells(value, ps + [p], es + [e]) == SeqCells(value, ps, es) + Cells(value, p, e)
  {
    hide Cells;
    if ps != [] {
      assert (ps + [p])[1..] == ps[1..] + [p] && (es + [e])[1..] == es[1..] + [e];
      SeqAppend(value, ps[1..], es[1..], p, e);
    }
  }

  lemma {:induction false} SeqFrame(v: Store, w: Store, b: set<Ref>, ps: seq<Ref>, es: seq<SExp>,
                                    owned: multiset<Ref>)
    requires SeqRep(v, b, ps, es) && SameOn(v, w, owned) && SeqCells(v, ps, es) <= owned
    ensures SeqRep(w, b, ps, es) && SeqCells(w, ps, es) == SeqCells(v, ps, es)
  {
    hide Rep, Cells, SameOn;
    if ps != [] {
      if ps[0] != NULL {
        RepFrame(v, w, b, ps[0], es[0], owned);
      } else {
        NullCells(v);
        NullCells(w);
      }
      SeqFrame(v, w, b, ps[1..], es[1..], owned);
      assert SeqRep(w, b, ps, es) by {
        forall i | 0 <= i < |ps|
          ensures if ps[i] == NULL then es[i] == Nil else Rep(w, b, ps[i], es[i])
        {
          if i > 0 { assert ps[1..][i-1] == ps[i] && es[1..][i-1] == es[i]; }
        }
      }
    }
  }

  lemma NullCells(v: Store)
    ensures Cells(v, NULL, Nil) == multiset{}
  {
  }

  lemma {:induction false} SeqMember(value: Store, ps: seq<Ref>, es: seq<SExp>, i: nat)
    requires |ps| == |es| && i < |ps|
    ensures Cells(value, ps[i], es[i]) <= SeqCells(value, ps, es)
  {
    hide Cells;
    if i > 0 {
      SeqMember(value, ps[1..], es[1..], i - 1);
    }
  }

  // The list of `es` with the tail `t`.
  function ListOf(es: seq<SExp>, t: SExp): SExp {
    if es == [] then t else ListOf(es[..|es|-1], Cons(es[|es|-1], t))
  }

  lemma {:induction false} ElementsOfList(es: seq<SExp>, t: SExp)
    ensures Elements(ListOf(es, t)) == es + Elements(t)
  {
    if es == [] {
      assert es + Elements(t) == Elements(t);
    } else {
      var n := |es| - 1;
      ElementsOfList(es[..n], Cons(es[n], t));
      assert es[..n] + ([es[n]] + Elements(t)) == es + Elements(t);
    }
  }

  // Conses under construction, each linked to the next one; the cdr of the last
  // one is `end`.
  ghost predicate Linked(v: Store, b: set<Ref>, cs: seq<Ref>, es: seq<SExp>, end: Ref) {
    && |cs| == |es| && NoDup(cs)
    && (forall i :: 0 <= i < |cs| ==>
         && cs[i] > TRUE && cs[i] in b && cs[i] in v && v[cs[i]].VCons?
         && Rep(v, b, v[cs[i]].car, es[i]))
    && (forall i :: 0 <= i < |cs| - 1 ==> v[cs[i]].cdr == cs[i+1])
    && (cs != [] ==> v[cs[|cs|-1]].cdr == end)
  }

  ghost function CarIn(v: Store, p: Ref): Ref {
    if p in v && v[p].VCons? then v[p].car else NIL
  }

  ghost function LinkCells(v: Store, cs: seq<Ref>, es: seq<SExp>): multiset<Ref>
    requires |cs| == |es|
  {
    if cs == [] then multiset{} else
    var n := |cs| - 1;
    LinkCells(v, cs[..n], es[..n]) + (One(cs[n]) + Cells(v, CarIn(v, cs[n]), es[n]))
  }

  lemma NoLinks(v: Store, b: set<Ref>)
    ensures Linked(v, b, [], [], NIL) && LinkCells(v, [], []) == multiset{}
  {
  }

  // Attaching the next cons to the end of a chain.
  lemma LinkAppend(v: Store, b: set<Ref>, cs: seq<Ref>, es: seq<SExp>, p: Ref, e: SExp)
    requires Linked(v, b, cs, es, p) && p !in cs
    requires p > TRUE && p in b && p in v && v[p].VCons? && Rep(v, b, v[p].car, e)
    ensures Linked(v, b, cs + [p], es + [e], v[p].cdr)
    ensures LinkCells(v, cs + [p], es + [e])
         == LinkCells(v, cs, es) + (One(p) + Cells(v, v[p].car, e))
  {
    hide Rep, Cells;
    assert (cs + [p])[..|cs|] == cs && (es + [e])[..|cs|] == es;
  }

  lemma LinkRebuild(v: Store, b: set<Ref>, b': set<Ref>, cs: seq<Ref>, es: seq<SExp>, end: Ref)
    requires Linked(v, b, cs, es, end) && b <= b'
    requires forall o :: o in LinkCells(v, cs, es) && o in b' ==> o in b
    ensures Linked(v, b', cs, es, end)
  {
    hide Rep, Cells, LinkCells;
    forall i | 0 <= i < |cs| ensures Rep(v, b', v[cs[i]].car, es[i]) {
      LinkMember(v, cs, es, i);
      RepRebuild(v, b, b', v[cs[i]].car, es[i]);
    }
  }

  lemma {:induction false} LinkMember(v: Store, cs: seq<Ref>, es: seq<SExp>, i: nat)
    requires |cs| == |es| && i < |cs|
    ensures One(cs[i]) + Cells(v, CarIn(v, cs[i]), es[i]) <= LinkCells(v, cs, es)
  {
    hide Cells;
    if i < |cs| - 1 {
      LinkMember(v, cs[..|cs|-1], es[..|cs|-1], i);
    }
  }

  lemma {:induction false} LinkSame(v: Store, w: Store, cs: seq<Ref>, es: seq<SExp>)
    requires |cs| == |es|
    requires forall i :: 0 <= i < |cs| ==>
      Cells(v, CarIn(v, cs[i]), es[i]) == Cells(w, CarIn(w, cs[i]), es[i])
    ensures LinkCells(w, cs, es) == LinkCells(v, cs, es)
  {
    hide Cells, CarIn;
    if cs != [] {
      var n := |cs| - 1;
      LinkSame(v, w, cs[..n], es[..n]);
      assert Cells(v, CarIn(v, cs[n]), es[n]) == Cells(w, CarIn(w, cs[n]), es[n]);
    }
  }

  // Neither other activities ...
  lemma LinkFrame(v: Store, w: Store, b: set<Ref>, cs: seq<Ref>, es: seq<SExp>, end: Ref,
                  owned: multiset<Ref>)
    requires Linked(v, b, cs, es, end) && SameOn(v, w, owned) && LinkCells(v, cs, es) <= owned
    ensures Linked(w, b, cs, es, end) && LinkCells(w, cs, es) == LinkCells(v, cs, es)
  {
    hide Rep, Cells, LinkCells;
    forall i | 0 <= i < |cs|
      ensures cs[i] in w && w[cs[i]] == v[cs[i]] && Rep(w, b, v[cs[i]].car, es[i])
      ensures Cells(v, CarIn(v, cs[i]), es[i]) == Cells(w, CarIn(w, cs[i]), es[i])
    {
      LinkMember(v, cs, es, i);
      assert One(cs[i])[cs[i]] == 1;
      assert cs[i] in owned;
      RepFrame(v, w, b, v[cs[i]].car, es[i], owned);
    }
    LinkSame(v, w, cs, es);
  }

  // ... nor stores into the cdr of the last cons change what a chain owns.
  lemma LinkStore(v: Store, b: set<Ref>, cs: seq<Ref>, es: seq<SExp>, end: Ref, end': Ref)
    requires Linked(v, b, cs, es, end) && cs != []
    ensures var o := cs[|cs|-1]; var w := v[o := VCons(v[o].car, end')];
      Linked(w, b, cs, es, end') && LinkCells(w, cs, es) == LinkCells(v, cs, es)
  {
    hide Rep, Cells, LinkCells;
    var o := cs[|cs|-1];
    var w := v[o := VCons(v[o].car, end')];
    forall i | 0 <= i < |cs|
      ensures Rep(w, b, v[cs[i]].car, es[i])
      ensures Cells(v, CarIn(v, cs[i]), es[i]) == Cells(w, CarIn(w, cs[i]), es[i])
    {
      RepStore(v, b, o, VCons(v[o].car, end'), v[cs[i]].car, es[i]);
    }
    LinkSame(v, w, cs, es);
  }

  lemma LinkOther(v: Store, b: set<Ref>, cs: seq<Ref>, es: seq<SExp>, end: Ref, o: Ref, c: Val)
    requires Linked(v, b, cs, es, end) && o !in cs && o in b && o in v && v[o].VCons? && c.VCons?
    ensures Linked(v[o := c], b, cs, es, end) && LinkCells(v[o := c], cs, es) == LinkCells(v, cs, es)
  {
    hide Rep, Cells, LinkCells;
    var w := v[o := c];
    forall i | 0 <= i < |cs|
      ensures Rep(w, b, v[cs[i]].car, es[i])
      ensures Cells(v, CarIn(v, cs[i]), es[i]) == Cells(w, CarIn(w, cs[i]), es[i])
    {
      RepStore(v, b, o, c, v[cs[i]].car, es[i]);
    }
    LinkSame(v, w, cs, es);
  }

  lemma LastLink(v: Store, cs: seq<Ref>, es: seq<SExp>)
    requires |cs| == |es| > 0
    ensures var n := |cs| - 1;
      LinkCells(v, cs, es) == LinkCells(v, cs[..n], es[..n]) + (One(cs[n]) + Cells(v, CarIn(v, cs[n]), es[n]))
  {
  }

  lemma ChainSum(others: multiset<Ref>, one: multiset<Ref>, c: multiset<Ref>, tail: multiset<Ref>,
                 rest: multiset<Ref>)
    ensures others + (one + c) + (tail + rest) == one + (c + (tail + (others + rest)))
  {
  }

  // The last cons of a chain is finished; the one before it is the last one now.
  ghost method FinishLast(s: Instance, cs: seq<Ref>, es: seq<SExp>, end: Ref, t: SExp, rest: multiset<Ref>)
    requires cs != [] && Linked(s.value, s.building, cs, es, end) && Tree(s, end, t)
    requires Owns(s, LinkCells(s.value, cs, es) + (At(s, end, t) + rest))
    modifies s`building
    ensures var n := |cs| - 1;
      && s.building == old(s.building) - {cs[n]} && Linked(s.value, s.building, cs[..n], es[..n], cs[n])
      && Tree(s, cs[n], Cons(es[n], t))
      && Owns(s, LinkCells(s.value, cs[..n], es[..n]) + (At(s, cs[n], Cons(es[n], t)) + rest))
  {
    hide Balanced, Rep, Cells, LinkCells;
    var n := |cs| - 1;
    var p, e, others := cs[n], es[n], LinkCells(s.value, cs[..n], es[..n]);
    LastLink(s.value, cs, es);
    ChainSum(others, One(p), At(s, s.value[p].car, e), At(s, end, t), rest);
    var b := s.building;
    Finish(s, p, e, t, others + rest);
    Swap(At(s, p, Cons(e, t)), others, rest);
    Unlinked(s.value, b, s.building, cs, es, end);
  }

  lemma Unlinked(v: Store, b: set<Ref>, b': set<Ref>, cs: seq<Ref>, es: seq<SExp>, end: Ref)
    requires cs != [] && Linked(v, b, cs, es, end) && b' == b - {cs[|cs|-1]}
    ensures var n := |cs| - 1; Linked(v, b', cs[..n], es[..n], cs[n])
  {
    hide Rep;
    forall i | 0 <= i < |cs| - 1 ensures Rep(v, b', v[cs[i]].car, es[i]) {
      RepRebuild(v, b, b', v[cs[i]].car, es[i]);
    }
  }

  // Finishing a whole chain whose last cdr is already a tree.
  ghost method FinishAll(s: Instance, cs: seq<Ref>, es: seq<SExp>, end: Ref, t: SExp,
                         rest: multiset<Ref>)
    returns (first: Ref)
    requires Linked(s.value, s.building, cs, es, end) && Tree(s, end, t)
    requires Owns(s, LinkCells(s.value, cs, es) + (At(s, end, t) + rest))
    modifies s`building
    ensures s.building == old(s.building) - ToSet(cs)
    ensures first == if cs == [] then end else cs[0]
    ensures Tree(s, first, ListOf(es, t)) && Owns(s, At(s, first, ListOf(es, t)) + rest)
  {
    hide Balanced, Rep, Cells, LinkCells, Linked;
    SameLength(s.value, s.building, cs, es, end);
    if cs == [] {
      NoLinks(s.value, s.building);
      assert LinkCells(s.value, cs, es) + (At(s, end, t) + rest) == At(s, end, t) + rest;
      return end;
    }
    var n := |cs| - 1;
    FinishLast(s, cs, es, end, t, rest);
    first := FinishAll(s, cs[..n], es[..n], cs[n], Cons(es[n], t), rest);
    assert cs == cs[..n] + [cs[n]];
  }

  lemma SameLength(v: Store, b: set<Ref>, cs: seq<Ref>, es: seq<SExp>, end: Ref)
    requires Linked(v, b, cs, es, end)
    ensures |cs| == |es|
  {
  }
}
