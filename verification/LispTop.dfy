// alsa_lisp and alsa_lisp_free: whole runs of the interpreter.

module LispTop {
  import opened LispSyntax
  import opened LispMemory
  import opened LispEval
  import opened LispOwnership
  import opened LispTrees
  import opened LispLexer
  import opened LispDump
  import LispText
  import LispInterp
  import LispReader

  // The loop of alsa_lisp. Between two forms the variables are the only owners.
  method RunForms(s: Instance, lex: Lexer, ghost fuel: nat)
    requires lex.Valid() && Owns(s, multiset{}) && RunText(fuel, s.env, lex.Rest()).Done?
    modifies s, lex
    ensures Owns(s, multiset{}) && s.building == old(s.building)
    ensures s.env == RunText(fuel, old(s.env), old(lex.Rest())).env
  {
    hide Balanced, Rep, Cells, LispText.Parse, Eval, Lexer.Rest, Lexer.Valid;
    ghost var whole := RunText(fuel, s.env, lex.Rest());
    while true
      invariant lex.Valid() && Owns(s, multiset{}) && s.building == old(s.building)
      invariant var o := RunText(fuel, s.env, lex.Rest()); o.Done? && o.env == whole.env
      decreases |lex.Rest()|
    {
      ghost var form := LispText.Parse(lex.Rest());
      var p := LispReader.ParseObject(s, lex, multiset{});
      if p == NULL {
        return;
      }
      ghost var o := Eval(fuel, s.env, form.e);
      var p1 := LispInterp.Eval(s, p, form.e, multiset{}, fuel);
      DropTree(s, p1, o.val, multiset{});
    }
  }

  // alsa_lisp
  method AlsaLisp(text: string, ghost fuel: nat) returns (s: Instance)
    requires RunText(fuel, map[], text).Done?
    ensures fresh(s) && Owns(s, multiset{}) && s.building == {}
    ensures s.env == RunText(fuel, map[], text).env
  {
    hide RunText, Lexer.Rest, Lexer.Valid;
    s := new Instance();
    var lex := new Lexer(text);
    StartsOwning(s);
    RunForms(s, lex, fuel);
  }

  lemma StartsOwning(s: Instance)
    requires s.Valid() && s.Ledger(multiset{}) && s.vars == map[] && s.env == map[]
    ensures Owns(s, multiset{})
  {
    hide Instance.Valid;
    assert Trees(s.value, s.vars, s.env) == map[];
    assert VarCells(s.value, s.vars, s.env) + multiset{} == multiset{};
  }

  lemma NoMembers(list: seq<Ref>)
    ensures list == [] || exists o :: o in list
  {
    if list != [] { assert list[0] in list; }
  }

  lemma NothingUsed(value: map<Ref, Val>, refs: map<Ref, nat>, used: seq<seq<Ref>>)
    requires ListsOk(value, refs, used) && forall o :: CountOf(refs, o) == 0
    ensures |used| == SLOTS && forall i :: 0 <= i < SLOTS ==> used[i] == []
    ensures Total(used) == 0
  {
    forall i | 0 <= i < SLOTS ensures used[i] == [] {
      assert forall o :: o in used[i] ==> CountOf(refs, o) != 0;
      NoMembers(used[i]);
    }
    TotalZero(used);
  }

  // The first loop of free_objects: gives up every variable.
  method FreeVariables(s: Instance)
    requires Owns(s, multiset{})
    modifies s
    ensures Owns(s, multiset{}) && s.vars == map[] && s.env == map[]
  {
    hide Balanced, Rep, Cells, VarCells;
    while s.vars != map[]
      invariant Owns(s, multiset{})
      decreases |s.vars|
    {
      var name :| name in s.vars;
      var p := s.vars[name];
      ghost var e := Lookup(s.env, name);
      ghost var n := |s.vars|;
      TakeVariable(s, s.vars, s.env, name, multiset{});
      s.vars, s.env := s.vars - {name}, s.env - {name};
      DropTree(s, p, e, multiset{});
    }
    LispInterp.SameNames(s, multiset{});
  }

  // free_objects: after a run, giving up the variables leaves no object that is
  // still referenced (`leaked` counts those it would warn about), and every object
  // goes back to malloc.
  method FreeObjects(s: Instance) returns (leaked: nat)
    requires Owns(s, multiset{})
    modifies s
    ensures leaked == 0 && s.usedObjs == 0 && s.value == map[] && s.refs == map[] && s.vars == map[]
  {
    hide ListsOk, AtomsOk, PoolOk, Slot, Total;
    FreeVariables(s);
    assert Trees(s.value, s.vars, s.env) == map[];
    assert forall o :: CountOf(s.refs, o) == 0;
    NothingUsed(s.value, s.refs, s.used);
    leaked := 0;
    for i := 0 to SLOTS
      invariant leaked == 0
    {
      leaked := leaked + |s.used[i]|;
    }
    FreePool(s);
  }

  // The last loop of free_objects.
  method FreePool(s: Instance)
    requires s.value.Keys == s.refs.Keys && PoolOk(s.refs, s.freeList)
    requires forall o :: CountOf(s.refs, o) == 0
    modifies s`value, s`refs, s`freeList
    ensures s.value == map[] && s.refs == map[]
  {
    while s.freeList != []
      invariant s.value.Keys == s.refs.Keys && PoolOk(s.refs, s.freeList)
      invariant forall o :: CountOf(s.refs, o) == 0
      decreases |s.freeList|
    {
      var p := s.freeList[0];
      assert p in s.freeList && p !in s.freeList[1..];
      assert forall o :: CountOf(s.refs - {p}, o) == 0 <== CountOf(s.refs, o) == 0;
      s.freeList := s.freeList[1..];
      s.value, s.refs := s.value - {p}, s.refs - {p};
    }
    AllPooled(s.refs, s.freeList);
  }

  lemma AllPooled(refs: map<Ref, nat>, pool: seq<Ref>)
    requires PoolOk(refs, pool) && forall o :: CountOf(refs, o) == 0
    ensures forall o :: o in refs ==> o in pool
  {
    forall o | o in refs ensures o in pool {
      assert CountOf(refs, o) == 0;
    }
  }
}
