// Copying a tree, and expanding its `$` references: snd_config_walk in src/conf.c with
// _snd_config_copy and with _snd_config_expand.

module ConfExpand {
  import opened ConfText
  import opened ConfTree
  import opened ConfSearch
  import opened ConfHeap

  // ---- what expanding means ----

  predicate IsReference(n: Node) {
    n.Str? && n.s != "" && n.s[0] == '$'
  }

  // A `$x` is replaced by the value of x, or dropped if there is none; compounds called
  // `@args` are dropped.
  function Expand(vars: Node, id: Option<string>, n: Node): Option<Node>
    decreases n
  {
    if n.Compound? then
      if id == Some("@args") then None else Some(Compound(n.join, ExpandAll(vars, n.fields)))
    else if IsReference(n) then Find(vars, Split(n.s[1..]))
    else Some(n)
  }

  function ExpandAll(vars: Node, fields: Fields): Fields
    decreases fields
  {
    if fields == [] then []
    else
      var rest := ExpandAll(vars, fields[1..]);
      match Expand(vars, Some(fields[0].id), fields[0].node)
      case None => rest
      case Some(n) => [Field(fields[0].id, n)] + rest
  }

  lemma {:induction false} ExpandedIds(vars: Node, fields: Fields, f: Field)
    requires f in ExpandAll(vars, fields)
    ensures exists g :: g in fields && g.id == f.id && Expand(vars, Some(g.id), g.node) == Some(f.node)
    decreases fields
  {
    hide Expand;
    if Expand(vars, Some(fields[0].id), fields[0].node) == Some(f.node) && f.id == fields[0].id {
      assert fields[0] in fields;
    } else {
      ExpandedIds(vars, fields[1..], f);
      assert forall g :: g in fields[1..] ==> g in fields;
    }
  }

  lemma {:induction false} ExpandedUnique(vars: Node, fields: Fields)
    requires UniqueIds(fields)
    ensures UniqueIds(ExpandAll(vars, fields))
    decreases fields
  {
    hide Expand;
    if fields != [] {
      ExpandedUnique(vars, fields[1..]);
      var rest := ExpandAll(vars, fields[1..]);
      forall i | 0 <= i < |rest| ensures rest[i].id != fields[0].id {
        ExpandedIds(vars, fields[1..], rest[i]);
      }
    }
  }

  lemma {:induction false} FoundWellFormed(node: Node, path: seq<string>)
    requires WellFormed(node)
    ensures Find(node, path).Some? ==> WellFormed(Find(node, path).value)
    decreases path
  {
    hide Child;
    if path != [] && node.Compound? && Child(node.fields, path[0]).Some? {
      ChildIn(node.fields, path[0]);
      FoundWellFormed(Child(node.fields, path[0]).value, path[1..]);
    }
  }

  lemma ChildIn(fields: Fields, id: string)
    requires Child(fields, id).Some?
    ensures Field(id, Child(fields, id).value) in fields
  {
  }

  // Ids stay unique among siblings, at all depths.
  lemma {:induction false} ExpandWellFormed(vars: Node, id: Option<string>, n: Node)
    requires WellFormed(vars) && WellFormed(n)
    ensures Expand(vars, id, n).Some? ==> WellFormed(Expand(vars, id, n).value)
    decreases n
  {
    if n.Compound? {
      AllExpandWellFormed(vars, n.fields);
    } else if IsReference(n) {
      FoundWellFormed(vars, Split(n.s[1..]));
    }
  }

  lemma {:induction false} AllExpandWellFormed(vars: Node, fields: Fields)
    requires WellFormed(vars) && AllWellFormed(fields)
    ensures AllWellFormed(ExpandAll(vars, fields))
    decreases fields
  {
    hide Expand;
    if fields != [] {
      assert fields[0] in fields && forall f :: f in fields[1..] ==> f in fields;
      ExpandWellFormed(vars, Some(fields[0].id), fields[0].node);
      AllExpandWellFormed(vars, fields[1..]);
      ExpandedUnique(vars, fields);
    }
  }

  // Neither references nor `@args` anywhere.
  predicate HasNoArguments(id: Option<string>, n: Node)
    decreases n
  {
    if n.Compound? then
      id != Some("@args") && forall f :: f in n.fields ==> HasNoArguments(Some(f.id), f.node)
    else !IsReference(n)
  }

  // Then expanding is copying.
  lemma {:induction false} ExpandNothing(vars: Node, id: Option<string>, n: Node)
    requires HasNoArguments(id, n)
    ensures Expand(vars, id, n) == Some(n)
    decreases n
  {
    if n.Compound? {
      AllExpandNothing(vars, n.fields);
    }
  }

  lemma {:induction false} AllExpandNothing(vars: Node, fields: Fields)
    requires forall f :: f in fields ==> HasNoArguments(Some(f.id), f.node)
    ensures ExpandAll(vars, fields) == fields
    decreases fields
  {
    hide Expand;
    if fields != [] {
      assert fields[0] in fields && forall f :: f in fields[1..] ==> f in fields;
      ExpandNothing(vars, Some(fields[0].id), fields[0].node);
      AllExpandNothing(vars, fields[1..]);
      assert fields == [fields[0]] + fields[1..];
    }
  }

  // The children by name: those of the result are those of the source, expanded.
  lemma {:induction false} ExpandedChild(vars: Node, fields: Fields, id: string)
    requires UniqueIds(fields)
    ensures Child(ExpandAll(vars, fields), id) ==
      match Child(fields, id)
      case None => None
      case Some(n) => Expand(vars, Some(id), n)
    decreases fields
  {
    hide Expand;
    if fields != [] {
      var rest := ExpandAll(vars, fields[1..]);
      ExpandedChild(vars, fields[1..], id);
      ChildFirst(fields, id);
      match Expand(vars, Some(fields[0].id), fields[0].node)
      case None =>
        if fields[0].id == id {
          assert forall i :: 0 <= i < |fields[1..]| ==> fields[1..][i].id == fields[i+1].id;
          ChildNone(fields[1..], id);
        }
      case Some(n) =>
        ChildFirst([Field(fields[0].id, n)] + rest, id);
        assert ([Field(fields[0].id, n)] + rest)[1..] == rest;
    }
  }

  lemma ChildNone(fields: Fields, id: string)
    requires forall f :: f in fields ==> f.id != id
    ensures Child(fields, id) == None
  {
  }

  lemma ChildFirst(fields: Fields, id: string)
    requires fields != []
    ensures Child(fields, id) == if fields[0].id == id then Some(fields[0].node) else Child(fields[1..], id)
  {
  }

  // Expansion is substitution, seen from every leaf: the node at a path that avoids
  // `@args` is the value of the reference that the source has there, if it has one, and
  // the source's own leaf otherwise.
  lemma {:induction false} ExpandAt(vars: Node, id: Option<string>, n: Node, path: seq<string>)
    requires WellFormed(n) && id != Some("@args") && "@args" !in path
    requires Find(n, path).Some? && !Find(n, path).value.Compound?
    ensures var leaf := Find(n, path).value;
      var r := Expand(vars, id, n);
      (if r.None? then None else Find(r.value, path))
        == if IsReference(leaf) then Find(vars, Split(leaf.s[1..])) else Some(leaf)
    decreases path
  {
    if path != [] {
      assert path[0] in path && forall p :: p in path[1..] ==> p in path;
      ExpandedChild(vars, n.fields, path[0]);
      ChildIn(n.fields, path[0]);
      ExpandAt(vars, Some(path[0]), Child(n.fields, path[0]).value, path[1..]);
    }
  }

  // ---- walking the nodes ----

  // Id, value and children of every node of `s` are the same in `s'`.
  ghost predicate Keeps(s: Snap, s': Snap) {
    forall n :: n in s ==> n in s' && s'[n].(parent := null) == s[n].(parent := null)
  }

  lemma {:induction false} RepKeeps(s: Snap, s': Snap, n: Config, t: Node)
    requires Rep(s, n, t) && Keeps(s, s')
    ensures Rep(s', n, t)
    decreases t
  {
    if t.Compound? { AllRepKeeps(s, s', s[n].children, t.fields); }
  }

  lemma {:induction false} AllRepKeeps(s: Snap, s': Snap, cs: seq<Config>, fs: Fields)
    requires AllRep(s, cs, fs) && Keeps(s, s')
    ensures AllRep(s', cs, fs)
    decreases fs
  {
    if fs != [] {
      RepKeeps(s, s', cs[0], fs[0].node);
      AllRepKeeps(s, s', cs[1..], fs[1..]);
    }
  }

  lemma RepParts(s: Snap, n: Config, t: Node)
    requires Rep(s, n, t)
    ensures n in s && s[n].value.Compound? == t.Compound?
    ensures t.Compound? ==> AllRep(s, s[n].children, t.fields)
  {
  }

  // _snd_config_search, and the loop of snd_config_search over the components of a key
  method SearchNode(config: Config, path: seq<string>, ghost t: Node, ghost nodes: set<Config>)
    returns (r: Config?)
    requires Rep(Now(nodes), config, t)
    ensures match Find(t, path)
      case None => r == null
      case Some(u) => r != null && Rep(Now(nodes), r, u)
    decreases path
  {
    hide Rep, AllRep;
    if path == [] {
      return config;
    }
    RepParts(Now(nodes), config, t);
    if !config.value.Compound? {
      return null;
    }
    AllRepIds(Now(nodes), config.children, t.fields);
    for i := 0 to |config.children|
      invariant forall j :: 0 <= j < i ==> t.fields[j].id != path[0]
    {
      if config.children[i].id == Some(path[0]) {
        assert Search(t.fields, path[0]) == Some(i) by { SearchAt(t.fields, i); }
        AllRepAt(Now(nodes), config.children, t.fields, i);
        r := SearchNode(config.children[i], path[1..], t.fields[i].node, nodes);
        return;
      }
    }
    return null;
  }

  // The two callbacks.
  datatype Callback = CopyNodes | ExpandWith(vars: Config)

  // What the walk makes of a node.
  function Walked(expand: bool, vars: Node, id: Option<string>, n: Node): Option<Node> {
    if expand then Expand(vars, id, n) else Some(n)
  }

  function AllWalked(expand: bool, vars: Node, fields: Fields): Fields {
    if expand then ExpandAll(vars, fields) else fields
  }

  // New nodes that form a tree of their own.
  ghost predicate NewTree(made: set<Config>, dst: Config, id: Option<string>, t: Node)
    reads made
  {
    && dst in made && dst.id == id && dst.parent == null
    && Forest(Now(made)) && Rep(Now(made), dst, t)
  }

  lemma ExpandCases(vars: Node, id: Option<string>, n: Node)
    ensures Expand(vars, id, n) ==
      if n.Compound? then
        if id == Some("@args") then None else Some(Compound(n.join, ExpandAll(vars, n.fields)))
      else if IsReference(n) then Find(vars, Split(n.s[1..]))
      else Some(n)
  {
    hide ExpandAll, Find, Split;
  }

  lemma SingleForest(dst: Config)
    requires dst.parent == null && dst.children == []
    ensures Forest(Now({dst}))
  {
  }

  lemma NothingWalked(expand: bool, vars: Node)
    ensures AllWalked(expand, vars, []) == []
  {
  }

  // snd_config_walk. The source is not modified, and no node of the result existed before.
  method Walk(src: Config, cb: Callback, ghost t: Node, ghost vars: Node, ghost nodes: set<Config>)
    returns (dst: Config?, ghost made: set<Config>)
    requires Rep(Now(nodes), src, t) && WellFormed(t)
    requires cb.ExpandWith? ==> Rep(Now(nodes), cb.vars, vars) && WellFormed(vars)
    ensures fresh(made)
    ensures match Walked(cb.ExpandWith?, vars, src.id, t)
      case None => dst == null
      case Some(u) => dst != null && NewTree(made, dst, src.id, u)
    decreases cb.ExpandWith?, t, 1
  {
    hide AllRep, Forest, Expand, Find, AllWellFormed;
    assert src in nodes && src.value.Compound? == t.Compound? && (!t.Compound? ==> src.value == t);
    if src.value.Compound? {
      if cb.ExpandWith? && src.id == Some("@args") {
        ExpandCases(vars, src.id, t);
        return null, {};
      }
      dst, made := WalkCompound(src, cb, t, vars, nodes);
      ExpandCases(vars, src.id, t);
    } else if cb.ExpandWith? && src.value.Str? && src.value.s != "" && src.value.s[0] == '$' {
      ExpandCases(vars, src.id, t);
      ghost var found := Find(vars, Split(t.s[1..]));
      var val := SearchNode(cb.vars, Split(src.value.s[1..]), vars, nodes);
      if val == null {
        return null, {};
      }
      FoundWellFormed(vars, Split(t.s[1..]));
      dst, made := Walk(val, CopyNodes, found.value, vars, nodes);
      SetId(dst, src.id, made, found.value);
    } else {
      ExpandCases(vars, src.id, t);
      dst := new Config(src.id, src.value);
      made := {dst};
      SingleForest(dst);
    }
  }

  // snd_config_set_id on a top node
  method SetId(dst: Config, id: Option<string>, ghost made: set<Config>, ghost t: Node)
    requires NewTree(made, dst, dst.id, t)
    modifies dst`id
    ensures NewTree(made, dst, id, t)
  {
    hide AllRep;
    ghost var s := Now(made);
    dst.id := id;
    RootRenamed(s, Now(made), dst, t);
  }

  lemma NodeRenamed(s: Snap, s': Snap, n: Config)
    requires n in s && NodeOk(s, n) && s'.Keys == s.Keys
    requires forall m :: m in s ==> s'[m].(id := None) == s[m].(id := None)
    ensures NodeOk(s', n)
  {
    assert s'[n].(id := None) == s[n].(id := None);
  }

  lemma RootRenamed(s: Snap, s': Snap, dst: Config, t: Node)
    requires Forest(s) && Rep(s, dst, t) && dst in s && s[dst].parent == null
    requires s'.Keys == s.Keys && s'[dst].(id := None) == s[dst].(id := None)
    requires forall n :: n in s && n != dst ==> s'[n] == s[n]
    ensures Forest(s') && Rep(s', dst, t)
  {
    hide Rep, AllRep;
    assert forall n :: n in s ==> s'[n].(id := None) == s[n].(id := None);
    forall n | n in s' ensures NodeOk(s', n) {
      NodeRenamed(s, s', n);
    }
    RepRenamed(s, s', dst, t);
  }

  lemma RepRenamed(s: Snap, s': Snap, dst: Config, t: Node)
    requires Forest(s) && Rep(s, dst, t) && dst in s && s[dst].parent == null
    requires s'.Keys == s.Keys && s'[dst].(id := None) == s[dst].(id := None)
    requires forall n :: n in s && n != dst ==> s'[n] == s[n]
    ensures Rep(s', dst, t)
  {
    if t.Compound? {
      assert NodeOk(s, dst);
      AllRepRenamed(s, s', dst, s[dst].children, t.fields);
    }
  }

  // A node without a parent is no child, so its id does not matter below.
  lemma {:induction false} AllRepRenamed(s: Snap, s': Snap, dst: Config, cs: seq<Config>, fs: Fields)
    requires Forest(s) && dst in s && s[dst].parent == null
    requires s'.Keys == s.Keys && s'[dst].(id := None) == s[dst].(id := None)
    requires forall n :: n in s && n != dst ==> s'[n] == s[n]
    requires AllRep(s, cs, fs) && forall i :: 0 <= i < |cs| ==> cs[i] in s && s[cs[i]].parent != null
    ensures AllRep(s', cs, fs)
    decreases fs
  {
    if fs != [] {
      AllRepRenamed(s, s', dst, cs[1..], fs[1..]);
      if fs[0].node.Compound? {
        assert NodeOk(s, cs[0]);
        AllRepRenamed(s, s', dst, s[cs[0]].children, fs[0].node.fields);
      }
    }
  }

  lemma {:induction false} WalkedAppend(expand: bool, vars: Node, fields: Fields, f: Field)
    ensures AllWalked(expand, vars, fields + [f]) == AllWalked(expand, vars, fields)
      + match Walked(expand, vars, Some(f.id), f.node) case None => [] case Some(n) => [Field(f.id, n)]
    decreases fields
  {
    hide Expand;
    if expand {
      if fields == [] {
        assert [f][1..] == [];
        assert ExpandAll(vars, [f][1..]) == [];
        assert [] + [f] == [f];
      } else {
        assert (fields + [f])[1..] == fields[1..] + [f];
        WalkedAppend(expand, vars, fields[1..], f);
      }
    }
  }

  // Two forests side by side.
  lemma UnionForest(a: set<Config>, b: set<Config>)
    requires a !! b && Forest(Now(a)) && Forest(Now(b))
    ensures Forest(Now(a + b))
  {
    forall n | n in a + b ensures NodeOk(Now(a + b), n) {
      if n in a { assert NodeOk(Now(a), n); } else { assert NodeOk(Now(b), n); }
    }
  }

  // A compound in the making: `dst` and the children it has got so far.
  ghost predicate Growing(made: set<Config>, dst: Config, src: Config, gs: Fields)
    reads made, src
  {
    && dst in made && dst.id == src.id && dst.parent == null && dst.value == src.value
    && Forest(Now(made)) && AllRep(Now(made - {dst}), dst.children, gs)
  }

  lemma NowWithout(nodes: set<Config>, n: Config)
    ensures Now(nodes - {n}) == Now(nodes) - {n}
  {
  }

  lemma NowTogether(a: set<Config>, b: set<Config>)
    requires a !! b
    ensures Now(a + b) == Now(a) + Now(b)
  {
  }

  lemma SplitOff(a: Snap, b: Snap, n: Config)
    requires n in a && n !in b
    ensures (a + b) - {n} == (a - {n}) + b
  {
  }

  // snd_config_add of one more child, which is a tree of its own.
  method Attach(dst: Config, d: Config, ghost made: set<Config>, ghost m: set<Config>, ghost src: Config,
                ghost gs: Fields, ghost f: Field)
    requires Growing(made, dst, src, gs) && NewTree(m, d, Some(f.id), f.node) && made !! m && src !in made + m
    requires dst.value.Compound? && forall g :: g in gs ==> g.id != f.id
    modifies dst`children, d`parent
    ensures Growing(made + m, dst, src, gs + [f])
  {
    hide AllRep, Rep, Forest, NodeOk;
    UnionForest(made, m);
    ghost var before, mine, its, cs := Now(made + m), Now(made - {dst}), Now(m), dst.children;
    NowWithout(made, dst);
    NowTogether(made, m);
    SplitOff(Now(made), its, dst);
    AllRepIds(mine, cs, gs);
    assert forall i :: 0 <= i < |cs| ==> cs[i].id == Some(gs[i].id) && gs[i] in gs;
    AddForest(before, dst, d);
    var r := Add(dst, d, made + m);
    assert r == Done && Now(made + m) == AddTo(before, dst, d);
    NowWithout(made + m, dst);
    Added(before, mine, its, d, dst);
    JoinedRep(mine, its, cs, gs, d, f, dst);
  }

  // Some finished trees, and the new child `d` with its tree.
  ghost function Joined(mine: Snap, its: Snap, d: Config, parent: Config): Snap
    requires d in its
  {
    (mine + its)[d := its[d].(parent := parent)]
  }

  lemma Added(before: Snap, mine: Snap, its: Snap, d: Config, parent: Config)
    requires d in its && parent in before && parent !in its && before - {parent} == mine + its
    ensures d in before && AddTo(before, parent, d) - {parent} == Joined(mine, its, d, parent)
  {
    assert d in mine + its && d in before - {parent};
    assert before[d] == (before - {parent})[d];
    var a, b := AddTo(before, parent, d) - {parent}, Joined(mine, its, d, parent);
    assert a.Keys == b.Keys;
    forall n | n in a ensures a[n] == b[n] {
      assert before[n] == (before - {parent})[n];
    }
  }

  lemma JoinedRep(mine: Snap, its: Snap, cs: seq<Config>, gs: Fields, d: Config, f: Field, parent: Config)
    requires mine.Keys !! its.Keys && AllRep(mine, cs, gs)
    requires d in its && its[d].id == Some(f.id) && Rep(its, d, f.node)
    ensures AllRep(Joined(mine, its, d, parent), cs + [d], gs + [f])
  {
    hide AllRep, Rep;
    var after := Joined(mine, its, d, parent);
    AllRepKeeps(mine, after, cs, gs);
    RepKeeps(its, after, d, f.node);
    AllRepAppend(after, cs, gs, d, f);
  }

  // A compound and its children.
  method WalkCompound(src: Config, cb: Callback, ghost t: Node, ghost vars: Node, ghost nodes: set<Config>)
    returns (dst: Config, ghost made: set<Config>)
    requires Rep(Now(nodes), src, t) && WellFormed(t) && t.Compound?
    requires cb.ExpandWith? ==> Rep(Now(nodes), cb.vars, vars) && WellFormed(vars)
    ensures fresh(made)
    ensures NewTree(made, dst, src.id, Compound(t.join, AllWalked(cb.ExpandWith?, vars, t.fields)))
    decreases cb.ExpandWith?, t, 0
  {
    hide AllRep, Forest, Expand, AllWalked, Growing, NewTree;
    ghost var fs := t.fields;
    assert src in nodes && src.value == Compound(t.join, []) && AllRep(Now(nodes), src.children, fs);
    AllRepIds(Now(nodes), src.children, fs);
    dst := new Config(src.id, src.value);
    made := {dst};
    GrowingStarts(dst, src);
    assert fs[..0] == [];
    NothingWalked(cb.ExpandWith?, vars);
    for i := 0 to |src.children|
      invariant |src.children| == |fs| && fresh(made) && dst in made && dst.value.Compound?
      invariant Growing(made, dst, src, AllWalked(cb.ExpandWith?, vars, fs[..i]))
    {
      AllRepAt(Now(nodes), src.children, fs, i);
      assert fs[i] in fs && WellFormed(fs[i].node);
      made := WalkChild(src, i, cb, dst, made, fs, vars, nodes);
    }
    assert fs[..|fs|] == fs;
    GrowingEnds(made, dst, src, AllWalked(cb.ExpandWith?, vars, fs));
  }

  // One child: walked, and attached if there is a result.
  method WalkChild(src: Config, i: nat, cb: Callback, dst: Config, ghost made: set<Config>,
                   ghost fs: Fields, ghost vars: Node, ghost nodes: set<Config>)
    returns (ghost made': set<Config>)
    requires i < |src.children| == |fs| && src in nodes && made !! nodes && UniqueIds(fs)
    requires Rep(Now(nodes), src.children[i], fs[i].node) && WellFormed(fs[i].node)
    requires src.children[i] in nodes && src.children[i].id == Some(fs[i].id)
    requires cb.ExpandWith? ==> Rep(Now(nodes), cb.vars, vars) && WellFormed(vars)
    requires Growing(made, dst, src, AllWalked(cb.ExpandWith?, vars, fs[..i])) && dst in made
    requires dst.value.Compound?
    modifies dst`children
    ensures made <= made' && fresh(made' - made)
    ensures Growing(made', dst, src, AllWalked(cb.ExpandWith?, vars, fs[..i+1]))
    decreases cb.ExpandWith?, fs[i].node, 2
  {
    hide Rep, AllRep, Forest, Expand, AllWalked, Growing;
    var d, m := Walk(src.children[i], cb, fs[i].node, vars, nodes);
    ghost var gs := AllWalked(cb.ExpandWith?, vars, fs[..i]);
    ghost var u := Walked(cb.ExpandWith?, vars, Some(fs[i].id), fs[i].node);
    WalkedAppend(cb.ExpandWith?, vars, fs[..i], fs[i]);
    assert fs[..i+1] == fs[..i] + [fs[i]];
    made' := made;
    assert gs + [] == gs;
    if d != null {
      IdsNew(cb.ExpandWith?, vars, fs, i);
      Attach(dst, d, made, m, src, gs, Field(fs[i].id, u.value));
      made' := made + m;
    }
  }

  lemma GrowingStarts(dst: Config, src: Config)
    requires dst.id == src.id && dst.parent == null && dst.value == src.value && dst.children == []
    ensures Growing({dst}, dst, src, [])
  {
  }

  lemma GrowingEnds(made: set<Config>, dst: Config, src: Config, gs: Fields)
    requires Growing(made, dst, src, gs) && src.value.Compound? && src.value.fields == []
    ensures NewTree(made, dst, src.id, Compound(src.value.join, gs))
  {
    hide AllRep, Forest;
    AllRepKeeps(Now(made - {dst}), Now(made), dst.children, gs);
  }

  // The ids made from the first `i` children do not include that of the next one.
  lemma IdsNew(expand: bool, vars: Node, fields: Fields, i: nat)
    requires UniqueIds(fields) && i < |fields|
    ensures forall g :: g in AllWalked(expand, vars, fields[..i]) ==> g.id != fields[i].id
  {
    hide Expand, ExpandAll;
    var gs := AllWalked(expand, vars, fields[..i]);
    forall g | g in gs ensures g.id != fields[i].id {
      if expand { ExpandedIds(vars, fields[..i], g); }
    }
  }
}
