// Configuration nodes as objects: add, remove and delete in src/conf.c. The ring of a
// compound's children is the sequence it refines (see RingList).

module ConfHeap {
  import opened ConfText
  import opened ConfTree

  class Config {
    var id: Option<string>
    var value: Node             // of a compound, without its children
    var parent: Config?
    var children: seq<Config>

    // snd_config_make
    constructor (id: Option<string>, value: Node)
      ensures this.id == id && this.value == value && parent == null && children == []
    {
      this.id, this.value, parent, children := id, value, null, [];
    }
  }

  // The fields of one node at one time, and of many nodes.
  datatype Cell = Cell(id: Option<string>, value: Node, parent: Config?, children: seq<Config>)

  type Snap = map<Config, Cell>

  // What a state has for a node that is not in it.
  const NOWHERE := Cell(None, Integer(0), null, [])

  ghost function Now(nodes: set<Config>): (s: Snap)
    reads nodes
    ensures s.Keys == nodes
  {
    map n | n in nodes :: if n in nodes then Cell(n.id, n.value, n.parent, n.children) else NOWHERE
  }

  predicate NoDup(s: seq<Config>) {
    forall i, j :: 0 <= i < j < |s| ==> s[i] != s[j]
  }

  // Every node is in the children of exactly its parent, once.
  ghost predicate NodeOk(s: Snap, n: Config)
    requires n in s
  {
    && NoDup(s[n].children) && (!s[n].value.Compound? ==> s[n].children == [])
    && (forall i :: 0 <= i < |s[n].children| ==>
         s[n].children[i] in s && s[s[n].children[i]].parent == n)
    && (s[n].parent != null ==> s[n].parent in s && n in s[s[n].parent].children)
  }

  ghost predicate Forest(s: Snap) {
    forall n :: n in s ==> NodeOk(s, n)
  }

  ghost predicate Above(rank: map<Config, nat>, n: Config, cs: seq<Config>)
    requires n in rank
  {
    forall i :: 0 <= i < |cs| ==> cs[i] in rank && rank[cs[i]] < rank[n]
  }

  // Nothing is below itself.
  ghost predicate Ranked(s: Snap, rank: map<Config, nat>) {
    forall n :: n in s ==> n in rank && Above(rank, n, s[n].children)
  }

  // The tree that a node unfolds to.
  ghost predicate Rep(s: Snap, n: Config, t: Node)
    decreases t
  {
    n in s &&
    if t.Compound? then s[n].value == Compound(t.join, []) && AllRep(s, s[n].children, t.fields)
    else s[n].value == t && s[n].children == []
  }

  ghost predicate AllRep(s: Snap, cs: seq<Config>, fs: Fields)
    decreases fs
  {
    && |cs| == |fs|
    && (fs != [] ==>
         && cs[0] in s && s[cs[0]].id == Some(fs[0].id)
         && Rep(s, cs[0], fs[0].node) && AllRep(s, cs[1..], fs[1..]))
  }

  // The nodes of a tree, children before parents.
  ghost function Order(s: Snap, n: Config, t: Node): seq<Config>
    requires Rep(s, n, t)
    decreases t
  {
    (if t.Compound? then AllOrder(s, s[n].children, t.fields) else []) + [n]
  }

  ghost function AllOrder(s: Snap, cs: seq<Config>, fs: Fields): seq<Config>
    requires AllRep(s, cs, fs)
    decreases fs
  {
    if fs == [] then [] else Order(s, cs[0], fs[0].node) + AllOrder(s, cs[1..], fs[1..])
  }

  // ---- add and remove ----

  datatype Added = Done | NotAddable | AlreadyThere

  // A set of nodes that contains the parent of each of its members.
  ghost predicate Upward(s: Snap, up: set<Config>) {
    forall n :: n in up ==> n in s && (s[n].parent != null ==> s[n].parent in up)
  }

  // snd_config_add
  method Add(parent: Config, child: Config, ghost nodes: set<Config>)
    returns (r: Added)
    requires Forest(Now(nodes)) && parent in nodes && child in nodes && parent.value.Compound?
    modifies parent`children, child`parent
    ensures r == if old(child.id == None || child.parent != null) then NotAddable
                 else if exists n :: n in old(parent.children) && old(n.id) == child.id then AlreadyThere
                 else Done
    ensures r == Done ==>
      Now(nodes) == AddTo(old(Now(nodes)), parent, child)
    ensures r != Done ==> Now(nodes) == old(Now(nodes))
  {
    if child.id == None || child.parent != null {
      return NotAddable;
    }
    for i := 0 to |parent.children|
      invariant forall j :: 0 <= j < i ==> parent.children[j].id != child.id
    {
      if parent.children[i].id == child.id {
        return AlreadyThere;
      }
    }
    child.parent := parent;
    parent.children := parent.children + [child];
    r := Done;
  }

  ghost function AddTo(s: Snap, parent: Config, child: Config): Snap
    requires parent in s && child in s
  {
    var s1 := s[child := s[child].(parent := parent)];
    s1[parent := s1[parent].(children := s1[parent].children + [child])]
  }

  lemma AddForest(s: Snap, parent: Config, child: Config)
    requires Forest(s) && parent in s && child in s && s[child].parent == null && s[parent].value.Compound?
    ensures Forest(AddTo(s, parent, child))
  {
    var t := AddTo(s, parent, child);
    assert child !in s[parent].children;
    forall n | n in t ensures NodeOk(t, n) {
      assert NodeOk(s, n);
      if n == parent {
        assert t[n].children == s[n].children + [child];
      }
      if s[n].parent != null {
        assert n in s[s[n].parent].children;
        assert n in t[s[n].parent].children;
      }
    }
  }

  // Adding a node that is not above its new parent keeps the shape, and the order.
  lemma AddKeepsShape(s: Snap, parent: Config, child: Config, rank: map<Config, nat>, up: set<Config>)
    returns (rank': map<Config, nat>)
    requires Forest(s) && Ranked(s, rank) && parent in s && child in s
    requires s[child].parent == null && s[parent].value.Compound?
    requires Upward(s, up) && parent in up && child !in up
    ensures Forest(AddTo(s, parent, child)) && Ranked(AddTo(s, parent, child), rank')
  {
    AddForest(s, parent, child);
    var t := AddTo(s, parent, child);
    rank' := map n | n in s :: if n in up then rank[n] + rank[child] + 1 else rank[n];
    forall n | n in t ensures n in rank' && Above(rank', n, t[n].children) {
      assert NodeOk(s, n) && Above(rank, n, s[n].children);
    }
  }

  function Without(cs: seq<Config>, c: Config): seq<Config> {
    if cs == [] then []
    else if cs[0] == c then Without(cs[1..], c)
    else [cs[0]] + Without(cs[1..], c)
  }

  lemma {:induction false} WithoutMembers(cs: seq<Config>, c: Config)
    ensures var r := Without(cs, c);
      && (forall i :: 0 <= i < |r| ==> r[i] in cs && r[i] != c)
      && (forall i :: 0 <= i < |cs| && cs[i] != c ==> cs[i] in r)
      && (NoDup(cs) ==> NoDup(r))
  {
    if cs != [] {
      assert cs == [cs[0]] + cs[1..];
      WithoutMembers(cs[1..], c);
      assert NoDup(cs) ==> NoDup(cs[1..]) && cs[0] !in cs[1..];
    }
  }

  // list_del on the children of the parent
  method Unlink(config: Config, ghost nodes: set<Config>)
    requires Forest(Now(nodes)) && config in nodes && config.parent != null
    modifies config.parent`children
    ensures config.parent.children == Without(old(config.parent.children), config)
  {
    config.parent.children := Without(config.parent.children, config);
  }

  ghost function RemoveFrom(s: Snap, n: Config): Snap
    requires n in s && (s[n].parent != null ==> s[n].parent in s)
  {
    var p := s[n].parent;
    var s1 := if p == null then s else s[p := s[p].(children := Without(s[p].children, n))];
    s1[n := s1[n].(parent := null)]
  }

  // snd_config_remove
  method Remove(config: Config, ghost nodes: set<Config>)
    requires Forest(Now(nodes)) && config in nodes
    modifies config`parent, (if config.parent == null then {} else {config.parent})`children
    ensures old(NodeOk(Now(nodes), config)) && Now(nodes) == RemoveFrom(old(Now(nodes)), config)
  {
    assert NodeOk(Now(nodes), config);
    if config.parent != null {
      Unlink(config, nodes);
    }
    config.parent := null;
  }

  lemma ParentIn(s: Snap, n: Config)
    requires n in s && NodeOk(s, n)
    ensures s[n].parent != null ==> s[n].parent in s
  {
  }

  lemma RemoveKeys(s: Snap, n: Config)
    requires n in s && (s[n].parent != null ==> s[n].parent in s)
    ensures RemoveFrom(s, n).Keys == s.Keys
  {
  }

  // Removing keeps the shape; nothing gets below anything new.
  lemma RemoveKeepsShape(s: Snap, n: Config, rank: map<Config, nat>)
    requires Forest(s) && Ranked(s, rank) && n in s
    ensures NodeOk(s, n)
    ensures Forest(RemoveFrom(s, n)) && Ranked(RemoveFrom(s, n), rank)
  {
    hide NodeOk, RemoveFrom;
    assert NodeOk(s, n);
    ParentIn(s, n);
    var t := RemoveFrom(s, n);
    RemoveKeys(s, n);
    forall m | m in t ensures NodeOk(t, m) {
      RemoveNodeOk(s, n, m);
    }
    forall m | m in t ensures m in rank && Above(rank, m, t[m].children) {
      ChildrenAfter(s, n, m);
      assert Above(rank, m, s[m].children);
    }
  }

  lemma RemoveNodeOk(s: Snap, n: Config, m: Config)
    requires Forest(s) && n in s && m in s && NodeOk(s, n)
    ensures m in RemoveFrom(s, n) && NodeOk(RemoveFrom(s, n), m)
  {
    hide RemoveFrom, Without;
    assert NodeOk(s, m);
    var t := RemoveFrom(s, n);
    ChildrenAfter(s, n, m);
    if s[m].parent != null && m != n { ChildrenAfter(s, n, s[m].parent); }
    forall i | 0 <= i < |t[m].children|
      ensures t[m].children[i] in t && t[t[m].children[i]].parent == m
    {
      var c := t[m].children[i];
      assert c in s[m].children && c in s;
      ChildrenAfter(s, n, c);
    }
  }

  // The children of a node after the removal of `n`.
  lemma ChildrenAfter(s: Snap, n: Config, m: Config)
    requires Forest(s) && n in s && m in s && NodeOk(s, n)
    ensures var t := RemoveFrom(s, n);
      && m in t && NoDup(t[m].children) && (s[m].children == [] ==> t[m].children == [])
      && t[m].value == s[m].value && t[m].parent == (if m == n then null else s[m].parent)
      && (forall i :: 0 <= i < |t[m].children| ==> t[m].children[i] in s[m].children && t[m].children[i] != n)
      && (forall i :: 0 <= i < |s[m].children| && s[m].children[i] != n ==> s[m].children[i] in t[m].children)
  {
    assert NodeOk(s, m);
    var t := RemoveFrom(s, n);
    var cs := Without(s[m].children, n);
    WithoutMembers(s[m].children, n);
    if s[n].parent == m {
      assert t[m].children == cs;
    } else {
      assert t[m].children == s[m].children;
    }
  }

  // ---- trees in a forest ----

  lemma {:induction false} AllRepAt(s: Snap, cs: seq<Config>, fs: Fields, k: nat)
    requires AllRep(s, cs, fs) && k < |cs|
    ensures cs[k] in s && s[cs[k]].id == Some(fs[k].id) && Rep(s, cs[k], fs[k].node)
    ensures AllRep(s, cs[k+1..], fs[k+1..])
    decreases k
  {
    hide Rep;
    if k > 0 {
      AllRepAt(s, cs[1..], fs[1..], k - 1);
      assert cs[1..][k..] == cs[k+1..] && fs[1..][k..] == fs[k+1..];
    }
  }

  lemma {:induction false} AllRepAppend(s: Snap, cs: seq<Config>, fs: Fields, c: Config, f: Field)
    requires AllRep(s, cs, fs) && c in s && s[c].id == Some(f.id) && Rep(s, c, f.node)
    ensures AllRep(s, cs + [c], fs + [f])
    decreases fs
  {
    hide Rep;
    if fs == [] {
      assert [c][1..] == [] && [f][1..] == [];
    } else {
      assert (cs + [c])[1..] == cs[1..] + [c] && (fs + [f])[1..] == fs[1..] + [f];
      AllRepAppend(s, cs[1..], fs[1..], c, f);
    }
  }

  lemma {:induction false} AllRepIds(s: Snap, cs: seq<Config>, fs: Fields)
    requires AllRep(s, cs, fs)
    ensures |cs| == |fs| && forall i :: 0 <= i < |cs| ==> cs[i] in s && s[cs[i]].id == Some(fs[i].id)
    decreases fs
  {
    hide Rep;
    if fs != [] { AllRepIds(s, cs[1..], fs[1..]); }
  }

  lemma {:induction false} SearchAt(fields: Fields, i: nat)
    requires i < |fields| && forall j :: 0 <= j < i ==> fields[j].id != fields[i].id
    ensures Search(fields, fields[i].id) == Some(i)
    decreases i
  {
    if i > 0 {
      SearchAt(fields[1..], i - 1);
    }
  }

  // The first child whose tree contains `x`.
  lemma {:induction false} AllMember(s: Snap, cs: seq<Config>, fs: Fields, x: Config) returns (k: nat)
    requires AllRep(s, cs, fs) && x in AllOrder(s, cs, fs)
    ensures k < |cs| && Rep(s, cs[k], fs[k].node) && x in Order(s, cs[k], fs[k].node)
  {
    hide Rep, Order;
    if x in Order(s, cs[0], fs[0].node) {
      k := 0;
    } else {
      k := AllMember(s, cs[1..], fs[1..], x);
      k := k + 1;
    }
  }

  lemma {:induction false} AllContains(s: Snap, cs: seq<Config>, fs: Fields, k: nat, x: Config)
    requires AllRep(s, cs, fs) && k < |cs| && Rep(s, cs[k], fs[k].node) && x in Order(s, cs[k], fs[k].node)
    ensures x in AllOrder(s, cs, fs)
    decreases k
  {
    hide Rep, Order;
    if k > 0 { AllContains(s, cs[1..], fs[1..], k - 1, x); }
  }

  // A node of a tree is its root, or below it, with its parent in the tree as well.
  lemma {:induction false} InTree(s: Snap, rank: map<Config, nat>, n: Config, t: Node, x: Config)
    requires Forest(s) && Ranked(s, rank) && Rep(s, n, t) && x in Order(s, n, t)
    ensures x in s && x != n ==>
      rank[x] < rank[n] && s[x].parent != null && s[x].parent in Order(s, n, t)
    ensures x in s
    decreases t
  {
    if x != n {
      var cs := s[n].children;
      var k := AllMember(s, cs, t.fields, x);
      assert NodeOk(s, n) && Above(rank, n, cs);
      InTree(s, rank, cs[k], t.fields[k].node, x);
      if x != cs[k] { AllContains(s, cs, t.fields, k, s[x].parent); }
    }
  }

  // ... and its children are in the tree.
  lemma {:induction false} TreeClosed(s: Snap, n: Config, t: Node, x: Config, i: nat)
    requires Rep(s, n, t) && x in Order(s, n, t) && x in s && i < |s[x].children|
    ensures s[x].children[i] in Order(s, n, t)
    decreases t
  {
    var cs := s[n].children;
    if x == n {
      AllRepAt(s, cs, t.fields, i);
      assert cs[i] in Order(s, cs[i], t.fields[i].node);
      AllContains(s, cs, t.fields, i, cs[i]);
    } else {
      var k := AllMember(s, cs, t.fields, x);
      TreeClosed(s, cs[k], t.fields[k].node, x, i);
      AllContains(s, cs, t.fields, k, s[x].children[i]);
    }
  }

  // The trees of two siblings have no node in common.
  lemma {:induction false} SiblingsDisjoint(s: Snap, rank: map<Config, nat>, a: Config, t: Node,
                                            b: Config, u: Node, x: Config)
    requires Forest(s) && Ranked(s, rank) && Rep(s, a, t) && Rep(s, b, u) && a != b
    requires a in s && b in s && s[a].parent != null && s[a].parent == s[b].parent
    requires x in Order(s, a, t) && x in Order(s, b, u)
    ensures false
    decreases if x in rank && a in rank && rank[x] <= rank[a] then rank[a] - rank[x] else 0
  {
    hide Order, Rep;
    assert NodeOk(s, a) && NodeOk(s, b);
    var p: Config := s[a].parent;
    assert NodeOk(s, p) && Above(rank, p, s[p].children);
    InTree(s, rank, a, t, x);
    InTree(s, rank, b, u, x);
    if x == a {
      InTree(s, rank, b, u, p);
    } else if x == b {
      InTree(s, rank, a, t, p);
    } else {
      assert NodeOk(s, x) && Above(rank, s[x].parent, s[s[x].parent].children);
      InTree(s, rank, a, t, s[x].parent);
      SiblingsDisjoint(s, rank, a, t, b, u, s[x].parent);
    }
  }

  // No node occurs twice in a tree.
  lemma {:induction false} OrderNoDup(s: Snap, rank: map<Config, nat>, n: Config, t: Node)
    requires Forest(s) && Ranked(s, rank) && Rep(s, n, t)
    ensures NoDup(Order(s, n, t))
    decreases t, 1
  {
    if t.Compound? {
      var cs := s[n].children;
      assert NodeOk(s, n) && Above(rank, n, cs);
      AllNoDup(s, rank, n, cs, t.fields);
      var all := AllOrder(s, cs, t.fields);
      forall i | 0 <= i < |all| ensures all[i] != n {
        var k := AllMember(s, cs, t.fields, all[i]);
        InTree(s, rank, cs[k], t.fields[k].node, all[i]);
      }
    }
  }

  lemma {:induction false} AllNoDup(s: Snap, rank: map<Config, nat>, p: Config, cs: seq<Config>, fs: Fields)
    requires Forest(s) && Ranked(s, rank) && AllRep(s, cs, fs) && NoDup(cs)
    requires forall i :: 0 <= i < |cs| ==> cs[i] in s && s[cs[i]].parent == p
    ensures NoDup(AllOrder(s, cs, fs))
    decreases fs
  {
    if fs != [] {
      OrderNoDup(s, rank, cs[0], fs[0].node);
      AllNoDup(s, rank, p, cs[1..], fs[1..]);
      var a, b := Order(s, cs[0], fs[0].node), AllOrder(s, cs[1..], fs[1..]);
      forall i, j | 0 <= i < |a| && 0 <= j < |b| ensures a[i] != b[j] {
        if a[i] == b[j] {
          var k := AllMember(s, cs[1..], fs[1..], b[j]);
          SiblingsDisjoint(s, rank, cs[0], fs[0].node, cs[1..][k], fs[1..][k].node, a[i]);
        }
      }
    }
  }
}
