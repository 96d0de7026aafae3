// Changing one place of a tree of nodes: what it does to the tree, to the tree around it,
// and to all other nodes.

module ConfNodes {
  import opened ConfText
  import opened ConfTree
  import opened ConfHeap
  import opened ConfDelete

  // All nodes there are, and a rank that shows that nothing is below itself.
  datatype World = World(nodes: set<Config>, rank: map<Config, nat>)

  datatype State = State(cells: Snap, rank: map<Config, nat>)
  {
    ghost predicate Shaped() { Forest(cells) && Ranked(cells, rank) }
  }

  ghost function At(w: World): State
    reads w.nodes
  {
    State(Now(w.nodes), w.rank)
  }

  ghost function Nodes(s: Snap, n: Config, t: Node): set<Config>
    requires Rep(s, n, t)
  {
    ToSet(Order(s, n, t))
  }

  // The tree at `n` was `t` and is `t'`. It has taken over none of the nodes outside, and
  // none of them is changed or gone.
  ghost predicate Reworked(h: State, h': State, n: Config, t: Node, t': Node) {
    var s, s' := h.cells, h'.cells;
    && Rep(s, n, t) && Rep(s', n, t') && h'.Shaped() && n in s && n in s'
    && s'[n].id == s[n].id && s'[n].parent == s[n].parent
    && (forall x :: x in s && x !in Nodes(s, n, t) ==> x in s' && s'[x] == s[x])
    && (forall x :: x in Nodes(s', n, t') && x in s ==> x in Nodes(s, n, t))
  }

  lemma RootIn(s: Snap, n: Config, t: Node)
    requires Rep(s, n, t)
    ensures n in s && n in Nodes(s, n, t)
  {
  }

  lemma Unchanged(h: State, n: Config, t: Node)
    requires h.Shaped() && Rep(h.cells, n, t)
    ensures Reworked(h, h, n, t, t)
  {
    hide Order;
    RootInTree(h.cells, n, t);
  }

  lemma Compose(h: State, h1: State, h2: State, n: Config, t: Node, t1: Node, t2: Node)
    requires Reworked(h, h1, n, t, t1) && Reworked(h1, h2, n, t1, t2)
    ensures Reworked(h, h2, n, t, t2)
  {
    hide Rep, Nodes, Forest, Ranked;
  }

  lemma {:induction false} AllRepFrom(s: Snap, cs: seq<Config>, fs: Fields)
    requires |cs| == |fs|
    requires forall i :: 0 <= i < |cs| ==>
      cs[i] in s && s[cs[i]].id == Some(fs[i].id) && Rep(s, cs[i], fs[i].node)
    ensures AllRep(s, cs, fs)
    decreases fs
  {
    hide Rep;
    if fs != [] { AllRepFrom(s, cs[1..], fs[1..]); }
  }

  ghost predicate InChild(s: Snap, cs: seq<Config>, fs: Fields, k: nat, x: Config) {
    k < |cs| == |fs| && Rep(s, cs[k], fs[k].node) && x in Nodes(s, cs[k], fs[k].node)
  }

  // The nodes of a compound are itself and those of its children.
  lemma InCompound(s: Snap, n: Config, t: Node, x: Config) returns (k: nat)
    requires Rep(s, n, t) && t.Compound? && n in s && x in Nodes(s, n, t)
    ensures x == n || InChild(s, s[n].children, t.fields, k, x)
  {
    hide Order;
    var cs, fs := s[n].children, t.fields;
    assert AllRep(s, cs, fs);
    OrderOf(s, n, t);
    k := 0;
    if x != n { k := AllMember(s, cs, fs, x); }
  }

  lemma FromChild(s: Snap, n: Config, t: Node, k: nat, x: Config)
    requires Rep(s, n, t) && t.Compound? && n in s && InChild(s, s[n].children, t.fields, k, x)
    ensures x in Nodes(s, n, t)
  {
    hide Order;
    OrderOf(s, n, t);
    AllContains(s, s[n].children, t.fields, k, x);
  }

  lemma OrderOf(s: Snap, n: Config, t: Node)
    requires Rep(s, n, t) && t.Compound? && n in s
    ensures AllRep(s, s[n].children, t.fields)
    ensures Order(s, n, t) == AllOrder(s, s[n].children, t.fields) + [n]
  {
  }

  // What is known about one child.
  lemma ChildAt(h: State, n: Config, t: Node, k: nat)
    requires h.Shaped() && Rep(h.cells, n, t) && t.Compound? && k < |t.fields|
    ensures n in h.cells && |h.cells[n].children| == |t.fields| && NoDup(h.cells[n].children)
    ensures var s := h.cells; var c, f := s[n].children[k], t.fields[k].node;
      && c in s && s[c].id == Some(t.fields[k].id) && s[c].parent == n && Rep(s, c, f)
      && n !in Nodes(s, c, f) && c in Nodes(s, c, f)
      && s[c].value.Compound? == f.Compound?
  {
    hide Order;
    var s := h.cells;
    var c, f := s[n].children[k], t.fields[k].node;
    assert NodeOk(s, n) && Above(h.rank, n, s[n].children);
    AllRepAt(s, s[n].children, t.fields, k);
    RootInTree(s, c, f);
    if n in Order(s, c, f) { InTree(s, h.rank, c, f, n); }
  }

  // Two children share no nodes.
  lemma ChildrenApart(h: State, n: Config, t: Node, k: nat, j: nat, x: Config)
    requires h.Shaped() && Rep(h.cells, n, t) && t.Compound? && n in h.cells
    requires InChild(h.cells, h.cells[n].children, t.fields, k, x)
    requires InChild(h.cells, h.cells[n].children, t.fields, j, x)
    ensures j == k
  {
    hide Order, Rep;
    if j != k {
      var s := h.cells;
      assert NodeOk(s, n);
      SiblingsDisjoint(s, h.rank, s[n].children[k], t.fields[k].node, s[n].children[j], t.fields[j].node, x);
    }
  }

  // A child all of whose nodes are as they were.
  lemma TreeKept(s: Snap, s': Snap, c: Config, f: Node)
    requires Rep(s, c, f) && forall x :: x in Nodes(s, c, f) && x in s ==> x in s' && s'[x] == s[x]
    ensures Rep(s', c, f) && Nodes(s', c, f) == Nodes(s, c, f)
  {
    hide Order;
    forall i | 0 <= i < |Order(s, c, f)| 
      ensures var x := Order(s, c, f)[i]; x in s && x in s' && s'[x] == s[x]
    {
      OrderIn(s, c, f, Order(s, c, f)[i]);
    }
    RepKept(s, s', c, f);
  }

  lemma {:induction false} OrderIn(s: Snap, n: Config, t: Node, x: Config)
    requires Rep(s, n, t) && x in Order(s, n, t)
    ensures x in s
    decreases t
  {
    if x != n {
      var k := AllMember(s, s[n].children, t.fields, x);
      OrderIn(s, s[n].children[k], t.fields[k].node, x);
    }
  }

  // The other children are not concerned by what happens inside one child.
  lemma SiblingKept(h: State, h': State, n: Config, t: Node, k: nat, u: Node, j: nat)
    requires h.Shaped() && Rep(h.cells, n, t) && t.Compound? && n in h.cells
    requires j != k && j < |t.fields| && k < |t.fields| == |h.cells[n].children|
    requires Reworked(h, h', h.cells[n].children[k], t.fields[k].node, u)
    ensures var c, f := h.cells[n].children[j], t.fields[j].node;
      && c in h.cells && c in h'.cells && h'.cells[c] == h.cells[c]
      && Rep(h.cells, c, f) && Rep(h'.cells, c, f) && Nodes(h'.cells, c, f) == Nodes(h.cells, c, f)
  {
    hide Nodes, Rep;
    var s := h.cells;
    var c, f := s[n].children[j], t.fields[j].node;
    ChildAt(h, n, t, j);
    forall x | x in Nodes(s, c, f) && x in s ensures x in h'.cells && h'.cells[x] == s[x] {
      if x in Nodes(s, s[n].children[k], t.fields[k].node) {
        ChildrenApart(h, n, t, k, j, x);
      }
    }
    TreeKept(s, h'.cells, c, f);
  }

  // A change inside a child is a change inside the compound.
  lemma Lift(h: State, h': State, n: Config, t: Node, k: nat, u: Node)
    requires h.Shaped() && Rep(h.cells, n, t) && t.Compound? && n in h.cells
    requires k < |h.cells[n].children| == |t.fields|
    requires Reworked(h, h', h.cells[n].children[k], t.fields[k].node, u)
    ensures Reworked(h, h', n, t, t.(fields := t.fields[k := Field(t.fields[k].id, u)]))
  {
    hide Nodes, AllRep, Forest, Ranked;
    var s, s' := h.cells, h'.cells;
    var cs, fs, t' := s[n].children, t.fields, t.(fields := t.fields[k := Field(t.fields[k].id, u)]);
    ChildAt(h, n, t, k);
    assert s'[n] == s[n];
    forall j | 0 <= j < |cs|
      ensures cs[j] in s' && s'[cs[j]].id == Some(t'.fields[j].id) && Rep(s', cs[j], t'.fields[j].node)
    {
      ChildAt(h, n, t, j);
      if j != k { SiblingKept(h, h', n, t, k, u, j); }
    }
    AllRepFrom(s', cs, t'.fields);
    assert Rep(s', n, t');
    forall x | x in s && x !in Nodes(s, n, t) ensures x in s' && s'[x] == s[x] {
      if x in Nodes(s, cs[k], fs[k].node) { FromChild(s, n, t, k, x); }
    }
    forall x | x in Nodes(s', n, t') && x in s ensures x in Nodes(s, n, t) {
      RootIn(s, n, t);
      var j := InCompound(s', n, t', x);
      if x != n {
        ChildAt(h, n, t, j);
        if j != k { SiblingKept(h, h', n, t, k, u, j); }
        FromChild(s, n, t, j, x);
      }
    }
  }

  // ---- the changes themselves ----

  // A new value for a node: another scalar, or another join flag.
  lemma NewValue(h: State, n: Config, t: Node, t': Node)
    requires h.Shaped() && Rep(h.cells, n, t) && n in h.cells
    requires t.Compound? == t'.Compound? && (t.Compound? ==> t'.fields == t.fields)
    ensures var v := if t'.Compound? then t'.(fields := []) else t';
      Reworked(h, h.(cells := h.cells[n := h.cells[n].(value := v)]), n, t, t')
  {
    hide Order, AllOrder, AllRep, Forest, Ranked;
    var s, v := h.cells, if t'.Compound? then t'.(fields := []) else t';
    var s' := s[n := s[n].(value := v)];
    ValueShaped(h, n, v);
    if t.Compound? {
      OrderOf(s, n, t);
      ChildrenKept(h, s', n, t);
      OrderOf(s', n, t');
    } else {
      LeafNodes(s, n, t);
      LeafNodes(s', n, t');
    }
  }

  lemma ValueShaped(h: State, n: Config, v: Node)
    requires h.Shaped() && n in h.cells && h.cells[n].value.Compound? == v.Compound?
    ensures h.(cells := h.cells[n := h.cells[n].(value := v)]).Shaped()
  {
    var s := h.cells;
    var s' := s[n := s[n].(value := v)];
    forall m | m in s' ensures NodeOk(s', m) && m in h.rank && Above(h.rank, m, s'[m].children) {
      assert NodeOk(s, m) && Above(h.rank, m, s[m].children);
    }
  }

  lemma LeafNodes(s: Snap, n: Config, t: Node)
    requires Rep(s, n, t) && (t.Compound? ==> t.fields == [])
    ensures Nodes(s, n, t) == {n}
  {
    assert Order(s, n, t) == [n];
  }

  // All children are as they were.
  lemma ChildrenKept(h: State, s': Snap, n: Config, t: Node)
    requires h.Shaped() && Rep(h.cells, n, t) && t.Compound? && n in h.cells
    requires forall x :: x in h.cells && x != n ==> x in s' && s'[x] == h.cells[x]
    ensures AllRep(h.cells, h.cells[n].children, t.fields)
    ensures AllRep(s', h.cells[n].children, t.fields)
    ensures AllOrder(s', h.cells[n].children, t.fields) == AllOrder(h.cells, h.cells[n].children, t.fields)
  {
    hide Order, AllOrder, AllRep;
    OrderOf(h.cells, n, t);
    var all := AllOrder(h.cells, h.cells[n].children, t.fields);
    forall i | 0 <= i < |all| ensures all[i] in h.cells && all[i] in s' && s'[all[i]] == h.cells[all[i]] {
      BelowRoot(h.cells, h.rank, n, t, all, all[i]);
    }
    AllKept(h.cells, s', h.cells[n].children, t.fields);
  }

  // _snd_config_make_add: a new node at the end of the children.
  ghost function Made(s: Snap, n: Config, c: Config, id: string, v: Node): Snap
    requires n in s
  {
    AddTo(s[c := Cell(Some(id), v, null, [])], n, c)
  }

  lemma Added(h: State, n: Config, t: Node, c: Config, id: string, v: Node) returns (h': State)
    requires h.Shaped() && Rep(h.cells, n, t) && n in h.cells && t.Compound?
    requires c !in h.cells && (v.Compound? ==> v.fields == [])
    ensures h'.cells == Made(h.cells, n, c, id, v)
    ensures Reworked(h, h', n, t, t.(fields := t.fields + [Field(id, v)]))
    ensures |h.cells[n].children| == |t.fields|
  {
    hide Nodes, AllRep, Forest, Ranked;
    var s, s', t' := h.cells, Made(h.cells, n, c, id, v), t.(fields := t.fields + [Field(id, v)]);
    h' := MadeShaped(h, n, c, id, v);
    ChildrenKept(h, s', n, t);
    AllRepIds(s, s[n].children, t.fields);
    AllRepLeaf(s', c, v);
    AllRepAppend(s', s[n].children, t.fields, c, Field(id, v));
    assert Rep(s', n, t');
    LeafNodes(s', c, v);
    forall x | x in Nodes(s', n, t') && x in s ensures x in Nodes(s, n, t) {
      RootIn(s, n, t);
      var j := InCompound(s', n, t', x);
      if x != n && j < |t.fields| {
        ChildAt(h, n, t, j);
        ChildStays(h, s', n, t, j);
        FromChild(s, n, t, j, x);
      }
    }
    RootIn(s, n, t);
  }

  lemma AllRepLeaf(s: Snap, c: Config, v: Node)
    requires c in s && s[c].value == v && s[c].children == [] && (v.Compound? ==> v.fields == [])
    ensures Rep(s, c, v)
  {
  }

  // One child, if nothing but the compound itself has changed.
  lemma ChildStays(h: State, s': Snap, n: Config, t: Node, j: nat)
    requires h.Shaped() && Rep(h.cells, n, t) && t.Compound? && n in h.cells
    requires j < |h.cells[n].children| == |t.fields|
    requires forall x :: x in h.cells && x != n ==> x in s' && s'[x] == h.cells[x]
    ensures var c, f := h.cells[n].children[j], t.fields[j].node;
      Rep(h.cells, c, f) && Rep(s', c, f) && Nodes(s', c, f) == Nodes(h.cells, c, f)
  {
    hide Nodes, AllRep, Rep, Forest, Ranked;
    ChildAt(h, n, t, j);
    TreeKept(h.cells, s', h.cells[n].children[j], t.fields[j].node);
  }

  lemma MadeShaped(h: State, n: Config, c: Config, id: string, v: Node) returns (h': State)
    requires h.Shaped() && n in h.cells && h.cells[n].value.Compound? && c !in h.cells
    ensures h'.cells == Made(h.cells, n, c, id, v) && h'.Shaped()
  {
    hide Forest, NodeOk, AddTo;
    var s0, s' := h.cells[c := Cell(Some(id), v, null, [])], Made(h.cells, n, c, id, v);
    h' := State(s', map m | m in s' :: if m in h.rank && m != c then h.rank[m] + 1 else 0);
    AloneForest(h.cells, c, id, v);
    AddForest(s0, n, c);
    forall m | m in s' ensures m in h'.rank && Above(h'.rank, m, s'[m].children) {
      MadeChildren(h.cells, n, c, id, v, m);
      if m != c {
        InForest(h.cells, m);
        assert Above(h.rank, m, h.cells[m].children);
      }
    }
  }

  // A node after another one has been added.
  lemma MadeChildren(s: Snap, n: Config, c: Config, id: string, v: Node, m: Config)
    requires n in s && c !in s && m in Made(s, n, c, id, v)
    ensures m == c || m in s
    ensures Made(s, n, c, id, v)[m].children
         == (if m == c then [] else s[m].children) + (if m == n then [c] else [])
    ensures Made(s, n, c, id, v).Keys == s.Keys + {c}
  {
  }

  lemma InForest(s: Snap, m: Config)
    requires Forest(s) && m in s
    ensures forall i :: 0 <= i < |s[m].children| ==> s[m].children[i] in s
  {
    assert NodeOk(s, m);
  }

  lemma AloneForest(s: Snap, c: Config, id: string, v: Node)
    requires Forest(s) && c !in s
    ensures Forest(s[c := Cell(Some(id), v, null, [])])
  {
    var s0 := s[c := Cell(Some(id), v, null, [])];
    forall m | m in s0 ensures NodeOk(s0, m) {
      if m != c { assert NodeOk(s, m); }
    }
  }

  lemma {:induction false} WithoutAt(cs: seq<Config>, k: nat)
    requires NoDup(cs) && k < |cs|
    ensures Without(cs, cs[k]) == cs[..k] + cs[k+1..]
  {
    if k == 0 {
      WithoutAbsent(cs[1..], cs[0]);
    } else {
      assert forall i :: 0 <= i < |cs| - 1 ==> cs[1..][i] == cs[i+1];
      assert cs[k] != cs[0];
      WithoutAt(cs[1..], k - 1);
      assert cs[1..][..k-1] == cs[..k][1..] && cs[1..][k..] == cs[k+1..];
      assert cs[..k] == [cs[0]] + cs[..k][1..];
    }
  }

  // snd_config_delete of a child.
  lemma Dropped(h: State, n: Config, t: Node, k: nat)
    requires h.Shaped() && Rep(h.cells, n, t) && n in h.cells && t.Compound?
    requires k < |t.fields| == |h.cells[n].children|
    ensures var s := h.cells; var c, f := s[n].children[k], t.fields[k].node;
      && c in s && s[c].parent == n && Rep(s, c, f)
      && Reworked(h, State(Pruned(s, c, Nodes(s, c, f)), h.rank), n, t, t.(fields := Drop(t.fields, k)))
  {
    hide Nodes, AllRep, Rep, Forest, Ranked, Pruned;
    var s := h.cells;
    var c, f, t' := s[n].children[k], t.fields[k].node, t.(fields := Drop(t.fields, k));
    ChildAt(h, n, t, k);
    var s' := Pruned(s, c, Nodes(s, c, f));
    DeletedShaped(h, c, f);
    DeletedRoot(h, n, t, k);
    assert |s'[n].children| == |t'.fields|;
    forall i | 0 <= i < |t'.fields|
      ensures var d := s'[n].children[i];
        d in s' && s'[d].id == Some(t'.fields[i].id) && Rep(s', d, t'.fields[i].node)
    {
      DeletedSibling(h, n, t, k, if i < k then i else i + 1);
    }
    AllRepFrom(s', s'[n].children, t'.fields);
    RepCompound(s', n, t');
    RootIn(s, n, t);
    forall x | x in s && x !in Nodes(s, n, t) ensures x in s' && s'[x] == s[x] {
      if x in Nodes(s, c, f) { FromChild(s, n, t, k, x); }
      DeletedElse(h, c, f, x);
    }
    forall x | x in Nodes(s', n, t') && x in s ensures x in Nodes(s, n, t) {
      var i := InCompound(s', n, t', x);
      if x != n {
        var j := if i < k then i else i + 1;
        DeletedSibling(h, n, t, k, j);
        FromChild(s, n, t, j, x);
      }
    }
  }

  lemma RepCompound(s: Snap, n: Config, t: Node)
    requires n in s && t.Compound? && s[n].value == Compound(t.join, []) && AllRep(s, s[n].children, t.fields)
    ensures Rep(s, n, t)
  {
  }

  lemma DeletedShaped(h: State, c: Config, f: Node)
    requires h.Shaped() && Rep(h.cells, c, f) && c in h.cells
    ensures h.cells[c].parent != null ==> h.cells[c].parent in h.cells
    ensures State(Pruned(h.cells, c, Nodes(h.cells, c, f)), h.rank).Shaped()
  {
    hide Order, Rep, Forest, Ranked, Pruned;
    DeleteKeepsShape(h.cells, c, f, h.rank);
  }

  // A node outside the deleted tree, other than the parent of its root.
  lemma DeletedElse(h: State, c: Config, f: Node, x: Config)
    requires h.Shaped() && Rep(h.cells, c, f) && c in h.cells
    requires x in h.cells && x !in Nodes(h.cells, c, f) && x != h.cells[c].parent
    ensures h.cells[c].parent != null ==> h.cells[c].parent in h.cells
    ensures var s' := Pruned(h.cells, c, Nodes(h.cells, c, f)); x in s' && s'[x] == h.cells[x]
  {
    hide Nodes, Rep, Ranked;
    assert NodeOk(h.cells, c);
    RootIn(h.cells, c, f);
  }

  lemma DeletedRoot(h: State, n: Config, t: Node, k: nat)
    requires h.Shaped() && Rep(h.cells, n, t) && n in h.cells && t.Compound?
    requires k < |t.fields| == |h.cells[n].children|
    ensures var s := h.cells; var c, f, cs := s[n].children[k], t.fields[k].node, s[n].children;
      && c in s && s[c].parent == n && Rep(s, c, f)
      && n in Pruned(s, c, Nodes(s, c, f))
      && Pruned(s, c, Nodes(s, c, f))[n] == s[n].(children := cs[..k] + cs[k+1..])
      && s[n].value == Compound(t.join, [])
  {
    hide Nodes, AllRep, Forest, Ranked, Without;
    ChildAt(h, n, t, k);
    WithoutAt(h.cells[n].children, k);
    assert h.cells[n].children[k] != n by { RootIn(h.cells, h.cells[n].children[k], t.fields[k].node); }
  }

  lemma DeletedSibling(h: State, n: Config, t: Node, k: nat, j: nat)
    requires h.Shaped() && Rep(h.cells, n, t) && n in h.cells && t.Compound?
    requires k < |t.fields| == |h.cells[n].children| && j < |t.fields| && j != k
    ensures var s := h.cells; var c, f, d, g := s[n].children[k], t.fields[k].node, s[n].children[j], t.fields[j].node;
      && c in s && s[c].parent == n && Rep(s, c, f)
      && var s' := Pruned(s, c, Nodes(s, c, f));
      && d in s && d in s' && s'[d].id == s[d].id == Some(t.fields[j].id)
      && Rep(s, d, g) && Rep(s', d, g) && Nodes(s', d, g) == Nodes(s, d, g)
  {
    hide Nodes, Rep, Forest, Ranked, Pruned;
    var s := h.cells;
    var c, f, d, g := s[n].children[k], t.fields[k].node, s[n].children[j], t.fields[j].node;
    ChildAt(h, n, t, k);
    ChildAt(h, n, t, j);
    var s' := Pruned(s, c, Nodes(s, c, f));
    forall x | x in Nodes(s, d, g) && x in s ensures x in s' && s'[x] == s[x] {
      if x in Nodes(s, c, f) { ChildrenApart(h, n, t, k, j, x); }
      DeletedElse(h, c, f, x);
    }
    TreeKept(s, s', d, g);
  }

  // ---- the same for the children of a compound ----

  ghost predicate Ready(h: State, n: Config, t: Node) {
    h.Shaped() && Rep(h.cells, n, t) && t.Compound? && n in h.cells
  }

  // The compound `n` has the children `fs` now.
  ghost predicate Became(h: State, h': State, n: Config, t: Node, fs: Fields) {
    match t
    case Compound(join, _) =>
      Ready(h', n, Compound(join, fs)) && Reworked(h, h', n, t, Compound(join, fs))
    case _ => false
  }

  lemma BecameItself(h: State, n: Config, t: Node)
    requires Ready(h, n, t)
    ensures Became(h, h, n, t, t.fields)
  {
    hide Reworked;
    Unchanged(h, n, t);
  }

  lemma ReadyIn(h: State, n: Config, t: Node)
    requires Ready(h, n, t)
    ensures n in h.cells && t.Compound? && h.cells[n].value == Compound(t.join, [])
    ensures |h.cells[n].children| == |t.fields|
  {
    OrderOf(h.cells, n, t);
    AllRepIds(h.cells, h.cells[n].children, t.fields);
  }

  lemma BecameThen(h: State, h1: State, h2: State, n: Config, t: Node, fs1: Fields, fs2: Fields)
    requires Became(h, h1, n, t, fs1) && Became(h1, h2, n, t.(fields := fs1), fs2)
    ensures Became(h, h2, n, t, fs2)
  {
    hide Reworked, Ready;
    Compose(h, h1, h2, n, t, t.(fields := fs1), t.(fields := fs2));
  }

  lemma ReadyChild(h: State, n: Config, t: Node, k: nat)
    requires Ready(h, n, t) && k < |t.fields|
    ensures |h.cells[n].children| == |t.fields|
    ensures var c, f := h.cells[n].children[k], t.fields[k];
      && c in h.cells && h.cells[c].id == Some(f.id) && h.cells[c].parent == n
      && (f.node.Compound? ==> Ready(h, c, f.node) && h.cells[c].value == Compound(f.node.join, []))
      && (!f.node.Compound? ==> h.cells[c].value == f.node)
  {
    hide Nodes, AllRep, Forest, Ranked;
    ChildAt(h, n, t, k);
  }

  lemma ChildKind(w: World, n: Config, t: Node, k: nat)
    requires Ready(At(w), n, t) && k < |t.fields| && k < |n.children|
    ensures n.children[k].value.Compound? == t.fields[k].node.Compound?
  {
    hide Rep, Forest, Ranked;
    ReadyIn(At(w), n, t);
    ReadyChild(At(w), n, t, k);
  }

  // Something has happened to the child number `k`.
  lemma ChildBecame(h: State, h': State, n: Config, t: Node, k: nat, u: Node)
    requires Ready(h, n, t) && k < |t.fields| == |h.cells[n].children|
    requires Reworked(h, h', h.cells[n].children[k], t.fields[k].node, u)
    ensures Became(h, h', n, t, t.fields[k := Field(t.fields[k].id, u)])
  {
    hide Rep, Nodes;
    Lift(h, h', n, t, k, u);
  }

  lemma BecameFrom(h: State, h': State, n: Config, t: Node, fs: Fields)
    requires t.Compound? && Reworked(h, h', n, t, t.(fields := fs))
    ensures Became(h, h', n, t, fs)
  {
    hide Rep, Nodes, Forest, Ranked;
  }

  // ---- the steps of the parser ----

  // _snd_config_search
  method FindChild(parent: Config, id: string, ghost t: Node, ghost w: World)
    returns (n: Config?, ghost k: nat)
    requires Ready(At(w), parent, t)
    ensures n == null <==> Search(t.fields, id).None?
    ensures n != null ==> k == Search(t.fields, id).value < |parent.children| && n == parent.children[k]
  {
    hide AllRep, Forest, Ranked;
    OrderOf(At(w).cells, parent, t);
    AllRepIds(At(w).cells, parent.children, t.fields);
    for i := 0 to |parent.children|
      invariant forall j :: 0 <= j < i ==> t.fields[j].id != id
    {
      if parent.children[i].id == Some(id) {
        SearchAt(t.fields, i);
        return parent.children[i], i;
      }
    }
    return null, 0;
  }

  // _snd_config_make_add
  method MakeAdd(parent: Config, id: string, v: Node, ghost t: Node, ghost w: World)
    returns (n: Config, ghost w': World)
    requires Ready(At(w), parent, t) && (v.Compound? ==> v.fields == [])
    modifies parent`children
    ensures fresh(w'.nodes - w.nodes)
    ensures Became(old(At(w)), At(w'), parent, t, t.fields + [Field(id, v)])
    ensures |parent.children| == |t.fields| + 1 && parent.children[|t.fields|] == n
  {
    hide AllRep, Forest, Ranked, Reworked;
    ghost var h := At(w);
    assert parent in w.nodes;
    n := new Config(Some(id), v);
    n.parent := parent;
    parent.children := parent.children + [n];
    ghost var h' := Added(h, parent, t, n, id, v);
    w' := World(w.nodes + {n}, h'.rank);
    assert At(w').cells == Made(h.cells, parent, n, id, v);
    assert At(w') == h';
    BecameFrom(h, h', parent, t, t.fields + [Field(id, v)]);
  }

  // snd_config_delete of the child number `k`
  method DeleteChild(n: Config, ghost parent: Config, ghost k: nat, ghost t: Node, ghost w: World)
    returns (ghost w': World)
    requires Ready(At(w), parent, t) && k < |t.fields| && k < |parent.children| && parent.children[k] == n
    modifies w.nodes
    ensures w'.nodes <= w.nodes
    ensures Became(old(At(w)), At(w'), parent, t, Drop(t.fields, k))
  {
    hide AllRep, Forest, Ranked, Reworked;
    ghost var h := At(w);
    ChildAt(h, parent, t, k);
    Dropped(h, parent, t, k);
    var freed := Delete(n, t.fields[k].node, w.nodes, w.rank);
    w' := World(w.nodes - ToSet(freed), w.rank);
    assert ToSet(freed) == Nodes(h.cells, n, t.fields[k].node);
    BecameFrom(h, At(w'), parent, t, Drop(t.fields, k));
  }

  // Another value for the child number `k`: a scalar, or a compound with another flag
  method SetValue(n: Config, v: Node, ghost parent: Config, ghost k: nat, ghost t: Node, ghost w: World)
    requires Ready(At(w), parent, t) && k < |t.fields| && k < |parent.children| && parent.children[k] == n
    requires v.Compound? == t.fields[k].node.Compound? && (v.Compound? ==> v.fields == [])
    modifies n`value
    ensures Became(old(At(w)), At(w), parent, t,
      t.fields[k := Field(t.fields[k].id, if v.Compound? then t.fields[k].node.(join := v.join) else v)])
    ensures parent.children == old(parent.children)
  {
    hide AllRep, Forest, Ranked, Reworked;
    ghost var h := At(w);
    ghost var u := if v.Compound? then t.fields[k].node.(join := v.join) else v;
    ChildAt(h, parent, t, k);
    NewValue(h, n, t.fields[k].node, u);
    n.value := v;
    assert At(w) == h.(cells := h.cells[n := h.cells[n].(value := v)]);
    ChildBecame(h, At(w), parent, t, k, u);
  }
}
