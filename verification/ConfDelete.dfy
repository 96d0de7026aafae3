// snd_config_delete: every node of the subtree is released exactly once, children
// first, and what remains keeps its shape.

module ConfDelete {
  import opened ConfText
  import opened ConfTree
  import opened ConfHeap

  ghost function ToSet(s: seq<Config>): set<Config> {
    set x | x in s
  }

  lemma {:induction false} AllTake(s: Snap, cs: seq<Config>, fs: Fields, k: nat)
    requires AllRep(s, cs, fs) && k < |cs|
    ensures AllRep(s, cs[..k], fs[..k]) && AllRep(s, cs[..k+1], fs[..k+1]) && Rep(s, cs[k], fs[k].node)
    ensures AllOrder(s, cs[..k+1], fs[..k+1]) == AllOrder(s, cs[..k], fs[..k]) + Order(s, cs[k], fs[k].node)
    decreases k
  {
    hide Rep, Order;
    if k > 0 {
      AllTake(s, cs[1..], fs[1..], k - 1);
      assert cs[..k][1..] == cs[1..][..k-1] && fs[..k][1..] == fs[1..][..k-1];
      assert cs[..k+1][1..] == cs[1..][..k] && fs[..k+1][1..] == fs[1..][..k];
    } else {
      assert cs[..1][1..] == [] && fs[..1][1..] == [];
    }
  }

  lemma RootInTree(s: Snap, n: Config, t: Node)
    requires Rep(s, n, t)
    ensures n in s && n in Order(s, n, t)
  {
  }

  // A tree whose nodes have not changed.
  lemma {:induction false} RepKept(s: Snap, s': Snap, n: Config, t: Node)
    requires Rep(s, n, t)
    requires forall i :: 0 <= i < |Order(s, n, t)| ==> var x := Order(s, n, t)[i]; x in s && x in s' && s'[x] == s[x]
    ensures Rep(s', n, t) && Order(s', n, t) == Order(s, n, t)
    decreases t, 1
  {
    var o := Order(s, n, t);
    assert o[|o|-1] == n;
    if t.Compound? {
      assert forall i :: 0 <= i < |o| - 1 ==> o[i] == AllOrder(s, s[n].children, t.fields)[i];
      AllKept(s, s', s[n].children, t.fields);
    }
  }

  lemma {:induction false} AllKept(s: Snap, s': Snap, cs: seq<Config>, fs: Fields)
    requires AllRep(s, cs, fs)
    requires forall i :: 0 <= i < |AllOrder(s, cs, fs)| ==>
      var x := AllOrder(s, cs, fs)[i]; x in s && x in s' && s'[x] == s[x]
    ensures AllRep(s', cs, fs) && AllOrder(s', cs, fs) == AllOrder(s, cs, fs)
    decreases fs
  {
    if fs != [] {
      var a, b := Order(s, cs[0], fs[0].node), AllOrder(s, cs[1..], fs[1..]);
      assert forall i :: 0 <= i < |a| ==> a[i] == AllOrder(s, cs, fs)[i];
      assert forall i :: 0 <= i < |b| ==> b[i] == AllOrder(s, cs, fs)[|a|+i];
      assert a[|a|-1] == cs[0];
      RepKept(s, s', cs[0], fs[0].node);
      AllKept(s, s', cs[1..], fs[1..]);
    }
  }

  // The compound `n` after its first `k` children have been deleted.
  ghost function Loosened(s: Snap, n: Config, k: nat, gone: set<Config>): Snap
    requires n in s && k <= |s[n].children|
  {
    s[n := s[n].(children := s[n].children[k..])] - gone
  }

  ghost predicate Deleting(s: Snap, rank: map<Config, nat>, n: Config, t: Node, k: nat) {
    && Forest(s) && Ranked(s, rank) && Rep(s, n, t) && t.Compound? && n in s
    && k <= |s[n].children| == |t.fields| && AllRep(s, s[n].children, t.fields)
    && AllRep(s, s[n].children[..k], t.fields[..k])
  }

  ghost function GoneBy(s: Snap, n: Config, t: Node, k: nat): set<Config>
    requires t.Compound? && n in s && k <= |s[n].children| == |t.fields|
    requires AllRep(s, s[n].children[..k], t.fields[..k])
  {
    ToSet(AllOrder(s, s[n].children[..k], t.fields[..k]))
  }

  // A node that has gone was in the tree of a deleted child.
  lemma GoneAt(s: Snap, rank: map<Config, nat>, n: Config, t: Node, k: nat, x: Config) returns (j: nat)
    requires Deleting(s, rank, n, t, k) && x in GoneBy(s, n, t, k)
    ensures j < k && x in s && Rep(s, s[n].children[j], t.fields[j].node)
    ensures x in Order(s, s[n].children[j], t.fields[j].node)
    ensures x == s[n].children[j] || (s[x].parent != null && s[x].parent in GoneBy(s, n, t, k))
    ensures rank[x] < rank[n]
  {
    hide Order, AllOrder;
    var cs, fs := s[n].children, t.fields;
    j := AllMember(s, cs[..k], fs[..k], x);
    assert NodeOk(s, n) && Above(rank, n, cs);
    InTree(s, rank, cs[j], fs[j].node, x);
    if x != cs[j] { AllContains(s, cs[..k], fs[..k], j, s[x].parent); }
  }

  lemma GoneClosed(s: Snap, rank: map<Config, nat>, n: Config, t: Node, k: nat, x: Config, i: nat)
    requires Deleting(s, rank, n, t, k) && x in GoneBy(s, n, t, k) && x in s && i < |s[x].children|
    ensures s[x].children[i] in GoneBy(s, n, t, k)
  {
    hide Order, AllOrder, Rep;
    var cs, fs := s[n].children, t.fields;
    var j := GoneAt(s, rank, n, t, k, x);
    TreeClosed(s, cs[j], fs[j].node, x, i);
    AllContains(s, cs[..k], fs[..k], j, s[x].children[i]);
  }

  // The trees of the children that are left have lost nothing.
  lemma StillThere(s: Snap, rank: map<Config, nat>, n: Config, t: Node, k: nat, i: nat, x: Config)
    requires Deleting(s, rank, n, t, k) && k <= i < |s[n].children|
    requires Rep(s, s[n].children[i], t.fields[i].node) && x in Order(s, s[n].children[i], t.fields[i].node)
    ensures x in s && x != n && x !in GoneBy(s, n, t, k)
  {
    hide Order, AllOrder;
    var cs := s[n].children;
    assert NodeOk(s, n) && Above(rank, n, cs);
    InTree(s, rank, cs[i], t.fields[i].node, x);
    if x in GoneBy(s, n, t, k) {
      var j := GoneAt(s, rank, n, t, k, x);
      SiblingsDisjoint(s, rank, cs[i], t.fields[i].node, cs[j], t.fields[j].node, x);
    }
  }

  lemma FirstGone(s: Snap, rank: map<Config, nat>, n: Config, t: Node, k: nat, i: nat)
    requires Deleting(s, rank, n, t, k) && i < k
    ensures s[n].children[i] in GoneBy(s, n, t, k)
  {
    hide AllOrder;
    var cs, fs := s[n].children, t.fields;
    AllRepAt(s, cs[..k], fs[..k], i);
    assert cs[i] in Order(s, cs[i], fs[i].node);
    AllContains(s, cs[..k], fs[..k], i, cs[i]);
  }

  // A node that has not gone: its children are still there ...
  lemma LoosenedChild(s: Snap, rank: map<Config, nat>, n: Config, t: Node, k: nat, m: Config, i: nat)
    requires Deleting(s, rank, n, t, k) && m in s && m !in GoneBy(s, n, t, k) && i < |s[m].children|
    requires m != n || i >= k
    ensures var c := s[m].children[i]; c in s && c !in GoneBy(s, n, t, k) && s[c].parent == m
  {
    hide Order, AllOrder, GoneBy;
    assert NodeOk(s, m);
    var c := s[m].children[i];
    if m == n {
      AllRepAt(s, s[n].children, t.fields, i);
      RootInTree(s, c, t.fields[i].node);
      StillThere(s, rank, n, t, k, i, c);
    } else if c in GoneBy(s, n, t, k) {
      var j := GoneAt(s, rank, n, t, k, c);
      ParentOf(s, n, j);
    }
  }

  lemma ParentOf(s: Snap, n: Config, j: nat)
    requires Forest(s) && n in s && j < |s[n].children|
    ensures s[n].children[j] in s && s[s[n].children[j]].parent == n
  {
    assert NodeOk(s, n);
  }

  // ... and so is its parent.
  lemma LoosenedParent(s: Snap, rank: map<Config, nat>, n: Config, t: Node, k: nat, m: Config)
    requires Deleting(s, rank, n, t, k) && m in s && m !in GoneBy(s, n, t, k)
    ensures s[m].parent != null ==>
      && s[m].parent in s && s[m].parent !in GoneBy(s, n, t, k)
      && m in (if s[m].parent == n then s[n].children[k..] else s[s[m].parent].children)
  {
    hide Order, AllOrder, GoneBy, Rep;
    assert NodeOk(s, m);
    if s[m].parent != null {
      var p: Config := s[m].parent;
      var i :| 0 <= i < |s[p].children| && s[p].children[i] == m;
      if p in GoneBy(s, n, t, k) { GoneClosed(s, rank, n, t, k, p, i); }
      if p == n {
        if i < k { FirstGone(s, rank, n, t, k, i); }
        assert s[n].children[k..][i-k] == m;
      }
    }
  }

  lemma LoosenedNodeOk(s: Snap, rank: map<Config, nat>, n: Config, t: Node, k: nat, m: Config)
    requires Deleting(s, rank, n, t, k) && m in s && m !in GoneBy(s, n, t, k)
    ensures NodeOk(Loosened(s, n, k, GoneBy(s, n, t, k)), m)
  {
    hide Order, AllOrder, GoneBy, Rep, AllRep;
    var gone := GoneBy(s, n, t, k);
    var u := Loosened(s, n, k, gone);
    assert NodeOk(s, m);
    LoosenedParent(s, rank, n, t, k, m);
    forall i | 0 <= i < |u[m].children| ensures u[m].children[i] in u && u[u[m].children[i]].parent == m {
      LoosenedChild(s, rank, n, t, k, m, if m == n then k + i else i);
    }
  }

  lemma LoosenedOk(s: Snap, rank: map<Config, nat>, n: Config, t: Node, k: nat)
    requires Deleting(s, rank, n, t, k)
    ensures var u := Loosened(s, n, k, GoneBy(s, n, t, k)); Forest(u) && Ranked(u, rank)
  {
    hide Order, AllOrder, GoneBy, NodeOk, Rep;
    assert n in s;
    var u := Loosened(s, n, k, GoneBy(s, n, t, k));
    forall m | m in u ensures NodeOk(u, m) && m in rank && Above(rank, m, u[m].children) {
      LoosenedNodeOk(s, rank, n, t, k, m);
      assert Above(rank, m, s[m].children);
    }
  }

  // The next child is still what it was.
  lemma NextIntact(s: Snap, rank: map<Config, nat>, n: Config, t: Node, k: nat)
    requires Deleting(s, rank, n, t, k) && k < |s[n].children|
    ensures var u, c, f := Loosened(s, n, k, GoneBy(s, n, t, k)), s[n].children[k], t.fields[k].node;
      Rep(s, c, f) && Rep(u, c, f) && Order(u, c, f) == Order(s, c, f)
  {
    hide Order, AllOrder, GoneBy;
    var u, c, f := Loosened(s, n, k, GoneBy(s, n, t, k)), s[n].children[k], t.fields[k].node;
    AllRepAt(s, s[n].children, t.fields, k);
    forall i | 0 <= i < |Order(s, c, f)|
      ensures var x := Order(s, c, f)[i]; x in s && x in u && u[x] == s[x]
    {
      StillThere(s, rank, n, t, k, k, Order(s, c, f)[i]);
    }
    RepKept(s, u, c, f);
  }

  // What deleting `n` with the nodes `gone` leaves.
  ghost function Pruned(s: Snap, n: Config, gone: set<Config>): Snap
    requires n in s && (s[n].parent != null ==> s[n].parent in s)
  {
    var t := RemoveFrom(s, n);
    t - gone
  }

  lemma PrunedAt(s: Snap, n: Config, gone: set<Config>, m: Config)
    requires n in s && (s[n].parent != null ==> s[n].parent in s)
    ensures m in Pruned(s, n, gone) <==> m in s && m !in gone
    ensures m in s && m !in gone ==> Pruned(s, n, gone)[m] == RemoveFrom(s, n)[m]
    ensures m in s <==> m in RemoveFrom(s, n)
  {
  }

  // The shape survives a deletion.
  lemma DeleteKeepsShape(s: Snap, n: Config, t: Node, rank: map<Config, nat>)
    requires Forest(s) && Ranked(s, rank) && Rep(s, n, t)
    ensures n in s && (s[n].parent != null ==> s[n].parent in s)
    ensures var u := Pruned(s, n, ToSet(Order(s, n, t))); Forest(u) && Ranked(u, rank)
  {
    hide Order, AllRep, NodeOk, RemoveFrom, Pruned, Rep;
    RootOk(s, n, t);
    RemoveKeepsShape(s, n, rank);
    var r, o := RemoveFrom(s, n), Order(s, n, t);
    var u := Pruned(s, n, ToSet(o));
    forall m | m in u ensures NodeOk(u, m) && m in rank && Above(rank, m, u[m].children) {
      PrunedAt(s, n, ToSet(o), m);
      assert m !in o;
      PrunedNodeOk(s, n, t, rank, m);
      assert Above(rank, m, r[m].children);
    }
  }

  lemma RootOk(s: Snap, n: Config, t: Node)
    requires Forest(s) && Rep(s, n, t)
    ensures n in s && NodeOk(s, n) && (s[n].parent != null ==> s[n].parent in s)
  {
    assert NodeOk(s, n);
  }

  lemma PrunedNodeOk(s: Snap, n: Config, t: Node, rank: map<Config, nat>, m: Config)
    requires Forest(s) && Ranked(s, rank) && Rep(s, n, t) && n in s && NodeOk(s, n)
    requires m in s && m !in Order(s, n, t)
    requires Forest(RemoveFrom(s, n)) && m in RemoveFrom(s, n)
    ensures m in Pruned(s, n, ToSet(Order(s, n, t))) && NodeOk(Pruned(s, n, ToSet(Order(s, n, t))), m)
  {
    hide Order, AllRep, RemoveFrom, Rep;
    var r, o := RemoveFrom(s, n), Order(s, n, t);
    var u := Pruned(s, n, ToSet(o));
    RootInTree(s, n, t);
    assert NodeOk(r, m) && NodeOk(s, m);
    ChildrenAfter(s, n, m);
    forall i | 0 <= i < |r[m].children| ensures r[m].children[i] !in o {
      var c := r[m].children[i];
      if c in o {
        var j :| 0 <= j < |s[m].children| && s[m].children[j] == c;
        InTree(s, rank, n, t, c);
      }
    }
    if r[m].parent != null {
      var p: Config := r[m].parent;
      var i :| 0 <= i < |s[p].children| && s[p].children[i] == m;
      if p in o { TreeClosed(s, n, t, p, i); }
    }
  }

  // The node itself, after its children.
  lemma DeleteLast(s: Snap, rank: map<Config, nat>, n: Config, t: Node, freed: seq<Config>)
    requires Forest(s) && Ranked(s, rank) && Rep(s, n, t) && n in s && NodeOk(s, n)
    requires if t.Compound? then AllRep(s, s[n].children, t.fields) && freed == AllOrder(s, s[n].children, t.fields)
             else freed == [] && s[n].children == []
    ensures Order(s, n, t) == freed + [n] && n !in freed
    ensures s[n].parent != null ==> s[n].parent !in freed && s[n].parent != n
    ensures var u := Loosened(s, n, |s[n].children|, ToSet(freed));
      n in u && Pruned(s, n, ToSet(freed + [n])) == Detached(u, n)
  {
    hide AllOrder, AllRep, Rep, Pruned, Loosened, Detached;
    assert Above(rank, n, s[n].children);
    if s[n].parent != null {
      assert Above(rank, s[n].parent, s[s[n].parent].children);
    }
    if n in freed { BelowRoot(s, rank, n, t, freed, n); }
    if s[n].parent != null && s[n].parent in freed { BelowRoot(s, rank, n, t, freed, s[n].parent); }
    assert ToSet(freed + [n]) == ToSet(freed) + {n};
    PrunedLast(s, n, ToSet(freed));
  }

  // A node taken out of its parent's children, and away.
  ghost function Detached(s: Snap, n: Config): Snap
    requires n in s
  {
    var p := s[n].parent;
    (if p != null && p in s then s[p := s[p].(children := Without(s[p].children, n))] else s) - {n}
  }

  lemma PrunedLast(s: Snap, n: Config, gone: set<Config>)
    requires n in s && n !in gone
    requires s[n].parent != null ==> s[n].parent in s && s[n].parent != n && s[n].parent !in gone
    ensures var u := Loosened(s, n, |s[n].children|, gone);
      n in u && u[n].parent == s[n].parent && Pruned(s, n, gone + {n}) == Detached(u, n)
  {
    hide Without;
    var a, b := Pruned(s, n, gone + {n}), Detached(Loosened(s, n, |s[n].children|, gone), n);
    assert a.Keys == b.Keys;
    forall m | m in a ensures a[m] == b[m] {
    }
  }

  lemma BelowRoot(s: Snap, rank: map<Config, nat>, n: Config, t: Node, freed: seq<Config>, x: Config)
    requires Forest(s) && Ranked(s, rank) && Rep(s, n, t) && n in s && t.Compound?
    requires AllRep(s, s[n].children, t.fields) && freed == AllOrder(s, s[n].children, t.fields)
    requires x in freed
    ensures x in s && rank[x] < rank[n]
  {
    hide AllOrder, Order;
    var k := AllMember(s, s[n].children, t.fields, x);
    assert NodeOk(s, n) && Above(rank, n, s[n].children);
    InTree(s, rank, s[n].children[k], t.fields[k].node, x);
  }

  // snd_config_delete. `freed` lists the nodes in the order in which they are released:
  // the whole subtree, children before parents.
  method Delete(config: Config, ghost t: Node, ghost nodes: set<Config>, ghost rank: map<Config, nat>)
    returns (freed: seq<Config>)
    requires Forest(Now(nodes)) && Ranked(Now(nodes), rank) && Rep(Now(nodes), config, t)
    modifies nodes
    ensures old(NodeOk(Now(nodes), config)) && freed == old(Order(Now(nodes), config, t))
    ensures Now(nodes - ToSet(freed)) == Pruned(old(Now(nodes)), config, ToSet(freed))
    decreases t
  {
    hide Order, AllOrder, AllRep, Pruned, GoneBy, Forest, Ranked, NodeOk;
    ghost var s := Now(nodes);
    freed := [];
    RootOk(s, config, t);
    if config.value.Compound? {
      freed := DeleteChildren(config, t, nodes, rank);
    }
    ghost var live := nodes - ToSet(freed);
    DeletingAll(s, config, t, freed);
    DeleteLast(s, rank, config, t, freed);
    assert config in live && Now(live)[config].parent == s[config].parent;
    Detach(config, live);
    freed := freed + [config];
    assert nodes - ToSet(freed) == live - {config};
  }

  // The last step: list_del and free
  method Detach(config: Config, ghost live: set<Config>)
    requires config in live && (config.parent != null ==> config.parent in live && config.parent != config)
    modifies live
    ensures Now(live - {config}) == Detached(old(Now(live)), config)
  {
    if config.parent != null {
      config.parent.children := Without(config.parent.children, config);
    }
    assert forall m :: m in live - {config} ==> m in live;
  }

  // With no children, nothing has happened yet.
  lemma DeletingAll(s: Snap, n: Config, t: Node, freed: seq<Config>)
    requires Rep(s, n, t) && n in s && (t.Compound? || freed == [])
    ensures !t.Compound? ==> Loosened(s, n, |s[n].children|, ToSet(freed)) == s
  {
    if !t.Compound? { assert ToSet(freed) == {} && s[n].children == []; }
  }

  lemma DeletingStarts(s: Snap, rank: map<Config, nat>, n: Config, t: Node)
    requires Forest(s) && Ranked(s, rank) && Rep(s, n, t) && t.Compound? && n in s
    requires AllRep(s, s[n].children, t.fields)
    ensures Deleting(s, rank, n, t, 0) && |s[n].children| == |t.fields|
    ensures AllRep(s, s[n].children[..0], t.fields[..0])
    ensures AllOrder(s, s[n].children[..0], t.fields[..0]) == []
    ensures Loosened(s, n, 0, {}) == s && s[n].children[0..] == s[n].children
  {
    hide Forest, Ranked, Rep;
    var u := Loosened(s, n, 0, {});
    assert s[n].children[0..] == s[n].children;
    assert u.Keys == s.Keys;
    assert forall m | m in s :: u[m] == s[m];
  }

  lemma {:induction false} WithoutAbsent(xs: seq<Config>, x: Config)
    requires x !in xs
    ensures Without(xs, x) == xs
  {
    if xs != [] { WithoutAbsent(xs[1..], x); }
  }

  // Deleting the next child loosens the compound by one.
  lemma LoosenStep(s: Snap, rank: map<Config, nat>, n: Config, t: Node, k: nat)
    requires Deleting(s, rank, n, t, k) && k < |s[n].children|
    ensures Deleting(s, rank, n, t, k + 1) && AllRep(s, s[n].children[..k+1], t.fields[..k+1])
    ensures var v := Loosened(s, n, k + 1, GoneBy(s, n, t, k + 1));
      n in v && v[n].children == s[n].children[k+1..]
    ensures var u, c, f := Loosened(s, n, k, GoneBy(s, n, t, k)), s[n].children[k], t.fields[k].node;
      && c in u && u[c].parent != null && u[c].parent in u && Rep(s, c, f) && c in Order(s, c, f)
      && Pruned(u, c, ToSet(Order(s, c, f))) == Loosened(s, n, k + 1, GoneBy(s, n, t, k + 1))
      && AllOrder(s, s[n].children[..k+1], t.fields[..k+1])
           == AllOrder(s, s[n].children[..k], t.fields[..k]) + Order(s, c, f)
  {
    hide Order, AllOrder, AllRep, Rep;
    var cs, fs := s[n].children, t.fields;
    var c, f, gone := cs[k], fs[k].node, GoneBy(s, n, t, k);
    AllTake(s, cs, fs, k);
    RootInTree(s, c, f);
    assert NodeOk(s, n) && Above(rank, n, cs);
    StillThere(s, rank, n, t, k, k, c);
    if n in gone { var j := GoneAt(s, rank, n, t, k, n); }
    if n in GoneBy(s, n, t, k + 1) { var j := GoneAt(s, rank, n, t, k + 1, n); }
    var u, v := Loosened(s, n, k, gone), Loosened(s, n, k + 1, GoneBy(s, n, t, k + 1));
    var w := Pruned(u, c, ToSet(Order(s, c, f)));
    assert cs[k..] == [c] + cs[k+1..];
    assert c !in cs[k+1..];
    WithoutAbsent(cs[k+1..], c);
    assert Without(cs[k..], c) == cs[k+1..];
    assert GoneBy(s, n, t, k + 1) == gone + ToSet(Order(s, c, f));
    assert w.Keys == v.Keys;
    assert forall m | m in w :: w[m] == v[m];
  }

  // The loop over the children.
  method DeleteChildren(config: Config, ghost t: Node, ghost nodes: set<Config>, ghost rank: map<Config, nat>)
    returns (freed: seq<Config>)
    requires Forest(Now(nodes)) && Ranked(Now(nodes), rank) && Rep(Now(nodes), config, t)
    requires config in nodes && t.Compound? && AllRep(Now(nodes), config.children, t.fields)
    modifies nodes
    ensures freed == old(AllOrder(Now(nodes), config.children, t.fields))
    ensures Now(nodes - ToSet(freed)) == Loosened(old(Now(nodes)), config, |old(config.children)|, ToSet(freed))
    decreases t, 0
  {
    hide Order, AllOrder, Rep, AllRep, Loosened, Pruned, Forest, Ranked, Deleting;
    ghost var s, cs, fs, k := Now(nodes), config.children, t.fields, 0;
    freed := [];
    DeletingStarts(s, rank, config, t);
    assert ToSet(freed) == {} && nodes - {} == nodes;
    while config.children != []
      invariant 0 <= k <= |cs| == |fs| && config.children == cs[k..]
      invariant Deleting(s, rank, config, t, k) && AllRep(s, cs[..k], fs[..k])
      invariant freed == AllOrder(s, cs[..k], fs[..k])
      invariant Now(nodes - ToSet(freed)) == Loosened(s, config, k, ToSet(freed))
      decreases |config.children|
    {
      var child := config.children[0];
      ghost var live := nodes - ToSet(freed);
      LoosenedOk(s, rank, config, t, k);
      NextIntact(s, rank, config, t, k);
      LoosenStep(s, rank, config, t, k);
      var more := Delete(child, fs[k].node, live, rank);
      assert live - ToSet(more) == nodes - ToSet(freed + more);
      freed := freed + more;
      k := k + 1;
    }
    assert cs[..k] == cs && fs[..k] == fs;
  }
}
