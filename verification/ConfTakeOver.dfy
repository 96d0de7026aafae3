// snd_config_substitute in src/conf.c on nodes: one node becomes another one, whose
// children it takes over. What happens to the list heads is in ConfSubstitute.

module ConfTakeOver {
  import opened ConfText
  import opened ConfTree
  import opened ConfHeap
  import opened ConfDelete
  import opened ConfExpand
  import ConfNodes

  // `dst` has become `src`, which is freed, and its children those of `src`, who are told of
  // their new parent only if both nodes are compounds.
  ghost function Substituted(s: Snap, dst: Config, src: Config): Snap
    requires dst in s && src in s
  {
    (map m | m in s ::
      if m == dst then Cell(s[src].id, s[src].value, s[dst].parent, s[src].children)
      else if s[dst].value.Compound? && m in s[src].children then s[m].(parent := dst)
      else s[m]) - {src}
  }

  // The source is a tree of its own, in which `dst` is not: `up` holds `dst` and all that
  // is above it.
  ghost predicate Separate(s: Snap, dst: Config, src: Config, up: set<Config>) {
    && Forest(s) && dst in s && src in s && s[src].parent == null
    && Upward(s, up) && dst in up && src !in up
  }

  lemma SubstitutedAt(s: Snap, dst: Config, src: Config, up: set<Config>, m: Config)
    requires Separate(s, dst, src, up) && m in s && m != src
    ensures m in Substituted(s, dst, src)
    ensures var u := Substituted(s, dst, src)[m];
      && u.children == (if m == dst then s[src].children else s[m].children)
      && u.value == (if m == dst then s[src].value else s[m].value)
      && u.parent == if s[dst].value.Compound? && s[m].parent == src then dst else s[m].parent
  {
    assert NodeOk(s, m) && NodeOk(s, src);
  }

  lemma SubstitutedKeys(s: Snap, dst: Config, src: Config)
    requires dst in s && src in s
    ensures Substituted(s, dst, src).Keys == s.Keys - {src}
  {
  }

  // The children of a compound can only be taken over by another one, and only if there are
  // any. Otherwise the list of `dst` runs into the freed node (ConfSubstitute.HandOver and
  // CopyHead), and there is no telling what its children are.
  ghost predicate CanTakeOver(s: Snap, dst: Config, src: Config)
    requires dst in s && src in s
  {
    s[src].value.Compound? ==> s[dst].value.Compound? && s[src].children != []
  }

  // What the code may leave behind.
  ghost predicate Outcome(s: Snap, dst: Config, src: Config, u: Snap)
    requires dst in s && src in s && dst != src
  {
    var w := Substituted(s, dst, src);
    && u.Keys == w.Keys && (forall m :: m in u && m != dst ==> u[m] == w[m])
    && u[dst].(children := []) == w[dst].(children := [])
    && (CanTakeOver(s, dst, src) ==> u[dst].children == w[dst].children)
  }

  lemma OutcomeIs(s: Snap, dst: Config, src: Config, u: Snap)
    requires dst in s && src in s && dst != src && Outcome(s, dst, src, u) && CanTakeOver(s, dst, src)
    ensures u == Substituted(s, dst, src)
  {
    hide Substituted;
  }

  // All nodes but the freed one are in the children of exactly their parent, whatever the
  // code leaves behind, if and only if `dst` had no children left, and was able to take
  // over those of `src`.
  lemma SubstituteKeepsForest(s: Snap, dst: Config, src: Config, up: set<Config>)
    requires Separate(s, dst, src, up)
    ensures (forall u :: Outcome(s, dst, src, u) ==> Forest(u))
      <==> s[dst].children == [] && CanTakeOver(s, dst, src)
  {
    hide Substituted, Forest;
    var w := Substituted(s, dst, src);
    SubstitutedKeys(s, dst, src);
    SubstitutedForest(s, dst, src, up);
    if !s[src].value.Compound? {
      ScalarChildren(s, src);
    }
    if s[dst].children == [] && CanTakeOver(s, dst, src) {
      forall u | Outcome(s, dst, src, u) ensures Forest(u) {
        OutcomeIs(s, dst, src, u);
      }
    } else if CanTakeOver(s, dst, src) {
      assert Outcome(s, dst, src, w);
    } else {
      var u := w[dst := w[dst].(children := [dst, dst])];
      assert Outcome(s, dst, src, u);
      TwiceInList(u, dst);
    }
  }

  lemma TwiceInList(s: Snap, n: Config)
    requires n in s && s[n].children == [n, n]
    ensures !Forest(s)
  {
    assert s[n].children[0] == s[n].children[1];
    assert !NodeOk(s, n);
  }

  // The same if the children are taken over in any case.
  lemma SubstitutedForest(s: Snap, dst: Config, src: Config, up: set<Config>)
    requires Separate(s, dst, src, up)
    ensures Forest(Substituted(s, dst, src))
      <==> s[dst].children == [] && (s[dst].value.Compound? || s[src].children == [])
  {
    hide Substituted;
    var u := Substituted(s, dst, src);
    if s[dst].children != [] {
      Orphan(s, dst, src, up);
    } else if !s[dst].value.Compound? && s[src].children != [] {
      Deserted(s, dst, src, up);
    } else {
      SubstitutedKeys(s, dst, src);
      forall m | m in u ensures NodeOk(u, m) {
        SubstitutedNodeOk(s, dst, src, up, m);
      }
    }
  }

  lemma InParent(s: Snap, c: Config)
    requires Forest(s) && c in s && s[c].parent != null
    ensures s[c].parent in s && c in s[s[c].parent].children
  {
    assert NodeOk(s, c);
  }

  // A former child of `dst` is in nobody's children.
  lemma Orphan(s: Snap, dst: Config, src: Config, up: set<Config>)
    requires Separate(s, dst, src, up) && s[dst].children != []
    ensures !Forest(Substituted(s, dst, src))
  {
    var u, c := Substituted(s, dst, src), s[dst].children[0];
    assert NodeOk(s, dst) && NodeOk(s, src);
    assert s[c].parent == dst;
    SubstitutedAt(s, dst, src, up, c);
    if Forest(u) {
      assert u[c].parent == dst;
      InParent(u, c);
    }
  }

  // A child of `src` still has the freed node for its parent.
  lemma Deserted(s: Snap, dst: Config, src: Config, up: set<Config>)
    requires Separate(s, dst, src, up) && !s[dst].value.Compound? && s[src].children != []
    ensures !Forest(Substituted(s, dst, src))
  {
    var u, c := Substituted(s, dst, src), s[src].children[0];
    assert NodeOk(s, src) && s[c].parent == src;
    SubstitutedAt(s, dst, src, up, c);
    if Forest(u) { InParent(u, c); }
  }

  lemma SubstitutedNodeOk(s: Snap, dst: Config, src: Config, up: set<Config>, m: Config)
    requires Separate(s, dst, src, up) && m in s && m != src
    requires s[dst].children == [] && (s[dst].value.Compound? || s[src].children == [])
    ensures m in Substituted(s, dst, src) && NodeOk(Substituted(s, dst, src), m)
  {
    hide Substituted;
    var u := Substituted(s, dst, src);
    SubstitutedAt(s, dst, src, up, m);
    assert NodeOk(s, m) && NodeOk(s, src);
    forall i | 0 <= i < |u[m].children| ensures u[m].children[i] in u && u[u[m].children[i]].parent == m {
      var c := u[m].children[i];
      assert c in s && s[c].parent == if m == dst then src else m;
      assert c != src;
      SubstitutedAt(s, dst, src, up, c);
    }
    if u[m].parent != null {
      var p: Config := u[m].parent;
      assert s[m].parent == src ==> m in s[src].children;
      SubstitutedAt(s, dst, src, up, p);
    }
  }

  // Nothing gets below itself.
  lemma SubstituteKeepsRank(s: Snap, dst: Config, src: Config, up: set<Config>, rank: map<Config, nat>)
    returns (rank': map<Config, nat>)
    requires Separate(s, dst, src, up) && Ranked(s, rank)
    ensures Ranked(Substituted(s, dst, src), rank')
  {
    var u := Substituted(s, dst, src);
    rank' := map m | m in s :: if m in up then rank[m] + rank[src] + 1 else rank[m];
    forall m | m in u ensures m in rank' && Above(rank', m, u[m].children) {
      assert NodeOk(s, m) && NodeOk(s, src) && Above(rank, m, s[m].children) && Above(rank, src, s[src].children);
    }
  }

  // Nothing that is above `dst` is in the tree of `src`.
  lemma {:induction false} NotAbove(s: Snap, src: Config, up: set<Config>, rank: map<Config, nat>, t: Node, x: Config)
    requires Forest(s) && Ranked(s, rank) && Rep(s, src, t) && Upward(s, up) && src in s && src !in up && x in up
    ensures x !in Order(s, src, t)
    decreases if x in rank && src in rank && rank[x] <= rank[src] then rank[src] - rank[x] else 0
  {
    hide Order, Rep;
    if x in Order(s, src, t) {
      InTree(s, rank, src, t, x);
      assert NodeOk(s, x);
      var p: Config := s[x].parent;
      var i :| 0 <= i < |s[p].children| && s[p].children[i] == x;
      assert Above(rank, p, s[p].children);
      InTree(s, rank, src, t, p);
      NotAbove(s, src, up, rank, t, p);
    }
  }

  // `dst` now holds the tree that `src` held.
  lemma TakesTree(s: Snap, dst: Config, src: Config, up: set<Config>, rank: map<Config, nat>, t: Node)
    requires Separate(s, dst, src, up) && Ranked(s, rank) && Rep(s, src, t) && CanTakeOver(s, dst, src)
    ensures forall u :: Outcome(s, dst, src, u) ==> Rep(u, dst, t)
  {
    hide Order, AllOrder, AllRep, Forest, Ranked;
    var u := Substituted(s, dst, src);
    forall w | Outcome(s, dst, src, w) ensures w == u {
      OutcomeIs(s, dst, src, w);
    }
    if t.Compound? {
      var cs, fs := s[src].children, t.fields;
      var mid := s - {dst, src};
      ConfNodes.OrderOf(s, src, t);
      var all := AllOrder(s, cs, fs);
      forall i | 0 <= i < |all| ensures all[i] in s && all[i] in mid && mid[all[i]] == s[all[i]] {
        BelowRoot(s, rank, src, t, all, all[i]);
        assert all[i] in Order(s, src, t);
        NotAbove(s, src, up, rank, t, dst);
      }
      AllKept(s, mid, cs, fs);
      AllRepKeeps(mid, u, cs, fs);
    }
  }

  // The nodes below a node ...
  ghost function Below(s: Snap, n: Config, t: Node): set<Config>
    requires Rep(s, n, t)
  {
    if t.Compound? then ToSet(AllOrder(s, s[n].children, t.fields)) else {}
  }

  // ... and what is left without them
  ghost function Emptied(s: Snap, n: Config, t: Node): Snap
    requires Rep(s, n, t)
  {
    Loosened(s, n, |s[n].children|, Below(s, n, t))
  }

  // Deleting all children keeps the shape.
  lemma EmptiedShape(s: Snap, dst: Config, src: Config, up: set<Config>, rank: map<Config, nat>, t: Node)
    returns (up': set<Config>)
    requires Separate(s, dst, src, up) && Ranked(s, rank) && Rep(s, dst, t)
    ensures Separate(Emptied(s, dst, t), dst, src, up') && Ranked(Emptied(s, dst, t), rank)
    ensures Emptied(s, dst, t)[dst].children == []
    ensures Emptied(s, dst, t)[src] == s[src] && Emptied(s, dst, t)[dst].value == s[dst].value
  {
    hide Order, AllOrder, GoneBy, Forest, Ranked, Loosened;
    if t.Compound? {
      var k := |s[dst].children|;
      ConfNodes.OrderOf(s, dst, t);
      assert s[dst].children[..k] == s[dst].children && t.fields[..k] == t.fields;
      AllRepIds(s, s[dst].children, t.fields);
      LoosenedOk(s, rank, dst, t, k);
      assert GoneBy(s, dst, t, k) == Below(s, dst, t) by { GoneIs(s, dst, t, k); }
      Outside(s, dst, src, rank, t, k);
      LoosenedAt(s, dst, k, Below(s, dst, t));
    } else {
      LoosenedAt(s, dst, 0, {});
      assert Emptied(s, dst, t) == s;
    }
    var e := Emptied(s, dst, t);
    up' := set x | x in up && x in e;
    UpwardIn(s, e, up, up');
  }

  lemma GoneIs(s: Snap, n: Config, t: Node, k: nat)
    requires t.Compound? && n in s && k == |s[n].children| == |t.fields| && Rep(s, n, t)
    requires AllRep(s, s[n].children[..k], t.fields[..k])
    ensures GoneBy(s, n, t, k) == Below(s, n, t)
  {
    assert s[n].children[..k] == s[n].children && t.fields[..k] == t.fields;
  }

  lemma LoosenedAt(s: Snap, n: Config, k: nat, gone: set<Config>)
    requires n in s && k <= |s[n].children|
    ensures var u := Loosened(s, n, k, gone);
      && u.Keys == s.Keys - gone
      && (forall m :: m in u && m != n ==> u[m] == s[m])
      && (n in u ==> u[n] == s[n].(children := s[n].children[k..]))
  {
  }

  // The node itself and the other tree are not below it.
  lemma Outside(s: Snap, n: Config, src: Config, rank: map<Config, nat>, t: Node, k: nat)
    requires Deleting(s, rank, n, t, k) && src in s && s[src].parent == null
    ensures n !in GoneBy(s, n, t, k) && src !in GoneBy(s, n, t, k)
  {
    hide Order, AllOrder, GoneBy, Rep;
    assert NodeOk(s, n);
    if n in GoneBy(s, n, t, k) { var j := GoneAt(s, rank, n, t, k, n); }
    if src in GoneBy(s, n, t, k) { var j := GoneAt(s, rank, n, t, k, src); }
  }

  lemma UpwardIn(s: Snap, e: Snap, up: set<Config>, up': set<Config>)
    requires Upward(s, up) && Forest(e) && up' == (set x | x in up && x in e)
    requires forall m :: m in e ==> m in s && e[m].parent == s[m].parent
    ensures Upward(e, up')
  {
    forall m | m in up' ensures e[m].parent != null ==> e[m].parent in up' {
      assert NodeOk(e, m);
    }
  }


  // If the source is a scalar, it replaces a scalar or all children.
  lemma ScalarKeepsForest(s: Snap, dst: Config, src: Config, up: set<Config>, rank: map<Config, nat>, t: Node)
    requires Separate(s, dst, src, up) && Ranked(s, rank) && Rep(s, dst, t) && !s[src].value.Compound?
    ensures dst in Emptied(s, dst, t) && src in Emptied(s, dst, t)
    ensures forall u :: Outcome(Emptied(s, dst, t), dst, src, u) ==> Forest(u)
  {
    hide Emptied, Rep, Forest;
    var up' := EmptiedShape(s, dst, src, up, rank, t);
    var e := Emptied(s, dst, t);
    assert e[src].children == [] by { ScalarChildren(e, src); }
    SubstituteKeepsForest(e, dst, src, up');
  }

  lemma ScalarChildren(s: Snap, n: Config)
    requires Forest(s) && n in s && !s[n].value.Compound?
    ensures s[n].children == []
  {
    assert NodeOk(s, n);
  }

  // ---- the code ----

  // The children of `src` after they have been told of their new parent.
  ghost function Adopted(s: Snap, dst: Config, src: Config): Snap
    requires src in s
  {
    map m | m in s :: if m in s[src].children then s[m].(parent := dst) else s[m]
  }

  // for each child of the source, n->parent = dst
  method Adopt(dst: Config, src: Config, ghost nodes: set<Config>)
    requires Forest(Now(nodes)) && src in nodes
    modifies src.children`parent
    ensures Now(nodes) == Adopted(old(Now(nodes)), dst, src)
  {
    hide Forest;
    ghost var s, cs := Now(nodes), src.children;
    ChildrenIn(s, src);
    for i := 0 to |src.children|
      invariant src.children == cs && forall j :: 0 <= j < i ==> cs[j].parent == dst
      invariant forall n :: n in nodes && n !in cs ==> n.parent == old(n.parent)
    {
      src.children[i].parent := dst;
    }
    forall n | n in nodes ensures Now(nodes)[n] == Adopted(s, dst, src)[n] {
      assert n in cs ==> n.parent == dst;
    }
  }

  lemma ChildrenIn(s: Snap, n: Config)
    requires Forest(s) && n in s
    ensures forall i :: 0 <= i < |s[n].children| ==> s[n].children[i] in s
  {
    assert NodeOk(s, n);
  }

  // The other fields of the destination. Its list of children is a copy of `taken`, or
  // anything at all if that cannot be taken over.
  method Become(dst: Config, src: Config, can: bool, ghost nodes: set<Config>)
    requires dst in nodes && src in nodes
    modifies dst
    ensures var s := old(Now(nodes));
      && Now(nodes) == s[dst := Cell(s[src].id, s[src].value, s[dst].parent, dst.children)]
      && (can ==> dst.children == s[src].children)
  {
    dst.id, dst.value, dst.children := src.id, src.value, src.children;
    if !can {
      dst.children := *;
    }
  }

  // What the steps make of a state.
  lemma StepsSubstitute(s: Snap, dst: Config, src: Config, up: set<Config>, cs: seq<Config>)
    requires Separate(s, dst, src, up) && (CanTakeOver(s, dst, src) ==> cs == s[src].children)
    ensures var s1 := if s[dst].value.Compound? then Adopted(s, dst, src) else s;
      && dst in s1 && src in s1 && s1[dst].parent == s[dst].parent && s1[src] == s[src]
      && Outcome(s, dst, src, s1[dst := Cell(s1[src].id, s1[src].value, s1[dst].parent, cs)] - {src})
  {
    assert NodeOk(s, src) && NodeOk(s, dst);
  }

  lemma AdoptNothing(s: Snap, dst: Config, src: Config)
    requires src in s && s[src].children == []
    ensures Adopted(s, dst, src) == s
  {
  }

  // A compound as the source.
  method TakeOver(dst: Config, src: Config, ghost nodes: set<Config>, ghost up: set<Config>)
    requires Separate(Now(nodes), dst, src, up)
    modifies nodes
    ensures Outcome(old(Now(nodes)), dst, src, Now(nodes - {src}))
  {
    hide Substituted, Adopted, Outcome;
    ghost var s := Now(nodes);
    assert NodeOk(s, src);
    var can := !src.value.Compound? || (dst.value.Compound? && src.children != []);
    if dst.value.Compound? {
      Adopt(dst, src, nodes);
    }
    StepsSubstitute(s, dst, src, up, s[src].children);
    Become(dst, src, can, nodes);
    StepsSubstitute(s, dst, src, up, dst.children);
    assert Now(nodes - {src}) == Now(nodes) - {src};
  }

  // A scalar as the source.
  method Replace(dst: Config, src: Config, ghost t: Node, ghost nodes: set<Config>, ghost rank: map<Config, nat>,
                 ghost up: set<Config>)
    returns (ghost gone: set<Config>)
    requires Separate(Now(nodes), dst, src, up) && Ranked(Now(nodes), rank) && Rep(Now(nodes), dst, t)
    requires !src.value.Compound?
    modifies nodes
    ensures var s := old(Now(nodes));
      && dst in Emptied(s, dst, t) && src in Emptied(s, dst, t) && gone == {src} + Below(s, dst, t)
      && Outcome(Emptied(s, dst, t), dst, src, Now(nodes - gone))
  {
    hide Substituted, Adopted, Forest, Ranked, Emptied, AllRep, Outcome;
    ghost var s := Now(nodes);
    ghost var up' := EmptiedShape(s, dst, src, up, rank, t);
    ghost var e := Emptied(s, dst, t);
    StepsSubstitute(e, dst, src, up', e[src].children);
    ScalarChildren(e, src);
    AdoptNothing(e, dst, src);
    gone := {};
    if dst.value.Compound? {
      gone := DeleteMembers(dst, t, nodes, rank);
    } else {
      EmptiedScalar(s, dst, t);
      assert nodes - {} == nodes;
    }
    Become(dst, src, true, nodes - gone);
    assert Now(nodes - gone - {src}) == Now(nodes - gone) - {src};
    assert nodes - gone - {src} == nodes - ({src} + gone);
    gone := {src} + gone;
  }

  lemma EmptiedScalar(s: Snap, n: Config, t: Node)
    requires Rep(s, n, t) && !t.Compound?
    ensures Emptied(s, n, t) == s && Below(s, n, t) == {}
  {
    LoosenedAt(s, n, 0, {});
  }

  // snd_config_substitute. If the source is a scalar, the children of the destination go.
  method Substitute(dst: Config, src: Config, ghost t: Node, ghost nodes: set<Config>, ghost rank: map<Config, nat>,
                    ghost up: set<Config>)
    returns (ghost gone: set<Config>)
    requires Separate(Now(nodes), dst, src, up) && Ranked(Now(nodes), rank) && Rep(Now(nodes), dst, t)
    modifies nodes
    ensures var s := old(Now(nodes));
      && dst in s && src in s && dst in Emptied(s, dst, t) && src in Emptied(s, dst, t)
      && gone == {src} + (if s[src].value.Compound? then {} else Below(s, dst, t))
      && Outcome(if s[src].value.Compound? then s else Emptied(s, dst, t), dst, src, Now(nodes - gone))
  {
    hide Substituted, Rep, Forest, Ranked, Emptied, Outcome;
    ghost var up' := EmptiedShape(Now(nodes), dst, src, up, rank, t);
    if src.value.Compound? {
      TakeOver(dst, src, nodes, up);
      gone := {src};
    } else {
      gone := Replace(dst, src, t, nodes, rank, up);
    }
  }

  // snd_config_delete_compound_members
  method DeleteMembers(config: Config, ghost t: Node, ghost nodes: set<Config>, ghost rank: map<Config, nat>)
    returns (ghost gone: set<Config>)
    requires Forest(Now(nodes)) && Ranked(Now(nodes), rank) && Rep(Now(nodes), config, t)
    requires config in nodes && config.value.Compound?
    modifies nodes
    ensures gone == old(Below(Now(nodes), config, t))
    ensures Now(nodes - gone) == old(Emptied(Now(nodes), config, t))
  {
    hide AllOrder, Forest, Ranked, Loosened;
    ConfNodes.OrderOf(Now(nodes), config, t);
    var freed := DeleteChildren(config, t, nodes, rank);
    gone := ToSet(freed);
  }
}
