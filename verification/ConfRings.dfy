// The two views of a compound's children in src/conf.c: the sequence of nodes of ConfHeap
// and ConfTakeOver, and the ring of list heads of RingList. The pointer operations lead
// from the ring of the one sequence to the ring of the next one.

module ConfRings {
  import opened ConfText
  import opened ConfTree
  import opened ConfHeap
  import opened ConfTakeOver
  import opened RingList
  import ConfSubstitute

  // Where the list heads of the nodes are: `u.compound.fields` of a node, and its `list`.
  datatype Layout = Layout(fields: map<Config, ListHead>, list: map<Config, ListHead>)

  // Every node has two list heads of its own.
  ghost predicate Apart(l: Layout, s: Snap) {
    && s.Keys <= l.fields.Keys && s.Keys <= l.list.Keys
    && (forall a, b :: a in l.fields && b in l.fields && a != b ==> l.fields[a] != l.fields[b])
    && (forall a, b :: a in l.list && b in l.list && a != b ==> l.list[a] != l.list[b])
    && (forall a, b :: a in l.fields && b in l.list ==> l.fields[a] != l.list[b])
  }

  ghost function Links(l: Layout, cs: seq<Config>): (r: seq<ListHead>)
    requires forall i :: 0 <= i < |cs| ==> cs[i] in l.list
    ensures |r| == |cs| && forall i :: 0 <= i < |r| ==> r[i] == l.list[cs[i]] && r[i] in l.list.Values
  {
    seq(|cs|, i requires 0 <= i < |cs| => l.list[cs[i]])
  }

  ghost predicate LaidAt(s: Snap, l: Layout, n: Config)
    requires n in s && n in l.fields
    reads l.fields.Values, l.list.Values
  {
    s[n].value.Compound? ==>
      (forall i :: 0 <= i < |s[n].children| ==> s[n].children[i] in l.list)
      && IsRing(l.fields[n], Links(l, s[n].children))
  }

  // The list of every compound is the ring of its children.
  ghost predicate Laid(s: Snap, l: Layout)
    reads l.fields.Values, l.list.Values
  {
    Apart(l, s) && forall n :: n in s ==> LaidAt(s, l, n)
  }

  // Two nodes' lists have nothing in common.
  lemma ListsApart(s: Snap, l: Layout, n: Config, m: Config)
    requires Forest(s) && Apart(l, s) && n in s && m in s && n != m
    requires forall i :: 0 <= i < |s[n].children| ==> s[n].children[i] in l.list
    requires forall i :: 0 <= i < |s[m].children| ==> s[m].children[i] in l.list
    ensures forall x :: x in [l.fields[n]] + Links(l, s[n].children) ==>
      x !in [l.fields[m]] + Links(l, s[m].children)
  {
    assert NodeOk(s, n) && NodeOk(s, m);
  }

  // A loose node's link is in no list.
  lemma LooseApart(s: Snap, l: Layout, n: Config, m: Config)
    requires Forest(s) && Apart(l, s) && n in s && m in s && s[m].parent == null
    requires forall i :: 0 <= i < |s[n].children| ==> s[n].children[i] in l.list
    ensures l.list[m] !in [l.fields[n]] + Links(l, s[n].children)
  {
    assert NodeOk(s, n);
  }

  // snd_config_add, after it has found that the node can be added
  method LinkChild(parent: Config, child: Config, l: Layout, ghost s: Snap)
    requires Forest(s) && Laid(s, l) && parent in s && child in s
    requires s[parent].value.Compound? && s[child].parent == null
    modifies l.list.Values, l.fields.Values
    ensures Laid(AddTo(s, parent, child), l)
  {
    hide Forest, IsRing;
    ghost var cs, t := s[parent].children, AddTo(s, parent, child);
    assert LaidAt(s, l, parent);
    LooseApart(s, l, parent, child);
    ghost var xs := Links(l, cs);
    assert Links(l, cs + [child]) == Insert(xs, |xs|, l.list[child]);
    Ends(l.fields[parent], xs);
    AddTail(l.list[child], l.fields[parent], l.fields[parent], xs, |xs|);
    forall n | n in t ensures LaidAt(t, l, n) {
      assert old(LaidAt(s, l, n));
      if n != parent && s[n].value.Compound? {
        ListsApart(s, l, parent, n);
        LooseApart(s, l, n, child);
      }
    }
  }

  // The neighbours of the head.
  lemma Ends(head: ListHead, xs: seq<ListHead>)
    requires IsRing(head, xs)
    ensures head == Around(head, xs)[|xs|+1] && head.prev in [head] + xs && head.next in [head] + xs
  {
    var a := Around(head, xs);
    assert a[|xs|+1].prev == a[|xs|] && a[0].next == a[1];
    assert a[|xs|] == ([head] + xs)[|xs|] && (xs != [] ==> a[1] == xs[0]);
  }

  // The neighbours of an entry.
  lemma Neighbours(head: ListHead, xs: seq<ListHead>, k: nat)
    requires IsRing(head, xs) && k < |xs|
    ensures xs[k].prev in [head] + xs && xs[k].next in [head] + xs
  {
    var a := Around(head, xs);
    assert a[k+1] == xs[k] && a[k+1].prev == a[k] && a[k+1].next == a[k+2];
    assert a[k] == ([head] + xs)[k] && a[k+2] == if k + 1 < |xs| then xs[k+1] else head;
  }

  lemma {:induction false} WithoutOne(cs: seq<Config>, k: nat)
    requires k < |cs| && NoDup(cs)
    ensures ConfHeap.Without(cs, cs[k]) == cs[..k] + cs[k+1..]
  {
    if k == 0 {
      WithoutNone(cs[1..], cs[0]);
    } else {
      assert cs[0] != cs[k] && cs[1..][k-1] == cs[k];
      WithoutOne(cs[1..], k - 1);
    }
  }

  lemma {:induction false} WithoutNone(cs: seq<Config>, c: Config)
    requires c !in cs
    ensures ConfHeap.Without(cs, c) == cs
  {
    if cs != [] { WithoutNone(cs[1..], c); }
  }

  // Where a node is in the list of its parent.
  lemma Place(s: Snap, l: Layout, n: Config, p: Config) returns (k: nat)
    requires Forest(s) && Laid(s, l) && n in s && s[n].parent == p
    ensures p in s && s[p].value.Compound? && LaidAt(s, l, p) && NodeOk(s, n)
    ensures k < |s[p].children| && s[p].children[k] == n
    ensures ConfHeap.Without(s[p].children, n) == s[p].children[..k] + s[p].children[k+1..]
  {
    hide ConfHeap.Without, IsRing;
    assert NodeOk(s, n) && NodeOk(s, p) && LaidAt(s, l, p);
    k :| 0 <= k < |s[p].children| && s[p].children[k] == n;
    WithoutOne(s[p].children, k);
  }

  // The links of the children that are left.
  lemma LinksLeft(l: Layout, cs: seq<Config>, k: nat)
    requires k < |cs| && forall i :: 0 <= i < |cs| ==> cs[i] in l.list
    ensures var left := cs[..k] + cs[k+1..];
      && (forall i :: 0 <= i < |left| ==> left[i] in l.list)
      && Links(l, left) == RingList.Remove(Links(l, cs), k)
  {
  }

  lemma RemovedAt(s: Snap, n: Config, m: Config)
    requires n in s && s[n].parent != null && s[n].parent in s && m in s
    ensures m in RemoveFrom(s, n) && RemoveFrom(s, n)[m].value == s[m].value
    ensures RemoveFrom(s, n)[m].children ==
      if m == s[n].parent then ConfHeap.Without(s[m].children, n) else s[m].children
  {
  }

  // list_del in snd_config_remove and snd_config_delete
  method UnlinkChild(config: Config, l: Layout, ghost s: Snap)
    requires Forest(s) && Laid(s, l) && config in s && s[config].parent != null && NodeOk(s, config)
    modifies l.list.Values, l.fields.Values
    ensures Laid(RemoveFrom(s, config), l)
  {
    hide Forest, IsRing, ConfHeap.Without, NodeOk, RemoveFrom;
    ghost var parent: Config := s[config].parent;
    ghost var k := Place(s, l, config, parent);
    ghost var t, xs := RemoveFrom(s, config), Links(l, s[parent].children);
    LinksLeft(l, s[parent].children, k);
    Neighbours(l.fields[parent], xs, k);
    Del(l.list[config], l.fields[parent], xs, k);
    RemoveKeys(s, config);
    forall n | n in t ensures LaidAt(t, l, n) {
      assert old(LaidAt(s, l, n));
      RemovedAt(s, config, n);
      if n != parent && s[n].value.Compound? {
        ListsApart(s, l, parent, n);
      }
    }
  }

  // snd_config_substitute with a compound as the source; `both` if the destination is one,
  // too. Whatever the code may leave
  // behind, the lists are those of the nodes' children if `dst` was able to take over the
  // children of `src`, and otherwise they are not.
  method Substitute(dst: Config, src: Config, both: bool, l: Layout, ghost s: Snap, ghost up: set<Config>)
    requires Separate(s, dst, src, up) && Laid(s, l) && both == s[dst].value.Compound?
    requires s[src].value.Compound? && s[dst].children == []
    modifies l.list.Values, l.fields.Values
    ensures CanTakeOver(s, dst, src) ==> Laid(Substituted(s, dst, src), l)
    ensures !CanTakeOver(s, dst, src) ==> forall u :: Outcome(s, dst, src, u) ==> !Laid(u, l)
  {
    hide Forest, IsRing, Substituted, Outcome;
    ghost var xs := Links(l, s[src].children);
    assert LaidAt(s, l, src);
    if both {
      HandOverChildren(dst, src, l, s, up);
    } else {
      ConfSubstitute.CopyHead(l.fields[dst], l.fields[src], xs);
    }
    if !CanTakeOver(s, dst, src) {
      forall u | Outcome(s, dst, src, u) ensures !Laid(u, l) {
        NoChildren(s, dst, src, u, l);
      }
    }
  }

  // A list that is no ring without `src` is not that of any children.
  lemma NoChildren(s: Snap, dst: Config, src: Config, u: Snap, l: Layout)
    requires dst in s && src in s && dst != src && Outcome(s, dst, src, u) && s[src].value.Compound?
    requires Apart(l, s) && forall zs :: l.fields[src] !in zs ==> !IsRing(l.fields[dst], zs)
    ensures !Laid(u, l)
  {
    hide IsRing;
    var cs := u[dst].children;
    if forall i :: 0 <= i < |cs| ==> cs[i] in l.list {
      assert l.fields[src] !in Links(l, cs);
    }
    assert !LaidAt(u, l, dst);
  }

  // Two compounds: the children of the source are told of their new head.
  method HandOverChildren(dst: Config, src: Config, l: Layout, ghost s: Snap, ghost up: set<Config>)
    requires Separate(s, dst, src, up) && Laid(s, l)
    requires s[dst].value.Compound? && s[src].value.Compound? && s[dst].children == []
    modifies l.list.Values, l.fields.Values
    ensures s[src].children != [] ==> Laid(Substituted(s, dst, src), l)
    ensures s[src].children == [] ==> forall zs :: l.fields[src] !in zs ==> !IsRing(l.fields[dst], zs)
  {
    hide Forest, IsRing, Substituted;
    ghost var u := Substituted(s, dst, src);
    ghost var xs := Links(l, s[src].children);
    assert LaidAt(s, l, dst) && LaidAt(s, l, src);
    ListsApart(s, l, src, dst);
    Ends(l.fields[src], xs);
    ConfSubstitute.Substitute(l.fields[dst], l.fields[src], xs, []);
    SubstitutedKeys(s, dst, src);
    if xs != [] {
      forall n | n in u ensures LaidAt(u, l, n) {
        assert old(LaidAt(s, l, n));
        SubstitutedAt(s, dst, src, up, n);
        if n != dst && s[n].value.Compound? {
          ListsApart(s, l, src, n);
          ListsApart(s, l, dst, n);
        }
      }
    }
  }

  // The lists determine the children.
  lemma ChildrenAre(s: Snap, l: Layout, n: Config, cs: seq<Config>)
    requires Laid(s, l) && n in s && s[n].value.Compound?
    requires (forall i :: 0 <= i < |cs| ==> cs[i] in l.list) && IsRing(l.fields[n], Links(l, cs))
    ensures cs == s[n].children
  {
    hide IsRing;
    var ds := s[n].children;
    assert LaidAt(s, l, n);
    Contents(l.fields[n], Links(l, cs), Links(l, ds));
    forall i | 0 <= i < |cs| ensures cs[i] == ds[i] {
      assert Links(l, cs)[i] == Links(l, ds)[i];
    }
  }
}
