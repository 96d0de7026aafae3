// The circular doubly linked lists of include/list.h. A list is a head and its
// entries; every node of the ring points at both of its neighbours.

module RingList {

  class ListHead {
    var next: ListHead
    var prev: ListHead

    // INIT_LIST_HEAD
    constructor ()
      ensures fresh(this) && IsRing(this, [])
    {
      next, prev := this, this;
    }
  }

  predicate Distinct(s: seq<ListHead>) {
    forall i, j :: 0 <= i < j < |s| ==> s[i] != s[j]
  }

  // The ring, cut open at its head.
  function Around(head: ListHead, xs: seq<ListHead>): (r: seq<ListHead>)
    ensures |r| == |xs| + 2
  {
    [head] + xs + [head]
  }

  predicate Linked(s: seq<ListHead>)
    reads s
  {
    && (forall i :: 0 <= i < |s| - 1 ==> s[i].next == s[i+1])
    && (forall i :: 0 < i < |s| ==> s[i].prev == s[i-1])
  }

  // The entries of the list at `head` are exactly `xs`, in this order.
  predicate IsRing(head: ListHead, xs: seq<ListHead>)
    reads head, xs
  {
    Distinct([head] + xs) && Linked(Around(head, xs))
  }

  // A ring determines its entries.
  lemma {:induction false} ContentsUnique(head: ListHead, xs: seq<ListHead>, ys: seq<ListHead>, n: nat)
    requires IsRing(head, xs) && IsRing(head, ys) && n <= |xs| && n <= |ys|
    ensures xs[..n] == ys[..n]
    ensures n == |xs| || n == |ys| ==> xs == ys
  {
    var a, b := Around(head, xs), Around(head, ys);
    if n > 0 {
      ContentsUnique(head, xs, ys, n - 1);
      assert a[n-1] == b[n-1] by {
        if n > 1 { assert xs[..n-1][n-2] == ys[..n-1][n-2]; }
      }
      assert a[n-1].next == a[n] && b[n-1].next == b[n];
      assert xs[..n] == xs[..n-1] + [xs[n-1]] && ys[..n] == ys[..n-1] + [ys[n-1]];
    }
    if n == |xs| || n == |ys| {
      assert a[n] == b[n] by {
        if n > 0 { assert xs[..n][n-1] == ys[..n][n-1]; }
      }
      assert a[n+1] == b[n+1];
      assert ([head] + xs)[0] == head && ([head] + ys)[0] == head;
      DistinctAround(head, xs);
      DistinctAround(head, ys);
      assert xs == xs[..n] && ys == ys[..n];
    }
  }

  lemma Contents(head: ListHead, xs: seq<ListHead>, ys: seq<ListHead>)
    requires IsRing(head, xs) && IsRing(head, ys)
    ensures xs == ys
  {
    ContentsUnique(head, xs, ys, if |xs| < |ys| then |xs| else |ys|);
  }

  function Insert(xs: seq<ListHead>, k: nat, x: ListHead): (r: seq<ListHead>)
    requires k <= |xs|
    ensures k == 0 ==> r == [x] + xs
    ensures k == |xs| ==> r == xs + [x]
  {
    xs[..k] + [x] + xs[k..]
  }

  function Remove(xs: seq<ListHead>, k: nat): seq<ListHead>
    requires k < |xs|
  {
    xs[..k] + xs[k+1..]
  }

  // __list_add: between the neighbours number `k` and `k` + 1 of the ring.
  method AddBetween(x: ListHead, prev: ListHead, next: ListHead, ghost head: ListHead,
                    ghost xs: seq<ListHead>, ghost k: nat)
    requires IsRing(head, xs) && x !in [head] + xs && k <= |xs|
    requires prev == Around(head, xs)[k] && next == Around(head, xs)[k+1]
    modifies x, prev, next
    ensures IsRing(head, Insert(xs, k, x))
  {
    ghost var before, after := Around(head, xs), Around(head, Insert(xs, k, x));
    DistinctInsert(head, xs, k, x);
    DistinctAround(head, xs);
    next.prev := x;
    x.next := next;
    x.prev := prev;
    prev.next := x;
    forall i | 0 <= i < |after|
      ensures i + 1 < |after| ==> after[i].next == after[i+1]
      ensures 0 < i ==> after[i].prev == after[i-1]
    {
      assert after[i] == if i <= k then before[i] else if i == k + 1 then x else before[i-1];
      if i + 1 < |after| {
        assert after[i+1] == if i < k then before[i+1] else if i == k then x else before[i];
      }
      if 0 < i {
        assert after[i-1] == if i <= k + 1 then before[i-1] else if i == k + 2 then x else before[i-2];
      }
    }
  }

  lemma DistinctAround(head: ListHead, xs: seq<ListHead>)
    requires Distinct([head] + xs)
    ensures var a := Around(head, xs);
      forall i, j :: 0 <= i < j < |a| && a[i] == a[j] ==> i == 0 && j == |xs| + 1
  {
    var a := Around(head, xs);
    assert forall i :: 0 <= i <= |xs| ==> a[i] == ([head] + xs)[i];
    assert a[|xs|+1] == ([head] + xs)[0];
  }

  lemma DistinctInsert(head: ListHead, xs: seq<ListHead>, k: nat, x: ListHead)
    requires Distinct([head] + xs) && x !in [head] + xs && k <= |xs|
    ensures Distinct([head] + Insert(xs, k, x))
  {
    var s, t := [head] + xs, [head] + Insert(xs, k, x);
    assert forall i :: 0 <= i < |s| ==> s[i] != x;
    forall i, j | 0 <= i < j < |t| ensures t[i] != t[j] {
      assert t[i] == if i <= k then s[i] else if i == k + 1 then x else s[i-1];
      assert t[j] == if j <= k then s[j] else if j == k + 1 then x else s[j-1];
    }
  }

  // list_add behind any node of the ring; behind the head, it prepends.
  method Add(x: ListHead, at: ListHead, ghost head: ListHead, ghost xs: seq<ListHead>, ghost k: nat)
    requires IsRing(head, xs) && x !in [head] + xs && k <= |xs| && at == Around(head, xs)[k]
    modifies x, at, at.next
    ensures IsRing(head, Insert(xs, k, x))
  {
    assert Linked(Around(head, xs));
    AddBetween(x, at, at.next, head, xs, k);
  }

  // list_add_tail before any node of the ring; before the head, it appends.
  method AddTail(x: ListHead, at: ListHead, ghost head: ListHead, ghost xs: seq<ListHead>, ghost k: nat)
    requires IsRing(head, xs) && x !in [head] + xs && k <= |xs| && at == Around(head, xs)[k+1]
    modifies x, at, at.prev
    ensures IsRing(head, Insert(xs, k, x))
  {
    assert Linked(Around(head, xs));
    AddBetween(x, at.prev, at, head, xs, k);
  }

  // list_del: the entry itself keeps its stale pointers.
  method Del(entry: ListHead, ghost head: ListHead, ghost xs: seq<ListHead>, ghost k: nat)
    requires IsRing(head, xs) && k < |xs| && entry == xs[k]
    modifies entry.prev, entry.next
    ensures IsRing(head, Remove(xs, k))
    ensures entry.next == old(entry.next) && entry.prev == old(entry.prev)
  {
    ghost var before, after := Around(head, xs), Around(head, Remove(xs, k));
    DistinctAround(head, xs);
    DistinctRemove(head, xs, k);
    assert entry == before[k+1];
    var prev, next := entry.prev, entry.next;
    assert prev == before[k] && next == before[k+2];
    next.prev := prev;
    prev.next := next;
    forall i | 0 <= i < |after|
      ensures i + 1 < |after| ==> after[i].next == after[i+1]
      ensures 0 < i ==> after[i].prev == after[i-1]
    {
      assert after[i] == if i <= k then before[i] else before[i+1];
      if i + 1 < |after| { assert after[i+1] == if i < k then before[i+1] else before[i+2]; }
      if 0 < i { assert after[i-1] == if i <= k + 1 then before[i-1] else before[i]; }
    }
  }

  lemma DistinctRemove(head: ListHead, xs: seq<ListHead>, k: nat)
    requires Distinct([head] + xs) && k < |xs|
    ensures Distinct([head] + Remove(xs, k)) && xs[k] !in [head] + Remove(xs, k)
  {
    var s, t := [head] + xs, [head] + Remove(xs, k);
    assert s[k+1] == xs[k];
    forall i, j | 0 <= i < j < |t| ensures t[i] != t[j] {
      assert t[i] == if i <= k then s[i] else s[i+1];
      assert t[j] == if j <= k then s[j] else s[j+1];
    }
    forall i | 0 <= i < |t| ensures t[i] != xs[k] {
      assert t[i] == if i <= k then s[i] else s[i+1];
    }
  }

  // list_del_init
  method DelInit(entry: ListHead, ghost head: ListHead, ghost xs: seq<ListHead>, ghost k: nat)
    requires IsRing(head, xs) && k < |xs| && entry == xs[k]
    modifies entry, entry.prev, entry.next
    ensures IsRing(head, Remove(xs, k)) && IsRing(entry, [])
  {
    DistinctRemove(head, xs, k);
    Del(entry, head, xs, k);
    entry.next, entry.prev := entry, entry;
    assert forall x :: x in Around(head, Remove(xs, k)) ==> x in [head] + Remove(xs, k);
  }

  // list_empty
  method Empty(head: ListHead, ghost xs: seq<ListHead>) returns (empty: bool)
    requires IsRing(head, xs)
    ensures empty <==> xs == []
  {
    empty := head.next == head;
    assert Around(head, xs)[0].next == Around(head, xs)[1];
    assert xs != [] ==> ([head] + xs)[0] != ([head] + xs)[1];
  }

  // list_splice: the entries of `list` go in front of those of `head`.
  method Splice(list: ListHead, head: ListHead, ghost xs: seq<ListHead>, ghost ys: seq<ListHead>)
    requires IsRing(list, xs) && IsRing(head, ys)
    requires forall x :: x in [list] + xs ==> x !in [head] + ys
    modifies list.next, list.prev, head, head.next
    ensures IsRing(head, xs + ys)
    ensures list.next == old(list.next) && list.prev == old(list.prev)
  {
    var first := list.next;
    ghost var a, b, c := Around(list, xs), Around(head, ys), Around(head, xs + ys);
    DistinctAround(list, xs);
    DistinctAround(head, ys);
    assert a[0].next == a[1] && a[|xs|+1].prev == a[|xs|] && b[0].next == b[1];
    assert xs != [] ==> ([list] + xs)[0] != ([list] + xs)[1];
    if first != list {
      var last, at := list.prev, head.next;
      assert forall x :: x in a ==> x in [list] + xs;
      assert forall x :: x in b ==> x in [head] + ys;
      first.prev := head;
      head.next := first;
      last.next := at;
      at.prev := last;
      assert forall i :: 0 <= i < |c| ==>
        c[i] == if i == 0 then head else if i <= |xs| then a[i] else b[i-|xs|];
      DistinctConcat(list, head, xs, ys);
    } else {
      assert xs + ys == ys;
    }
  }

  lemma DistinctConcat(list: ListHead, head: ListHead, xs: seq<ListHead>, ys: seq<ListHead>)
    requires Distinct([list] + xs) && Distinct([head] + ys)
    requires forall x :: x in [list] + xs ==> x !in [head] + ys
    ensures Distinct([head] + (xs + ys))
  {
    var s, t, u := [head] + (xs + ys), [list] + xs, [head] + ys;
    assert forall i :: 0 <= i < |s| ==>
      s[i] == if i == 0 then u[0] else if i <= |xs| then t[i] else u[i-|xs|];
    assert forall i :: 0 <= i < |t| ==> t[i] in t;
    assert forall i :: 0 <= i < |u| ==> u[i] in u;
  }

  function Without(xs: seq<ListHead>, doomed: set<ListHead>): seq<ListHead> {
    if xs == [] then []
    else
      var n := |xs| - 1;
      Without(xs[..n], doomed) + if xs[n] in doomed then [] else [xs[n]]
  }

  // What the iteration sees at the first of the entries `more` still to come.
  lemma Cursor(head: ListHead, kept: seq<ListHead>, more: seq<ListHead>)
    requires IsRing(head, kept + more) && more != []
    ensures more[0] != head
    ensures more[0].next == if |more| > 1 then more[1] else head
    ensures |kept| < |kept + more| && more[0] == (kept + more)[|kept|]
    ensures more[0].prev == if kept == [] then head else kept[|kept|-1]
  {
    var ring := kept + more;
    var a := Around(head, ring);
    DistinctAround(head, ring);
    assert a[|kept|+1] == more[0];
    assert a[|kept|+2] == if |more| > 1 then more[1] else head;
    assert a[|kept|] == if kept == [] then head else kept[|kept|-1];
    assert a[0] == head;
  }

  lemma RemoveFirst(kept: seq<ListHead>, more: seq<ListHead>)
    requires more != []
    ensures Remove(kept + more, |kept|) == kept + more[1..]
  {
  }

  lemma First(head: ListHead, xs: seq<ListHead>)
    requires IsRing(head, xs)
    ensures head.next == if xs == [] then head else xs[0]
  {
    assert Around(head, xs)[0] == head && Around(head, xs)[1] == if xs == [] then head else xs[0];
  }

  // list_for_each_safe, with a body that deletes the entries it is told to delete.
  // Every entry is visited once and in order, and the others stay as they were.
  method DeleteEach(head: ListHead, doomed: set<ListHead>, ghost xs: seq<ListHead>)
    returns (visited: seq<ListHead>)
    requires IsRing(head, xs)
    modifies head, xs
    ensures visited == xs && IsRing(head, Without(xs, doomed))
  {
    hide IsRing, Around, Remove;
    visited := [];
    ghost var kept: seq<ListHead>, more := [], xs;
    assert [] + xs == xs;
    First(head, xs);
    var pos := head.next;
    var npos := pos.next;
    while pos != head
      invariant visited + more == xs && kept == Without(visited, doomed)
      invariant IsRing(head, kept + more) && (kept != [] ==> kept[|kept|-1] in xs)
      invariant pos == (if more == [] then head else more[0]) && npos == pos.next
      decreases |more|
    {
      Cursor(head, kept, more);
      assert pos in xs && more == [pos] + more[1..];
      assert (visited + [pos])[..|visited|] == visited;
      visited := visited + [pos];
      if pos in doomed {
        assert pos.next == head || pos.next in xs;
        assert pos.prev == head || pos.prev in xs;
        Del(pos, head, kept + more, |kept|);
        RemoveFirst(kept, more);
      } else {
        assert kept + more == (kept + [pos]) + more[1..];
        kept := kept + [pos];
      }
      more := more[1..];
      pos := npos;
      npos := pos.next;
    }
    if more != [] { Cursor(head, kept, more); }
    assert kept + more == kept && visited + more == visited;
  }
}
