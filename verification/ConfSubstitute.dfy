// How snd_config_substitute in src/conf.c hands the children of one compound over to
// another one, on the two list heads and the ring between them.

module ConfSubstitute {
  import opened RingList

  // The entries' outer neighbours are pointed at the new head, and the new head becomes a
  // copy of the old one. Afterwards the old head is freed.
  method HandOver(dst: ListHead, src: ListHead, ghost xs: seq<ListHead>, ghost ys: seq<ListHead>)
    requires IsRing(src, xs) && IsRing(dst, ys)
    requires forall x :: x in [src] + xs ==> x !in [dst] + ys
    modifies src, src.next, src.prev, dst
    ensures xs != [] ==> IsRing(dst, xs)
    ensures xs == [] ==> dst.next == src
  {
    ghost var a, b := Around(src, xs), Around(dst, xs);
    DistinctAround(src, xs);
    First(src, xs);
    assert a[|xs|+1] == src && src.prev == a[|xs|];
    assert src in [src] + xs && dst in [dst] + ys && src != dst;
    assert forall i :: 0 <= i <= |xs| ==> a[i] == ([src] + xs)[i] && a[i] in [src] + xs;
    assert dst !in [src] + xs && src.next == a[1];
    src.next.prev := dst;
    src.prev.next := dst;
    dst.next, dst.prev := src.next, src.prev;
    if xs != [] {
      NewHead(src, dst, xs);
      forall i | 0 <= i < |b|
        ensures i + 1 < |b| ==> b[i].next == b[i+1]
        ensures 0 < i ==> b[i].prev == b[i-1]
      {
        assert b[i] == if i == 0 || i == |xs| + 1 then dst else a[i];
        if i + 1 < |b| { assert b[i+1] == if i + 1 == |xs| + 1 then dst else a[i+1]; }
        if 0 < i { assert b[i-1] == if i - 1 == 0 then dst else a[i-1]; }
      }
    }
  }

  lemma NewHead(src: ListHead, dst: ListHead, xs: seq<ListHead>)
    requires Distinct([src] + xs) && dst !in xs
    ensures Distinct([dst] + xs)
  {
    forall i, j | 0 <= i < j < |[dst] + xs| ensures ([dst] + xs)[i] != ([dst] + xs)[j] {
      assert ([src] + xs)[j] == xs[j-1] && (i > 0 ==> ([src] + xs)[i] == xs[i-1]);
    }
  }

  // A head that points at `src` is no list that could do without `src`.
  lemma PointsAtFreedHead(dst: ListHead, src: ListHead, zs: seq<ListHead>)
    requires dst.next == src && dst != src
    requires src !in zs
    ensures !IsRing(dst, zs)
  {
    if IsRing(dst, zs) { NextIsLocal(dst, zs); }
  }

  lemma NextIsLocal(head: ListHead, xs: seq<ListHead>)
    requires IsRing(head, xs)
    ensures head.next == head || head.next in xs
  {
    First(head, xs);
    assert xs != [] ==> xs[0] in xs;
  }

  // So the compound ends up with exactly the children of the source, in order, if and
  // only if there were any.
  method Substitute(dst: ListHead, src: ListHead, ghost xs: seq<ListHead>, ghost ys: seq<ListHead>)
    requires IsRing(src, xs) && IsRing(dst, ys)
    requires forall x :: x in [src] + xs ==> x !in [dst] + ys
    modifies src, src.next, src.prev, dst
    ensures IsRing(dst, xs) <==> xs != []
    ensures xs == [] ==> forall zs: seq<ListHead> :: src !in zs ==> !IsRing(dst, zs)
  {
    assert src in [src] + xs && dst in [dst] + ys && src != dst;
    assert src !in xs by {
      assert forall i :: 0 <= i < |xs| ==> ([src] + xs)[i+1] == xs[i] && ([src] + xs)[0] != ([src] + xs)[i+1];
    }
    HandOver(dst, src, xs, ys);
    if xs == [] {
      forall zs: seq<ListHead> | src !in zs ensures !IsRing(dst, zs) {
        PointsAtFreedHead(dst, src, zs);
      }
    }
  }

  // If the destination was no compound before, its head becomes a copy, and nothing else
  // happens. The last entry goes on to the old head, so this is no list that could do
  // without that, however many entries there are.
  method CopyHead(dst: ListHead, src: ListHead, ghost xs: seq<ListHead>)
    requires IsRing(src, xs) && dst !in [src] + xs
    modifies dst
    ensures forall zs: seq<ListHead> :: src !in zs ==> !IsRing(dst, zs)
  {
    ghost var a := Around(src, xs);
    First(src, xs);
    assert src in [src] + xs && dst != src;
    assert forall i :: 0 < i <= |xs| ==> a[i] == xs[i-1] && a[i] in [src] + xs;
    dst.next, dst.prev := src.next, src.prev;
    assert forall i :: 0 < i <= |xs| ==> a[i].next == a[i+1];
    assert dst.next == a[1];
    forall zs: seq<ListHead> | src !in zs ensures !IsRing(dst, zs) {
      if IsRing(dst, zs) { LeadsBack(dst, src, xs, zs, |xs|); }
    }
  }

  // Following a copied head leads along the old entries, up to the old head.
  lemma {:induction false} LeadsBack(dst: ListHead, src: ListHead, xs: seq<ListHead>, zs: seq<ListHead>, n: nat)
    requires dst !in [src] + xs && IsRing(dst, zs) && n <= |xs| && dst.next == Around(src, xs)[1]
    requires forall i :: 0 < i <= |xs| ==> Around(src, xs)[i].next == Around(src, xs)[i+1]
    ensures n <= |zs| && Around(dst, zs)[n+1] == Around(src, xs)[n+1]
    ensures n == |xs| ==> src in zs
    decreases n
  {
    var a, b := Around(src, xs), Around(dst, zs);
    if n == 0 {
      assert b[0].next == b[1];
    } else {
      LeadsBack(dst, src, xs, zs, n - 1);
      assert b[n] == a[n] == xs[n-1] && xs[n-1] in [src] + xs;
      assert n != |zs| + 1;
      assert b[n].next == b[n+1];
    }
    if n == |xs| {
      assert b[n+1] == src && src in [src] + xs && src != dst;
      assert n < |zs| && zs[n] == src;
    }
  }
}
