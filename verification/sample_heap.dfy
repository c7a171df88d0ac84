/** Bounded selection in place: the sampling heap, which holds the greatest candidates seen so far. */
module SampleHeap {
  import opened Common
  import opened Candidates

  function Parent(i: nat): nat {
    if i == 0 then 0 else (i - 1) / 2
  }

  /** No candidate is greater than its children: the smallest is at the root. */
  ghost predicate Heap(h: seq<Cand>) {
    forall i :: 0 < i < |h| ==> !Gt(h[Parent(i)], h[i])
  }

  /** A heap but for the link between idx and its parent. */
  ghost predicate HeapBelow(h: seq<Cand>, idx: nat) {
    && (forall i :: 0 < i < |h| && i != idx ==> !Gt(h[Parent(i)], h[i]))
    && (forall i :: 0 < i < |h| && 0 < Parent(i) == idx ==> !Gt(h[Parent(idx)], h[i]))
  }

  /** A heap but for the links between idx and its children. */
  ghost predicate HeapAbove(h: seq<Cand>, idx: nat) {
    && (forall i :: 0 < i < |h| && Parent(i) != idx ==> !Gt(h[Parent(i)], h[i]))
    && (forall i :: 0 < i < |h| && 0 < Parent(i) == idx ==> idx < |h| && !Gt(h[Parent(idx)], h[i]))
  }

  function Swap(h: seq<Cand>, i: nat, j: nat): (r: seq<Cand>)
    requires i < |h| && j < |h|
    ensures |r| == |h|
  {
    h[i := h[j]][j := h[i]]
  }

  lemma SwapSame(h: seq<Cand>, i: nat, j: nat)
    requires i < |h| && j < |h|
    ensures multiset(Swap(h, i, j)) == multiset(h)
  {
  }

  lemma {:induction false} RootSmallest(h: seq<Cand>, i: nat)
    requires Heap(h) && i < |h|
    ensures !Gt(h[0], h[i])
  {
    if i > 0 {
      RootSmallest(h, Parent(i));
    }
  }

  method SwapAt(a: array<Cand>, i: nat, j: nat, n: nat)
    requires i < n && j < n && n <= a.Length
    modifies a
    ensures a[..n] == Swap(old(a[..n]), i, j) && a[n..] == old(a[n..])
  {
    a[i], a[j] := a[j], a[i];
  }

  lemma MoveUp(h: seq<Cand>, idx: nat)
    requires 0 < idx < |h| && HeapBelow(h, idx) && Gt(h[Parent(idx)], h[idx])
    ensures HeapBelow(Swap(h, Parent(idx), idx), Parent(idx))
  {
    var p := Parent(idx);
    var r := Swap(h, p, idx);
    forall i | 0 < i < |r| && i != p
      ensures !Gt(r[Parent(i)], r[i])
    {
      assert Parent(i) != i;
    }
    forall i | 0 < i < |r| && 0 < Parent(i) == p
      ensures !Gt(r[Parent(p)], r[i])
    {
      assert !Gt(h[Parent(p)], h[p]);
    }
  }

  /** sample_heap_sift_up */
  method SiftUp(a: array<Cand>, n: nat, idx0: nat)
    requires idx0 < n <= a.Length && HeapBelow(a[..n], idx0)
    modifies a
    ensures Heap(a[..n]) && multiset(a[..n]) == multiset(old(a[..n])) && a[n..] == old(a[n..])
  {
    hide Gt, HeapBelow;
    var idx: nat := idx0;
    while idx > 0
      invariant idx < n && HeapBelow(a[..n], idx)
      invariant multiset(a[..n]) == multiset(old(a[..n])) && a[n..] == old(a[n..])
    {
      var parent := (idx - 1) / 2;
      if !Gt(a[parent], a[idx]) {
        break;
      }
      MoveUp(a[..n], idx);
      SwapSame(a[..n], parent, idx);
      SwapAt(a, parent, idx, n);
      idx := parent;
    }
    Settled(a[..n], idx);
  }

  lemma Settled(h: seq<Cand>, idx: nat)
    requires HeapBelow(h, idx) && (idx == 0 || (idx < |h| && !Gt(h[Parent(idx)], h[idx])))
    ensures Heap(h)
  {
  }

  /** The smaller child takes the place of its parent. */
  lemma MoveDown(h: seq<Cand>, idx: nat, c: nat)
    requires idx < c < |h| && Parent(c) == idx && HeapAbove(h, idx) && Gt(h[idx], h[c])
    requires forall i :: 0 < i < |h| && Parent(i) == idx ==> !Gt(h[c], h[i])
    ensures HeapAbove(Swap(h, idx, c), c)
  {
    var r := Swap(h, idx, c);
    forall i | 0 < i < |r| && Parent(i) != c
      ensures !Gt(r[Parent(i)], r[i])
    {
      assert Parent(i) != i;
    }
    forall i | 0 < i < |r| && 0 < Parent(i) == c
      ensures !Gt(r[Parent(c)], r[i])
    {
      assert !Gt(h[Parent(i)], h[i]);
    }
  }

  /** The smallest of idx and its two children, as the comparisons of sample_heap_sift_down find it. */
  method SmallestChild(a: array<Cand>, n: nat, idx: nat) returns (smallest: nat)
    requires idx < n <= a.Length
    ensures smallest == idx || (smallest < n && Parent(smallest) == idx && idx < smallest && Gt(a[idx], a[smallest]))
    ensures forall i :: 0 < i < n && Parent(i) == idx ==> !Gt(a[smallest], a[i])
  {
    var left, right := 2 * idx + 1, 2 * idx + 2;
    smallest := idx;
    if left < n && Gt(a[smallest], a[left]) {
      smallest := left;
    }
    if right < n && Gt(a[smallest], a[right]) {
      smallest := right;
    }
    assert forall i :: 0 < i && Parent(i) == idx ==> i == left || i == right;
  }

  /** sample_heap_sift_down */
  method SiftDown(a: array<Cand>, n: nat, idx0: nat)
    requires idx0 < n <= a.Length && HeapAbove(a[..n], idx0)
    modifies a
    ensures Heap(a[..n]) && multiset(a[..n]) == multiset(old(a[..n])) && a[n..] == old(a[n..])
  {
    hide Gt, HeapAbove;
    var idx := idx0;
    while true
      invariant idx < n && HeapAbove(a[..n], idx)
      invariant multiset(a[..n]) == multiset(old(a[..n])) && a[n..] == old(a[n..])
      decreases n - idx
    {
      var smallest := SmallestChild(a, n, idx);
      ghost var h := a[..n];
      assert forall i :: 0 < i < n && Parent(i) == idx ==> !Gt(h[smallest], h[i]);
      if smallest == idx {
        Sunk(h, idx);
        return;
      }
      MoveDown(h, idx, smallest);
      SwapSame(h, idx, smallest);
      SwapAt(a, idx, smallest, n);
      idx := smallest;
    }
  }

  lemma Sunk(h: seq<Cand>, idx: nat)
    requires HeapAbove(h, idx) && idx < |h| && forall i :: 0 < i < |h| && Parent(i) == idx ==> !Gt(h[idx], h[i])
    ensures Heap(h)
  {
  }

  // ------------------------------------------------------ the heap of the greatest

  /** The sum of the probabilities, in any order. */
  ghost function SumOf(m: multiset<Cand>): real {
    if m == multiset{} then 0.0
    else
      var x :| x in m;
      x.prob + SumOf(m - multiset{x})
  }

  lemma {:induction false} SumPick(m: multiset<Cand>, c: Cand)
    requires c in m
    ensures SumOf(m) == c.prob + SumOf(m - multiset{c})
    decreases |m|
  {
    var x :| x in m && SumOf(m) == x.prob + SumOf(m - multiset{x});
    if x != c {
      SumPick(m - multiset{x}, c);
      SumPick(m - multiset{c}, x);
      assert m - multiset{x} - multiset{c} == m - multiset{c} - multiset{x};
    }
  }

  lemma SumAdd(m: multiset<Cand>, c: Cand)
    ensures SumOf(m + multiset{c}) == SumOf(m) + c.prob
  {
    SumPick(m + multiset{c}, c);
    assert m + multiset{c} - multiset{c} == m;
  }

  /** The heap holds the cap greatest of the candidates seen, the smallest of them at the root. */
  ghost predicate Selects(h: seq<Cand>, seen: multiset<Cand>, cap: nat) {
    Heap(h) && IsTop(multiset(h), seen, cap)
  }

  lemma RootIsLeast(h: seq<Cand>, seen: multiset<Cand>)
    requires Heap(h) && h != [] && multiset(h) <= seen && DistinctIds(seen)
    ensures h[0] in multiset(h) && forall y :: y in multiset(h) && y != h[0] ==> Gt(y, h[0])
  {
    forall y | y in multiset(h) && y != h[0]
      ensures Gt(y, h[0])
    {
      var i :| 0 <= i < |h| && h[i] == y;
      RootSmallest(h, i);
      assert y in seen && h[0] in seen;
    }
  }

  lemma TopSize(h: seq<Cand>, seen: multiset<Cand>, cap: nat)
    requires IsTop(multiset(h), seen, cap)
    ensures |h| == Min(cap, |seen|) && |multiset(h)| == |h| && multiset(h) <= seen
  {
    Sizes(h);
  }

  lemma Pushed(h: seq<Cand>, c: Cand)
    requires Heap(h)
    ensures HeapBelow(h + [c], |h|) && multiset(h + [c]) == multiset(h) + multiset{c}
  {
  }

  lemma Replaced(h: seq<Cand>, c: Cand)
    requires Heap(h) && h != []
    ensures HeapAbove(h[0 := c], 0) && multiset(h[0 := c]) == multiset(h) - multiset{h[0]} + multiset{c}
  {
  }

  lemma DistinctLess(seen: multiset<Cand>, c: Cand)
    requires DistinctIds(seen + multiset{c})
    ensures DistinctIds(seen)
  {
    SubDistinct(seen, seen + multiset{c});
  }

  /** One more candidate: it is added while there is room, or takes the root's place if it is greater. */
  method Offer(a: array<Cand>, n: nat, cap: nat, c: Cand, ghost seen: multiset<Cand>) returns (n2: nat, delta: real)
    requires n <= cap <= a.Length && 0 < cap && n == Min(cap, |seen|)
    requires Selects(a[..n], seen, cap) && DistinctIds(seen + multiset{c})
    modifies a
    ensures n2 == Min(cap, |seen| + 1) && Selects(a[..n2], seen + multiset{c}, cap)
    ensures SumOf(multiset(a[..n2])) == SumOf(multiset(old(a[..n]))) + delta
  {
    hide Heap, IsTop, DistinctIds, Gt, SumOf;
    ghost var h := a[..n];
    if n < cap {
      TopSize(h, seen, cap);
      TopGrows(multiset(h), seen, cap, c);
      a[n] := c;
      assert a[..n + 1] == h + [c];
      Pushed(h, c);
      SiftUp(a, n + 1, n);
      SumAdd(multiset(h), c);
      return n + 1, c.prob;
    }
    TopSize(h, seen, cap);
    DistinctLess(seen, c);
    RootIsLeast(h, seen);
    if Gt(c, a[0]) {
      TopSwaps(multiset(h), seen, cap, c, h[0]);
      delta := c.prob - a[0].prob;
      a[0] := c;
      assert a[..n] == h[0 := c];
      Replaced(h, c);
      SiftDown(a, n, 0);
      SumAdd(multiset(h) - multiset{h[0]}, c);
      SumPick(multiset(h), h[0]);
      return n, delta;
    }
    TopStays(multiset(h), seen, cap, c, h[0]);
    return n, 0.0;
  }
}
