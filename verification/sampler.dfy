/**
  The candidates of a sampling step, the full sort that every path is compared
  with, and the fast nucleus path. Arithmetic is exact; a weight stands for the
  exponential, of which only monotonicity, sign and the value at zero matter.
 */
module Sampler {
  import opened Common
  import opened Floats
  import C = Candidates
  import opened Candidates
  import opened SampleHeap
  import opened Nucleus

  type Weight = real -> real

  const FAST_CAP := 512
  const MAX_TOP_K := 1024

  ghost predicate IsWeight(w: Weight) {
    && w(0.0) == 1.0 && (forall x :: w(x) >= 0.0)
    && (forall x, y :: x <= y ==> w(x) <= w(y))
  }

  // ----------------------------------------------------------- the candidates

  function Prob(v: real, top: real, temperature: real, w: Weight): real
    requires temperature > 0.0
  {
    w((v - top) / temperature)
  }

  /** The candidates among the first n logits: the finite ones, by id. */
  function Cands(l: seq<Float>, n: nat, top: real, temperature: real, w: Weight): seq<Cand>
    requires n <= |l| && temperature > 0.0
  {
    if n == 0 then []
    else
      var c := Cands(l, n - 1, top, temperature, w);
      if l[n - 1].Fin? then c + [MakeCand(n - 1, l[n - 1].v, top, temperature, w)] else c
  }

  function MakeCand(id: nat, v: real, top: real, temperature: real, w: Weight): Cand
    requires temperature > 0.0
  {
    Cand(id, v, Prob(v, top, temperature, w))
  }

  /** The finite logits: how many there are, the greatest, and the first id that has it. */
  ghost predicate Summary(l: seq<Float>, n: nat, finite: nat, top: Float, best: int)
    requires n <= |l|
  {
    && finite <= n
    && (finite == 0 ==> top == NegInf && best == 0 && forall k :: 0 <= k < n ==> !l[k].Fin?)
    && (finite > 0 ==> 0 <= best < n && top.Fin? && l[best] == top)
    && (finite > 0 ==> forall k :: 0 <= k < n && l[k].Fin? ==> l[k].v <= top.v)
    && (finite > 0 ==> forall k :: 0 <= k < best && l[k].Fin? ==> l[k].v < top.v)
  }

  /** Candidate c is the logit at its id. */
  ghost predicate Of(c: Cand, l: seq<Float>, n: nat, top: real, temperature: real, w: Weight)
    requires temperature > 0.0
  {
    c.id < n <= |l| && l[c.id] == Fin(c.logit) && c == MakeCand(c.id, c.logit, top, temperature, w)
  }

  lemma {:induction false} CandsIds(l: seq<Float>, n: nat, top: real, temperature: real, w: Weight, c: seq<Cand>)
    requires n <= |l| && temperature > 0.0 && c == Cands(l, n, top, temperature, w)
    ensures forall i :: 0 <= i < |c| ==> Of(c[i], l, n, top, temperature, w)
    ensures forall i, j :: 0 <= i < j < |c| ==> c[i].id < c[j].id
  {
    hide Prob;
    if n > 0 {
      var p := Cands(l, n - 1, top, temperature, w);
      CandsIds(l, n - 1, top, temperature, w, p);
      forall i | 0 <= i < |p|
        ensures c[i] == p[i] && Of(c[i], l, n, top, temperature, w)
      {
        assert Of(p[i], l, n - 1, top, temperature, w);
      }
    }
  }

  lemma CandsDistinct(l: seq<Float>, n: nat, top: real, temperature: real, w: Weight)
    requires n <= |l| && temperature > 0.0
    ensures DistinctIds(multiset(Cands(l, n, top, temperature, w)))
  {
    var c := Cands(l, n, top, temperature, w);
    CandsIds(l, n, top, temperature, w, c);
    AscendingDistinct(c);
  }

  lemma {:induction false} AscendingDistinct(c: seq<Cand>)
    requires forall i, j :: 0 <= i < j < |c| ==> c[i].id < c[j].id
    ensures DistinctIds(multiset(c))
  {
    forall a | a in multiset(c)
      ensures multiset(c)[a] == 1
    {
      CountOne(c, a);
    }
    forall a, b | a in multiset(c) && b in multiset(c) && a != b
      ensures a.id != b.id
    {
      var i :| 0 <= i < |c| && c[i] == a;
      var j :| 0 <= j < |c| && c[j] == b;
    }
  }

  lemma {:induction false} CountOne(c: seq<Cand>, a: Cand)
    requires forall i, j :: 0 <= i < j < |c| ==> c[i].id < c[j].id
    ensures multiset(c)[a] <= 1
  {
    if c != [] {
      var p := c[..|c| - 1];
      assert c == p + [c[|c| - 1]];
      CountOne(p, a);
      if a == c[|c| - 1] {
        assert a !in p;
        assert a !in multiset(p);
      }
    }
  }

  /** A candidate with more weight has a greater logit. */
  lemma WeightOrder(a: Cand, b: Cand, l: seq<Float>, n: nat, top: real, temperature: real, w: Weight)
    requires temperature > 0.0 && IsWeight(w) && Of(a, l, n, top, temperature, w) && Of(b, l, n, top, temperature, w)
    ensures a.prob > b.prob ==> C.Gt(a, b)
  {
    if a.logit <= b.logit {
      Scale(a.logit - top, b.logit - top, temperature);
    }
  }

  lemma Scale(x: real, y: real, t: real)
    requires x <= y && t > 0.0
    ensures x / t <= y / t
  {
    var d := y / t - x / t;
    assert x / t * t == x && y / t * t == y;
    assert d * t == y - x;
    NotNegative(d, t);
  }

  lemma NotNegative(d: real, t: real)
    requires d * t >= 0.0 && t > 0.0
    ensures d >= 0.0
  {
  }

  lemma ShareOrder(x: real, y: real, sum: real, minProb: real)
    requires sum > 0.0 && x / sum >= minProb && y / sum < minProb
    ensures x > y
  {
    if x <= y {
      Scale(x, y, sum);
    }
  }

  /** Sorted by logit, the candidates are sorted by weight as well. */
  lemma WeightsFall(l: seq<Float>, top: real, temperature: real, w: Weight)
    requires temperature > 0.0 && IsWeight(w)
    ensures Falling(Sort(Cands(l, |l|, top, temperature, w)))
  {
    hide IsWeight, Of, Sort, DistinctIds;
    var c := Cands(l, |l|, top, temperature, w);
    var s := Sort(c);
    CandsIds(l, |l|, top, temperature, w, c);
    CandsDistinct(l, |l|, top, temperature, w);
    SortSorted(c);
    forall i, j | 0 <= i < j < |s|
      ensures s[i].prob >= s[j].prob
    {
      InList(c, s[i]);
      InList(c, s[j]);
      WeightOrder(s[j], s[i], l, |l|, top, temperature, w);
      assert C.Gt(s[i], s[j]);
    }
  }

  lemma InList(c: seq<Cand>, x: Cand)
    requires x in Sort(c)
    ensures exists i :: 0 <= i < |c| && c[i] == x
  {
    assert x in multiset(Sort(c));
    assert x in multiset(c);
  }

  ghost predicate Falling(s: seq<Cand>) {
    forall i, j :: 0 <= i < j < |s| ==> s[i].prob >= s[j].prob
  }

  /** qsort with sample_candidate_cmp_desc. */
  method SortDescending(a: array<Cand>, n: nat)
    requires n <= a.Length
    modifies a
    ensures a[..n] == Sort(old(a[..n])) && a[n..] == old(a[n..])
  {
    var s := Sort(a[..n]);
    forall k | 0 <= k < n {
      a[k] := s[k];
    }
  }

  /** sample_candidate_cmp_desc: negative when a goes first. */
  function Compare(a: Cand, b: Cand): int {
    var order := (if b.logit > a.logit then 1 else 0) - (if b.logit < a.logit then 1 else 0);
    if order != 0 then order else (if a.id > b.id then 1 else 0) - (if a.id < b.id then 1 else 0)
  }

  lemma CompareIsGt(a: Cand, b: Cand)
    ensures Compare(a, b) < 0 <==> C.Gt(a, b)
    ensures Compare(a, b) == 0 <==> a.logit == b.logit && a.id == b.id
  {
  }

  // ------------------------------------------------------------- the reference

  /** Nucleus sampling as it is meant: sort all candidates, keep, draw. */
  function FullSort(l: seq<Float>, top: real, temperature: real, w: Weight, topP: real, minP: real, best: int, state: bv64): (int, bv64)
    requires temperature > 0.0 && Cands(l, |l|, top, temperature, w) != []
  {
    var c := Cands(l, |l|, top, temperature, w);
    Pick(Sort(c), SumFirst(c, |c|), topP, minP, best, state)
  }

  // ------------------------------------------------------------- the fast path

  /** The state of the scan of sample_fast_top_p after candidates c. */
  ghost predicate Scanned(h: seq<Cand>, n: nat, sum: real, heapSum: real, c: seq<Cand>, cap: nat) {
    && n == |h| == Min(cap, |c|) && Selects(h, multiset(c), cap)
    && sum == SumFirst(c, |c|) && heapSum == SumOf(multiset(h))
  }

  /** One finite logit of the scan. */
  method FastStep(heap: array<Cand>, n: nat, cap: nat, sum: real, heapSum: real, cand: Cand, ghost c: seq<Cand>)
    returns (n2: nat, sum2: real, heapSum2: real)
    requires 0 < cap <= heap.Length && n <= heap.Length && Scanned(heap[..n], n, sum, heapSum, c, cap)
    requires DistinctIds(multiset(c + [cand]))
    modifies heap
    ensures n2 <= heap.Length && Scanned(heap[..n2], n2, sum2, heapSum2, c + [cand], cap)
  {
    hide Selects, SumOf, DistinctIds;
    assert multiset(c + [cand]) == multiset(c) + multiset{cand};
    Sizes(c);
    var delta;
    n2, delta := Offer(heap, n, cap, cand, multiset(c));
    SumLast(c, cand);
    sum2, heapSum2 := sum + cand.prob, heapSum + delta;
  }

  /** The scan of sample_fast_top_p: the heap, its size, and the two sums. */
  method FastScan(l: array<Float>, top: real, temperature: real, w: Weight, cap: nat, heap: array<Cand>)
    returns (n: nat, sum: real, heapSum: real)
    requires temperature > 0.0 && 0 < cap <= heap.Length
    modifies heap
    ensures n <= heap.Length && Scanned(heap[..n], n, sum, heapSum, Cands(l[..], l.Length, top, temperature, w), cap)
  {
    hide Scanned, DistinctIds;
    ghost var s := l[..];
    n, sum, heapSum := 0, 0.0, 0.0;
    NothingScanned(cap);
    assert heap[..0] == [];
    var i := 0;
    while i < l.Length
      invariant 0 <= i <= l.Length && n <= heap.Length
      invariant Scanned(heap[..n], n, sum, heapSum, Cands(s, i, top, temperature, w), cap)
    {
      if l[i].Fin? {
        var cand := MakeCand(i, l[i].v, top, temperature, w);
        CandsDistinct(s, i + 1, top, temperature, w);
        n, sum, heapSum := FastStep(heap, n, cap, sum, heapSum, cand, Cands(s, i, top, temperature, w));
      }
      i := i + 1;
    }
  }

  lemma NothingScanned(cap: nat)
    ensures Scanned([], 0, 0.0, 0.0, [], cap)
  {
    TopNothing(cap);
  }

  lemma SumLast(c: seq<Cand>, x: Cand)
    ensures SumFirst(c + [x], |c| + 1) == SumFirst(c, |c|) + x.prob
  {
    SumPrefix(c + [x], |c|, |c|);
    assert (c + [x])[..|c|] == c;
  }

  /** The heap, sorted, is the beginning of the sorted candidates, and its sum is that of the beginning. */
  lemma SortedHeap(h: seq<Cand>, n: nat, sum: real, heapSum: real, c: seq<Cand>, cap: nat)
    requires Scanned(h, n, sum, heapSum, c, cap) && DistinctIds(multiset(c))
    ensures n <= |c| && Sort(h) == Sort(c)[..n] && heapSum == SumFirst(Sort(c), n) && (n < |c| ==> n == cap)
  {
    hide Heap, IsTop, DistinctIds, Sort, SumOf;
    var t := Sort(h);
    assert multiset(t) == multiset(h) && |t| == |h|;
    TopSize(h, multiset(c), cap);
    Sizes(c);
    SubDistinct(multiset(h), multiset(c));
    SortSorted(h);
    TopIsPrefix(t, c, cap);
    SumOfList(Sort(c), n);
  }

  /**
    sample_fast_top_p: if it accepts, the token and the generator are those of sorting everything; if it
    declines, the generator has not been touched.
   */
  method FastTopP(l: array<Float>, finite: nat, top: real, best: int, temperature: real, topP: real, minP: real,
                  w: Weight, rng: Rng) returns (accepted: bool, token: int)
    requires temperature > 0.0
    requires finite == |Cands(l[..], l.Length, top, temperature, w)|
    modifies rng
    ensures !accepted ==> rng.state == old(rng.state)
    ensures accepted ==> finite > 0 && (token, rng.state) == FullSort(l[..], top, temperature, w, topP, minP, best, old(rng.state))
    ensures accepted ==> FastFits(Cands(l[..], l.Length, top, temperature, w), topP)
    ensures IsWeight(w) ==> (accepted <==> FastFits(Cands(l[..], l.Length, top, temperature, w), topP))
  {
    hide Scanned, DistinctIds, Pick, Sort, Kept, IsWeight, Falling, FastFits, Selects, Heap, IsTop;
    token := best;
    ghost var c := Cands(l[..], l.Length, top, temperature, w);
    if finite == 0 || (finite > FAST_CAP && topP >= 0.999) {
      FitsNot(c, topP);
      return false, best;
    }
    var cap := Min(finite, FAST_CAP);
    var heap := new Cand[FAST_CAP](_ => Cand(0, 0.0, 0.0));
    var n, sum, heapSum := FastScan(l, top, temperature, w, cap, heap);
    CandsDistinct(l[..], l.Length, top, temperature, w);
    ScannedSum(heap[..n], n, sum, heapSum, c, cap);
    SortedHeap(heap[..n], n, sum, heapSum, c, cap);
    FitsIs(c, topP, n, sum, heapSum);
    if sum <= 0.0 {
      NoMass(Sort(c), sum, topP, minP, best, rng.state);
      return true, best;
    }
    if n < finite && heapSum < topP * sum {
      return false, best;
    }
    SortDescending(heap, n);
    ghost var s := Sort(c);
    assert heap[..n] == s[..n];
    PickOfHeap(s, n, sum, topP, minP, best, rng.state);
    if IsWeight(w) {
      WeightsFall(l[..], top, temperature, w);
      FallingPart(s, n);
    }
    accepted, token := FastPick(heap, n, finite, sum, topP, minP, best, rng);
  }

  /** No more candidates than the heap holds, or the greatest of them have the mass; no mass at all is fine too. */
  ghost predicate FastFits(c: seq<Cand>, topP: real) {
    && c != [] && (|c| > FAST_CAP ==> topP < 0.999)
    && (SumFirst(c, |c|) <= 0.0 || |c| <= FAST_CAP || SumFirst(Sort(c), FAST_CAP) >= topP * SumFirst(c, |c|))
  }

  lemma FitsNot(c: seq<Cand>, topP: real)
    requires c == [] || (|c| > FAST_CAP && topP >= 0.999)
    ensures !FastFits(c, topP)
  {
  }

  lemma FitsIs(c: seq<Cand>, topP: real, n: nat, sum: real, heapSum: real)
    requires c != [] && (|c| > FAST_CAP ==> topP < 0.999)
    requires n == Min(Min(|c|, FAST_CAP), |c|) && sum == SumFirst(c, |c|) && heapSum == SumFirst(Sort(c), n)
    ensures FastFits(c, topP) <==> sum <= 0.0 || !(n < |c| && heapSum < topP * sum)
  {
    hide Sort;
  }

  lemma FallingPart(s: seq<Cand>, n: nat)
    requires Falling(s) && n <= |s|
    ensures Falling(s[..n])
  {
  }

  /** With falling weights, the last weight lies below every bound that an earlier one misses. */
  lemma LastBelow(a: real, x: real, z: real, sum: real, minRel: real)
    requires sum > 0.0 && x / sum < a / sum * minRel && z <= x
    ensures z < a * minRel
  {
    assert a / sum * minRel == a * minRel / sum;
    if z >= a * minRel {
      Scale(a * minRel, x, sum);
    }
  }

  /** The part of sample_fast_top_p behind the sort. */
  method FastPick(heap: array<Cand>, n: nat, finite: nat, sum: real, topP: real, minP: real, best: int, rng: Rng)
    returns (accepted: bool, token: int)
    requires 0 < n <= heap.Length && sum > 0.0
    modifies rng
    ensures !accepted ==> rng.state == old(rng.state)
    ensures accepted ==> (token, rng.state) == Pick(heap[..n], sum, topP, minP, best, old(rng.state))
    ensures Falling(heap[..n]) ==> accepted
  {
    hide Pick, Kept, Threshold, DrawFrom, NextState;
    var minRel := if minP > 0.0 then minP else 0.0;
    var minProb, minProbRaw := heap[0].prob / sum * minRel, heap[0].prob * minRel;
    assert minProb == MinProb(heap[..n], sum, minP);
    PickIs(heap[..n], sum, topP, minProb, minP, best, rng.state);
    var filtered, filteredSum, stoppedByMinP := Filter(heap, n, sum, topP, minProb);
    if stoppedByMinP && Falling(heap[..n]) {
      LastBelow(heap[0].prob, heap[..n][filtered].prob, heap[..n][n - 1].prob, sum, minRel);
    }
    if n < finite && stoppedByMinP && minP > 0.0 && heap[n - 1].prob >= minProbRaw {
      return false, best;
    }
    if filtered == 0 {
      return true, best;
    }
    token := DrawKept(heap, n, filtered, filteredSum, rng);
    return true, token;
  }

  /** Sampling from a beginning that has the mass, or is everything, is sampling from the whole. */
  lemma PickOfHeap(s: seq<Cand>, n: nat, sum: real, topP: real, minP: real, best: int, state: bv64)
    requires 0 < n <= |s| && sum > 0.0 && (n == |s| || SumFirst(s, n) >= topP * sum)
    ensures Pick(s[..n], sum, topP, minP, best, state) == Pick(s, sum, topP, minP, best, state)
  {
    hide Pick, Kept;
    KeptOfPrefix(s, n, 0, sum, topP, MinProb(s, sum, minP));
    PickOfPrefix(s, n, sum, topP, minP, best, state);
  }

  lemma ScannedSum(h: seq<Cand>, n: nat, sum: real, heapSum: real, c: seq<Cand>, cap: nat)
    requires Scanned(h, n, sum, heapSum, c, cap)
    ensures sum == SumFirst(c, |c|) && n == Min(cap, |c|)
  {
  }
}
