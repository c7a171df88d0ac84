/** The slow sampling paths: sorting everything, sorting what min-p can keep, and not sorting at all. */
module FullSampler {
  import opened Common
  import opened Floats
  import opened Candidates
  import opened Nucleus
  import opened Sampler

  // -------------------------------------------------------- every candidate

  /** The path that sorts every candidate. */
  method SampleAll(l: array<Float>, finite: nat, top: real, best: int, temperature: real, topP: real, minP: real,
                   w: Weight, rng: Rng) returns (token: int)
    requires temperature > 0.0
    requires 0 < finite == |Cands(l[..], l.Length, top, temperature, w)|
    modifies rng
    ensures (token, rng.state) == FullSort(l[..], top, temperature, w, topP, minP, best, old(rng.state))
  {
    hide Pick, Sort;
    ghost var s, c := l[..], Cands(l[..], l.Length, top, temperature, w);
    var cand := new Cand[finite](_ => Cand(0, 0.0, 0.0));
    var n, sum := 0, 0.0;
    var i := 0;
    while i < l.Length
      invariant 0 <= i <= l.Length && n == |Cands(s, i, top, temperature, w)|
      invariant n <= finite && cand[..n] == Cands(s, i, top, temperature, w)
      invariant sum == SumFirst(Cands(s, i, top, temperature, w), n)
      modifies cand
    {
      CandsGrow(s, i, l.Length, top, temperature, w);
      if l[i].Fin? {
        var x := MakeCand(i, l[i].v, top, temperature, w);
        SumLast(Cands(s, i, top, temperature, w), x);
        cand[n] := x;
        n, sum := n + 1, sum + x.prob;
      }
      i := i + 1;
    }
    assert cand[..n] == c && sum == SumFirst(c, |c|);
    if sum <= 0.0 {
      NoMass(Sort(c), sum, topP, minP, best, rng.state);
      return best;
    }
    SortDescending(cand, n);
    token := SampleSorted(cand, n, sum, topP, minP, best, rng);
  }

  lemma {:induction false} CandsGrow(l: seq<Float>, i: nat, n: nat, top: real, temperature: real, w: Weight)
    requires i <= n <= |l| && temperature > 0.0
    ensures |Cands(l, i, top, temperature, w)| <= |Cands(l, n, top, temperature, w)|
    ensures i < n && l[i].Fin? ==> |Cands(l, i, top, temperature, w)| < |Cands(l, n, top, temperature, w)|
    decreases n
  {
    if i < n {
      CandsGrow(l, i, n - 1, top, temperature, w);
    }
  }

  // ----------------------------------------------------- only the survivors

  /** The candidates, in the same order, whose share of the mass is at least minProb. */
  function Survivors(c: seq<Cand>, sum: real, minProb: real): seq<Cand>
    requires sum > 0.0
  {
    if c == [] then []
    else
      var n := |c| - 1;
      var s := Survivors(c[..n], sum, minProb);
      if c[n].prob / sum >= minProb then s + [c[n]] else s
  }

  lemma {:induction false} SurvivorsSub(c: seq<Cand>, sum: real, minProb: real, s: seq<Cand>)
    requires sum > 0.0 && s == Survivors(c, sum, minProb)
    ensures multiset(s) <= multiset(c)
    ensures forall x :: x in multiset(s) <==> x in multiset(c) && x.prob / sum >= minProb
  {
    if c != [] {
      var n := |c| - 1;
      var p := Survivors(c[..n], sum, minProb);
      SurvivorsSub(c[..n], sum, minProb, p);
      assert c == c[..n] + [c[n]];
    }
  }

  lemma DistinctCount(m: multiset<Cand>, t: multiset<Cand>, x: Cand)
    requires DistinctIds(m) && t <= m && x in m && x in t
    ensures x !in m - t
  {
  }

  /** Sorting the survivors gives the beginning of the sorted candidates, and what follows is below minProb. */
  lemma SurvivorsPrefix(l: seq<Float>, top: real, temperature: real, w: Weight, c: seq<Cand>, sum: real, minProb: real, s: seq<Cand>)
    requires temperature > 0.0 && IsWeight(w) && c == Cands(l, |l|, top, temperature, w) && sum > 0.0
    requires s == Survivors(c, sum, minProb)
    ensures |s| <= |c| && Sort(s) == Sort(c)[..|s|]
    ensures forall k :: |s| <= k < |c| ==> Relative(Sort(c), k, sum) < minProb
  {
    hide Sort, IsWeight, DistinctIds, Survivors;
    SurvivorsSub(c, sum, minProb, s);
    CandsDistinct(l, |l|, top, temperature, w);
    Sizes(s);
    Sizes(c);
    SurvivorsTop(l, top, temperature, w, c, sum, minProb, s);
    assert multiset(Sort(s)) == multiset(s);
    SubDistinct(multiset(s), multiset(c));
    SortSorted(s);
    SortSorted(c);
    TopIsPrefix(Sort(s), c, |s|);
    RestBelow(c, sum, minProb, s);
  }

  lemma SurvivorsTop(l: seq<Float>, top: real, temperature: real, w: Weight, c: seq<Cand>, sum: real, minProb: real, s: seq<Cand>)
    requires temperature > 0.0 && IsWeight(w) && c == Cands(l, |l|, top, temperature, w) && sum > 0.0
    requires multiset(s) <= multiset(c) && DistinctIds(multiset(c))
    requires forall x :: x in multiset(s) <==> x in multiset(c) && x.prob / sum >= minProb
    ensures IsTop(multiset(s), multiset(c), |s|)
  {
    hide IsWeight, Of;
    Sizes(s);
    Sizes(c);
    CandsIds(l, |l|, top, temperature, w, c);
    forall x, y | x in multiset(c) - multiset(s) && y in multiset(s)
      ensures C.Gt(y, x)
    {
      if x in multiset(s) {
        DistinctCount(multiset(c), multiset(s), x);
      }
      assert x in c && y in c;
      ShareOrder(y.prob, x.prob, sum, minProb);
      WeightOrder(y, x, l, |l|, top, temperature, w);
    }
    assert |multiset(s)| <= |multiset(c)| by {
      assert |multiset(c)| == |multiset(s)| + |multiset(c) - multiset(s)|;
    }
  }

  lemma RestBelow(c: seq<Cand>, sum: real, minProb: real, s: seq<Cand>)
    requires sum > 0.0 && |s| <= |c| && Sorted(Sort(c)) && Sort(s) == Sort(c)[..|s|]
    requires forall x :: x in multiset(s) <==> x in multiset(c) && x.prob / sum >= minProb
    ensures forall k :: |s| <= k < |c| ==> Relative(Sort(c), k, sum) < minProb
  {
    hide Sort;
    var all := Sort(c);
    forall k | |s| <= k < |c|
      ensures Relative(all, k, sum) < minProb
    {
      assert all[k] in multiset(all) && all[k] in multiset(c);
      forall j | 0 <= j < |s|
        ensures all[j] != all[k]
      {
        assert C.Gt(all[j], all[k]);
      }
      assert all[k] !in all[..|s|];
      assert all[k] !in multiset(all[..|s|]);
      assert multiset(Sort(s)) == multiset(s);
    }
  }

  /** The greatest candidate has weight one, whatever the temperature. */
  lemma GreatestHasWeightOne(l: seq<Float>, top: real, best: int, temperature: real, w: Weight, c: seq<Cand>)
    requires temperature > 0.0 && IsWeight(w) && c == Cands(l, |l|, top, temperature, w)
    requires 0 <= best < |l| && l[best] == Fin(top) && forall k :: 0 <= k < |l| && l[k].Fin? ==> l[k].v <= top
    ensures c != [] && Sort(c)[0].prob == 1.0
  {
    hide Sort;
    var x := MakeCand(best, top, top, temperature, w);
    CandsHold(l, |l|, top, temperature, w, best, c);
    CandsDistinct(l, |l|, top, temperature, w);
    SortSorted(c);
    var s := Sort(c);
    assert x in multiset(c);
    HeadGreatest(s, x);
    assert s[0] in multiset(s) && s[0] in multiset(c);
    CandsIds(l, |l|, top, temperature, w, c);
    assert Of(s[0], l, |l|, top, temperature, w);
    assert s[0].logit == top;
    assert (top - top) / temperature == 0.0;
  }

  lemma {:induction false} CandsHold(l: seq<Float>, n: nat, top: real, temperature: real, w: Weight, k: nat, c: seq<Cand>)
    requires k < n <= |l| && temperature > 0.0 && l[k].Fin? && c == Cands(l, n, top, temperature, w)
    ensures MakeCand(k, l[k].v, top, temperature, w) in c
  {
    if k < n - 1 {
      CandsHold(l, n - 1, top, temperature, w, k, Cands(l, n - 1, top, temperature, w));
    }
  }

  /** Dropping what min-p would reject does not change what is sampled. */
  lemma PickOfSurvivors(l: seq<Float>, top: real, best: int, temperature: real, w: Weight, c: seq<Cand>,
                        sum: real, topP: real, minP: real, s: seq<Cand>, state: bv64)
    requires temperature > 0.0 && IsWeight(w) && c == Cands(l, |l|, top, temperature, w)
    requires 0 <= best < |l| && l[best] == Fin(top) && forall k :: 0 <= k < |l| && l[k].Fin? ==> l[k].v <= top
    requires sum > 0.0 && 0.0 < minP <= 1.0 && s == Survivors(c, sum, 1.0 / sum * minP)
    ensures s != [] && c != [] && Pick(Sort(s), sum, topP, minP, best, state) == Pick(Sort(c), sum, topP, minP, best, state)
  {
    hide Sort, IsWeight, Pick, Kept, Survivors;
    var minProb := 1.0 / sum * minP;
    var all, m := Sort(c), |s|;
    GreatestHasWeightOne(l, top, best, temperature, w, c);
    SurvivorsPrefix(l, top, temperature, w, c, sum, minProb, s);
    assert MinProb(all, sum, minP) == minProb;
    FirstSurvives(all, sum, minP);
    assert m > 0;
    KeptOfCut(all, m, 0, sum, topP, minProb);
    PickOfPrefix(all, m, sum, topP, minP, best, state);
  }

  lemma FirstSurvives(s: seq<Cand>, sum: real, minP: real)
    requires s != [] && s[0].prob == 1.0 && sum > 0.0 && minP <= 1.0
    ensures Relative(s, 0, sum) >= 1.0 / sum * minP
  {
    assert 1.0 / sum > 0.0 by {
      assert 1.0 / sum * sum == 1.0;
    }
  }

  /** The path that sorts only what min-p can keep. */
  method SampleSurvivors(l: array<Float>, finite: nat, top: real, best: int, temperature: real, topP: real, minP: real,
                         w: Weight, rng: Rng, scratch: array<real>) returns (token: int)
    requires temperature > 0.0 && IsWeight(w) && scratch.Length >= l.Length && 0.0 < minP <= 1.0
    requires 0 < finite == |Cands(l[..], l.Length, top, temperature, w)|
    requires 0 <= best < l.Length && l[best] == Fin(top) && forall k :: 0 <= k < l.Length && l[k].Fin? ==> l[k].v <= top
    modifies rng, scratch
    ensures (token, rng.state) == FullSort(old(l[..]), top, temperature, w, topP, minP, best, old(rng.state))
  {
    hide Pick, Sort, Survivors, IsWeight;
    ghost var s, c := l[..], Cands(l[..], l.Length, top, temperature, w);
    var sum := Weigh(l, top, temperature, w, scratch);
    if sum <= 0.0 {
      NoMass(Sort(c), sum, topP, minP, best, rng.state);
      return best;
    }
    var minProb := 1.0 / sum * minP;
    PickOfSurvivors(s, top, best, temperature, w, c, sum, topP, minP, Survivors(c, sum, minProb), rng.state);
    var cand, n := Collect(l, top, temperature, w, scratch, sum, minProb);
    if n == 0 {
      return best;
    }
    SortDescending(cand, n);
    token := SampleSorted(cand, n, sum, topP, minP, best, rng);
  }

  /** The weights in id order, minus one where the logit is not finite, and their sum. */
  method Weigh(l: array<Float>, top: real, temperature: real, w: Weight, scratch: array<real>) returns (sum: real)
    requires temperature > 0.0 && scratch.Length >= l.Length
    modifies scratch
    ensures forall k :: 0 <= k < l.Length ==> scratch[k] == Weighed(l[k], top, temperature, w)
    ensures var c := Cands(l[..], l.Length, top, temperature, w); sum == SumFirst(c, |c|)
  {
    hide Prob;
    ghost var s := l[..];
    sum := 0.0;
    var i := 0;
    while i < l.Length
      invariant 0 <= i <= l.Length
      invariant forall k :: 0 <= k < i ==> scratch[k] == Weighed(s[k], top, temperature, w)
      invariant sum == SumFirst(Cands(s, i, top, temperature, w), |Cands(s, i, top, temperature, w)|)
    {
      scratch[i] := -1.0;
      if l[i].Fin? {
        var p := Prob(l[i].v, top, temperature, w);
        SumLast(Cands(s, i, top, temperature, w), MakeCand(i, l[i].v, top, temperature, w));
        scratch[i] := p;
        sum := sum + p;
      }
      i := i + 1;
    }
    assert forall k :: 0 <= k < l.Length ==> scratch[k] == Weighed(s[k], top, temperature, w);
  }

  function Weighed(x: Float, top: real, temperature: real, w: Weight): real
    requires temperature > 0.0
  {
    if x.Fin? then Prob(x.v, top, temperature, w) else -1.0
  }

  lemma SurvivorsNext(c: seq<Cand>, x: Cand, sum: real, minProb: real)
    requires sum > 0.0
    ensures Survivors(c + [x], sum, minProb)
         == if x.prob / sum >= minProb then Survivors(c, sum, minProb) + [x] else Survivors(c, sum, minProb)
  {
    assert (c + [x])[..|c|] == c;
  }

  /** One more logit: how the survivors change. */
  lemma SurvivorsStep(l: seq<Float>, i: nat, top: real, temperature: real, w: Weight, sum: real, minProb: real, p: real)
    requires temperature > 0.0 && IsWeight(w) && sum > 0.0 && i < |l| && p == Weighed(l[i], top, temperature, w)
    ensures var s, s2 := Survivors(Cands(l, i, top, temperature, w), sum, minProb), Survivors(Cands(l, i + 1, top, temperature, w), sum, minProb);
      s2 == if p < 0.0 || p / sum < minProb then s else s + [Cand(i, if l[i].Fin? then l[i].v else 0.0, p)]
  {
    hide Survivors;
    if l[i].Fin? {
      SurvivorsNext(Cands(l, i, top, temperature, w), MakeCand(i, l[i].v, top, temperature, w), sum, minProb);
    }
  }

  /** Counts the survivors, then copies them. */
  method Collect(l: array<Float>, top: real, temperature: real, w: Weight, scratch: array<real>, sum: real, minProb: real)
    returns (cand: array<Cand>, n: nat)
    requires temperature > 0.0 && IsWeight(w) && scratch.Length >= l.Length && sum > 0.0
    requires forall k :: 0 <= k < l.Length ==> scratch[k] == Weighed(l[k], top, temperature, w)
    ensures fresh(cand) && n <= cand.Length
    ensures cand[..n] == Survivors(Cands(l[..], l.Length, top, temperature, w), sum, minProb)
  {
    hide Survivors, IsWeight, Cands, Weighed;
    ghost var s := l[..];
    n := 0;
    NoSurvivors(s, top, temperature, w, sum, minProb);
    var i := 0;
    while i < l.Length
      invariant 0 <= i <= l.Length && n == |Survivors(Cands(s, i, top, temperature, w), sum, minProb)|
    {
      SurvivorsStep(s, i, top, temperature, w, sum, minProb, scratch[i]);
      if scratch[i] >= 0.0 && scratch[i] / sum >= minProb {
        n := n + 1;
      }
      i := i + 1;
    }
    cand := new Cand[n](_ => Cand(0, 0.0, 0.0));
    var out := 0;
    i := 0;
    while i < l.Length
      invariant 0 <= i <= l.Length && out == |Survivors(Cands(s, i, top, temperature, w), sum, minProb)| && out <= n
      invariant cand[..out] == Survivors(Cands(s, i, top, temperature, w), sum, minProb)
      modifies cand
    {
      SurvivorsStep(s, i, top, temperature, w, sum, minProb, scratch[i]);
      SurvivorsGrow(s, i + 1, l.Length, top, temperature, w, sum, minProb);
      if scratch[i] >= 0.0 && scratch[i] / sum >= minProb {
        cand[out] := Cand(i, if l[i].Fin? then l[i].v else 0.0, scratch[i]);
        out := out + 1;
      }
      i := i + 1;
    }
  }

  lemma NoSurvivors(l: seq<Float>, top: real, temperature: real, w: Weight, sum: real, minProb: real)
    requires temperature > 0.0 && sum > 0.0
    ensures Survivors(Cands(l, 0, top, temperature, w), sum, minProb) == []
  {
  }

  lemma {:induction false} SurvivorsGrow(l: seq<Float>, i: nat, n: nat, top: real, temperature: real, w: Weight, sum: real, minProb: real)
    requires i <= n <= |l| && temperature > 0.0 && sum > 0.0
    ensures |Survivors(Cands(l, i, top, temperature, w), sum, minProb)| <= |Survivors(Cands(l, n, top, temperature, w), sum, minProb)|
    decreases n
  {
    hide Survivors;
    if i < n {
      SurvivorsGrow(l, i, n - 1, top, temperature, w, sum, minProb);
      if l[n - 1].Fin? {
        SurvivorsNext(Cands(l, n - 1, top, temperature, w), MakeCand(n - 1, l[n - 1].v, top, temperature, w), sum, minProb);
      }
    }
  }

  // ----------------------------------------------------------- without a nucleus

  /** The candidates with at least the given weight, in id order. */
  function Heavy(c: seq<Cand>, minRel: real): seq<Cand> {
    if c == [] then []
    else
      var n := |c| - 1;
      var h := Heavy(c[..n], minRel);
      if c[n].prob >= minRel then h + [c[n]] else h
  }

  /** The first candidate at which r is used up, or best if it never is. */
  function Walk(s: seq<Cand>, i: nat, r: real, best: int): int
    requires i <= |s|
    decreases |s| - i
  {
    if i == |s| then best
    else if r - s[i].prob <= 0.0 then s[i].id
    else Walk(s, i + 1, r - s[i].prob, best)
  }

  /** Sampling in id order among the candidates that min-p keeps. */
  function PlainPick(c: seq<Cand>, minP: real, best: int, state: bv64): (int, bv64) {
    var s := Heavy(c, if minP > 0.0 then minP else 0.0);
    var sum := SumFirst(s, |s|);
    if sum <= 0.0 then (best, state) else (Walk(s, 0, Point(state, sum), best), NextState(state))
  }

  function Point(state: bv64, sum: real): real {
    Uniform(state) * sum
  }

  lemma HeavyNext(c: seq<Cand>, x: Cand, minRel: real)
    ensures Heavy(c + [x], minRel) == if x.prob >= minRel then Heavy(c, minRel) + [x] else Heavy(c, minRel)
  {
    assert (c + [x])[..|c|] == c;
  }

  /** A logit below the rejection boundary would be rejected by its weight as well. */
  lemma BoundaryRejects(w: Weight, x: real, cut: real, minRel: real)
    requires IsWeight(w) && w(cut) < minRel && x <= cut
    ensures w(x) < minRel
  {
  }

  /** The weights that min-p keeps; most are rejected by the boundary, without their weight. */
  method WeighHeavy(l: array<Float>, top: real, temperature: real, w: Weight, minRel: real, cut: Option<real>, scratch: array<real>)
    returns (sum: real)
    requires temperature > 0.0 && IsWeight(w) && scratch.Length >= l.Length
    requires cut.Some? ==> w(cut.value) < minRel
    modifies scratch
    ensures forall k :: 0 <= k < l.Length ==> scratch[k] == HeavyWeight(l[k], top, temperature, w, minRel)
    ensures var s := Heavy(Cands(l[..], l.Length, top, temperature, w), minRel); sum == SumFirst(s, |s|)
  {
    hide IsWeight, Heavy;
    ghost var s := l[..];
    sum := 0.0;
    NoneHeavy(s, top, temperature, w, minRel);
    var i := 0;
    while i < l.Length
      invariant 0 <= i <= l.Length
      invariant forall k :: 0 <= k < i ==> scratch[k] == HeavyWeight(s[k], top, temperature, w, minRel)
      invariant sum == SumAll(Heavy(Cands(s, i, top, temperature, w), minRel))
    {
      scratch[i] := -1.0;
      if l[i].Fin? {
        var scaled := (l[i].v - top) / temperature;
        var cand := MakeCand(i, l[i].v, top, temperature, w);
        HeavyNext(Cands(s, i, top, temperature, w), cand, minRel);
        SumLast(Heavy(Cands(s, i, top, temperature, w), minRel), cand);
        if cut.Some? && scaled <= cut.value {
          BoundaryRejects(w, scaled, cut.value, minRel);
        } else {
          var p := w(scaled);
          if p >= minRel {
            scratch[i] := p;
            sum := sum + p;
          }
        }
      }
      i := i + 1;
    }
    assert forall k :: 0 <= k < l.Length ==> scratch[k] == HeavyWeight(s[k], top, temperature, w, minRel);
  }

  lemma NoneHeavy(l: seq<Float>, top: real, temperature: real, w: Weight, minRel: real)
    requires temperature > 0.0
    ensures SumAll(Heavy(Cands(l, 0, top, temperature, w), minRel)) == 0.0
  {
  }

  function SumAll(s: seq<Cand>): real {
    SumFirst(s, |s|)
  }

  function HeavyWeight(x: Float, top: real, temperature: real, w: Weight, minRel: real): real
    requires temperature > 0.0
  {
    if x.Fin? && Prob(x.v, top, temperature, w) >= minRel then Prob(x.v, top, temperature, w) else -1.0
  }

  /** Drawing in id order: logits without a weight are passed over. */
  method WalkScratch(l: array<Float>, top: real, temperature: real, w: Weight, minRel: real, scratch: array<real>, r0: real, best: int)
    returns (token: int)
    requires temperature > 0.0 && IsWeight(w) && scratch.Length >= l.Length
    requires forall k :: 0 <= k < l.Length ==> scratch[k] == HeavyWeight(l[k], top, temperature, w, minRel)
    ensures token == Walk(Heavy(Cands(l[..], l.Length, top, temperature, w), minRel), 0, r0, best)
  {
    hide IsWeight, Heavy, Cands, HeavyWeight;
    ghost var s := l[..];
    ghost var all := Heavy(Cands(s, l.Length, top, temperature, w), minRel);
    ghost var j := 0;
    var r := r0;
    var i := 0;
    HeavyStart(s, l.Length, top, temperature, w, minRel);
    while i < l.Length
      invariant 0 <= i <= l.Length && j == |Heavy(Cands(s, i, top, temperature, w), minRel)| <= |all|
      invariant Heavy(Cands(s, i, top, temperature, w), minRel) == all[..j]
      invariant Walk(all, j, r, best) == Walk(all, 0, r0, best)
    {
      var p := scratch[i];
      HeavyStep(s, i, top, temperature, w, minRel, p);
      HeavyPrefix(s, i + 1, l.Length, top, temperature, w, minRel);
      if p >= 0.0 {
        assert all[..j + 1][j] == Cand(i, l[i].v, p);
        r := r - p;
        if r <= 0.0 {
          return i;
        }
        j := j + 1;
      }
      i := i + 1;
    }
    return best;
  }

  lemma HeavyStart(l: seq<Float>, n: nat, top: real, temperature: real, w: Weight, minRel: real)
    requires temperature > 0.0 && n <= |l|
    ensures Heavy(Cands(l, 0, top, temperature, w), minRel) == []
  {
  }

  lemma HeavyStep(l: seq<Float>, i: nat, top: real, temperature: real, w: Weight, minRel: real, p: real)
    requires temperature > 0.0 && IsWeight(w) && i < |l| && p == HeavyWeight(l[i], top, temperature, w, minRel)
    ensures var s, s2 := Heavy(Cands(l, i, top, temperature, w), minRel), Heavy(Cands(l, i + 1, top, temperature, w), minRel);
      && (p < 0.0 ==> s2 == s)
      && (p >= 0.0 ==> l[i].Fin? && s2 == s + [Cand(i, l[i].v, p)])
  {
    hide Heavy;
    if l[i].Fin? {
      HeavyNext(Cands(l, i, top, temperature, w), MakeCand(i, l[i].v, top, temperature, w), minRel);
    }
  }

  lemma {:induction false} HeavyPrefix(l: seq<Float>, i: nat, n: nat, top: real, temperature: real, w: Weight, minRel: real)
    requires temperature > 0.0 && i <= n <= |l|
    ensures var s, s2 := Heavy(Cands(l, i, top, temperature, w), minRel), Heavy(Cands(l, n, top, temperature, w), minRel);
      |s| <= |s2| && s == s2[..|s|]
    decreases n
  {
    hide Heavy;
    if i < n {
      HeavyPrefix(l, i, n - 1, top, temperature, w, minRel);
      if l[n - 1].Fin? {
        HeavyNext(Cands(l, n - 1, top, temperature, w), MakeCand(n - 1, l[n - 1].v, top, temperature, w), minRel);
      }
    }
  }

  /** The path for topP of one: no sorting, one pass to weigh and one to draw. */
  method SamplePlain(l: array<Float>, top: real, best: int, temperature: real, minP: real, w: Weight, cut: Option<real>,
                     rng: Rng, scratch: array<real>) returns (token: int)
    requires temperature > 0.0 && IsWeight(w) && scratch.Length >= l.Length
    requires forall k :: 0 <= k < l.Length && l[k].Fin? ==> l[k].v <= top
    requires cut.Some? ==> minP > 0.0 && w(cut.value) < minP
    modifies rng, scratch
    ensures (token, rng.state) == PlainPick(Cands(old(l[..]), l.Length, top, temperature, w), minP, best, old(rng.state))
  {
    hide IsWeight, Heavy, Walk, NextState, Uniform;
    var minRel := if minP > 0.0 then minP else 0.0;
    if minRel > 1.0 {
      NothingHeavy(l[..], top, temperature, w, minRel);
      return best;
    }
    var sum := WeighHeavy(l, top, temperature, w, minRel, cut, scratch);
    if sum <= 0.0 {
      return best;
    }
    var u := rng.Draw();
    assert u * sum == Point(old(rng.state), sum);
    token := WalkScratch(l, top, temperature, w, minRel, scratch, u * sum, best);
  }

  /** No weight exceeds one. */
  lemma NothingHeavy(l: seq<Float>, top: real, temperature: real, w: Weight, minRel: real)
    requires temperature > 0.0 && IsWeight(w) && minRel > 1.0
    requires forall k :: 0 <= k < |l| && l[k].Fin? ==> l[k].v <= top
    ensures Heavy(Cands(l, |l|, top, temperature, w), minRel) == []
  {
    NothingHeavyUpTo(l, |l|, top, temperature, w, minRel);
  }

  lemma {:induction false} NothingHeavyUpTo(l: seq<Float>, n: nat, top: real, temperature: real, w: Weight, minRel: real)
    requires temperature > 0.0 && IsWeight(w) && minRel > 1.0 && n <= |l|
    requires forall k :: 0 <= k < |l| && l[k].Fin? ==> l[k].v <= top
    ensures Heavy(Cands(l, n, top, temperature, w), minRel) == []
  {
    hide Heavy;
    HeavyStart(l, n, top, temperature, w, minRel);
    if n > 0 {
      NothingHeavyUpTo(l, n - 1, top, temperature, w, minRel);
      if l[n - 1].Fin? {
        HeavyNext(Cands(l, n - 1, top, temperature, w), MakeCand(n - 1, l[n - 1].v, top, temperature, w), minRel);
        Scale(l[n - 1].v - top, 0.0, temperature);
        assert 0.0 / temperature == 0.0;
      }
    }
  }
}
