/** What the sampled token is, said of the logits themselves. */
module Sampled {
  import opened Common
  import opened Floats
  import C = Candidates
  import opened Candidates
  import opened Nucleus
  import opened Sampler
  import opened FullSampler
  import Argmax

  /** The id has a finite logit, none is greater, and none before it is as great. */
  ghost predicate FirstGreatest(l: seq<Float>, id: int) {
    && 0 <= id < |l| && l[id].Fin?
    && (forall k :: 0 <= k < |l| && l[k].Fin? ==> l[k].v <= l[id].v)
    && (forall k :: 0 <= k < id && l[k].Fin? ==> l[k].v < l[id].v)
  }

  /** The entry is a finite logit, its weight taken relative to the greatest one. */
  ghost predicate Entry(l: seq<Float>, temperature: real, w: Weight, top: real, c: Cand)
    requires temperature > 0.0
  {
    c.id < |l| && l[c.id] == Fin(c.logit) && c.prob == w((c.logit - top) / temperature)
  }

  /** The list ranks all finite logits: the greater first, of equal ones the smaller id. */
  ghost predicate Ranking(l: seq<Float>, temperature: real, w: Weight, s: seq<Cand>)
    requires temperature > 0.0
  {
    && s != []
    && (forall i, j :: 0 <= i < j < |s| ==> s[i].logit > s[j].logit || (s[i].logit == s[j].logit && s[i].id < s[j].id))
    && (forall i :: 0 <= i < |s| ==> Entry(l, temperature, w, s[0].logit, s[i]))
    && (forall k: nat :: k < |l| && l[k].Fin? ==> exists i :: 0 <= i < |s| && s[i].id == k)
  }

  /** The finite logits whose weight, relative to the greatest, is at least minRel, by id. */
  ghost predicate Heavies(l: seq<Float>, temperature: real, w: Weight, top: real, minRel: real, s: seq<Cand>)
    requires temperature > 0.0
  {
    && (forall i, j :: 0 <= i < j < |s| ==> s[i].id < s[j].id)
    && (forall i :: 0 <= i < |s| ==> Entry(l, temperature, w, top, s[i]) && s[i].prob >= minRel)
    && (forall k: nat :: k < |l| && l[k].Fin? && w((l[k].v - top) / temperature) >= minRel ==> exists i :: 0 <= i < |s| && s[i].id == k)
  }

  /** Of the ranked logits, the first k as a list of their own, the nucleus is kept and one is drawn from it. */
  ghost predicate NucleusDrawn(l: seq<Float>, temperature: real, k: nat, topP: real, minP: real, w: Weight, state: bv64, token: int, state2: bv64)
    requires temperature > 0.0
  {
    exists s :: Ranking(l, temperature, w, s) && DrawsFirst(s, k, topP, minP, state, token, state2)
  }

  ghost predicate DrawsFirst(s: seq<Cand>, k: nat, topP: real, minP: real, state: bv64, token: int, state2: bv64) {
    var n := Min(k, |s|);
    n > 0 && SumFirst(s, n) > 0.0 && Draws(s[..n], SumFirst(s, n), topP, minP, state, token, state2)
  }

  /** The token is drawn by weight from the logits that min-p keeps; min-p above one keeps none, and the greatest is taken. */
  ghost predicate PlainDrawn(l: seq<Float>, temperature: real, minP: real, w: Weight, state: bv64, token: int, state2: bv64)
    requires temperature > 0.0
  {
    exists best, s: seq<Cand> ::
      && FirstGreatest(l, best)
      && Heavies(l, temperature, w, l[best].v, if minP > 0.0 then minP else 0.0, s)
      && if s == [] then token == best && state2 == state
         else state2 == NextState(state) && exists j: nat :: Hits(s, |s|, Uniform(state), j) && token == s[j].id
  }

  /** Sampling from the whole vocabulary: without a finite logit the greedy choice, else a draw. */
  ghost predicate Drawn(l: seq<Float>, temperature: real, topP: real, minP: real, w: Weight, state: bv64, token: int, state2: bv64)
    requires temperature > 0.0
  {
    if forall k :: 0 <= k < |l| ==> !l[k].Fin? then Argmax.IsArgmax(l, token) && state2 == state
    else if topP < 1.0 then NucleusDrawn(l, temperature, |l|, topP, minP, w, state, token, state2)
    else PlainDrawn(l, temperature, minP, w, state, token, state2)
  }

  /** Sampling from the k greatest logits. */
  ghost predicate DrawnOfFirst(l: seq<Float>, temperature: real, k: nat, topP: real, minP: real, w: Weight, state: bv64, token: int, state2: bv64)
    requires temperature > 0.0
  {
    if k == 0 || (forall i :: 0 <= i < |l| ==> !l[i].Fin?) then Argmax.IsArgmax(l, token) && state2 == state
    else NucleusDrawn(l, temperature, k, topP, minP, w, state, token, state2)
  }

  // ------------------------------------------------------------ the reference does so

  /** The sorted candidates rank the logits. */
  lemma SortRanks(l: seq<Float>, finite: nat, top: Float, best: int, temperature: real, w: Weight)
    requires temperature > 0.0 && IsWeight(w) && finite > 0 && Summary(l, |l|, finite, top, best)
    ensures var s := Sort(Cands(l, |l|, top.v, temperature, w));
      Ranking(l, temperature, w, s) && s[0].prob == 1.0
  {
    hide Sort, IsWeight, Cands, Entry;
    var c := Cands(l, |l|, top.v, temperature, w);
    var s := Sort(c);
    GreatestHasWeightOne(l, top.v, best, temperature, w, c);
    HeadIsTop(l, top.v, best, temperature, w, s);
    SortDescends(l, top.v, temperature, w, s);
    SortEntries(l, top.v, temperature, w, s);
  }

  lemma SortDescends(l: seq<Float>, top: real, temperature: real, w: Weight, s: seq<Cand>)
    requires temperature > 0.0 && s == Sort(Cands(l, |l|, top, temperature, w))
    ensures forall i, j :: 0 <= i < j < |s| ==> s[i].logit > s[j].logit || (s[i].logit == s[j].logit && s[i].id < s[j].id)
  {
    hide Sort, DistinctIds, Cands;
    CandsDistinct(l, |l|, top, temperature, w);
    SortSorted(Cands(l, |l|, top, temperature, w));
    forall i, j | 0 <= i < j < |s|
      ensures s[i].logit > s[j].logit || (s[i].logit == s[j].logit && s[i].id < s[j].id)
    {
      assert C.Gt(s[i], s[j]);
    }
  }

  lemma SortEntries(l: seq<Float>, top: real, temperature: real, w: Weight, s: seq<Cand>)
    requires temperature > 0.0 && s == Sort(Cands(l, |l|, top, temperature, w))
    ensures forall i :: 0 <= i < |s| ==> Entry(l, temperature, w, top, s[i])
    ensures forall k: nat :: k < |l| && l[k].Fin? ==> exists i :: 0 <= i < |s| && s[i].id == k
  {
    hide Sort, Cands;
    var c := Cands(l, |l|, top, temperature, w);
    CandsIds(l, |l|, top, temperature, w, c);
    forall i | 0 <= i < |s|
      ensures Entry(l, temperature, w, top, s[i])
    {
      InList(c, s[i]);
      assert Of(s[i], l, |l|, top, temperature, w);
    }
    forall k: nat | k < |l| && l[k].Fin?
      ensures exists i :: 0 <= i < |s| && s[i].id == k
    {
      CandsHold(l, |l|, top, temperature, w, k, c);
      var x := MakeCand(k, l[k].v, top, temperature, w);
      assert x in multiset(c);
      assert x in multiset(s);
    }
  }

  lemma HeadIsTop(l: seq<Float>, top: real, best: int, temperature: real, w: Weight, s: seq<Cand>)
    requires temperature > 0.0 && s == Sort(Cands(l, |l|, top, temperature, w)) && s != []
    requires 0 <= best < |l| && l[best] == Fin(top) && forall k :: 0 <= k < |l| && l[k].Fin? ==> l[k].v <= top
    ensures s[0].logit == top
  {
    hide Sort, DistinctIds;
    var c := Cands(l, |l|, top, temperature, w);
    CandsHold(l, |l|, top, temperature, w, best, c);
    CandsDistinct(l, |l|, top, temperature, w);
    SortSorted(c);
    var x := MakeCand(best, top, top, temperature, w);
    assert x in multiset(c);
    HeadGreatest(s, x);
    InList(c, s[0]);
    CandsIds(l, |l|, top, temperature, w, c);
  }

  lemma {:induction false} RankedWeights(l: seq<Float>, temperature: real, w: Weight, s: seq<Cand>)
    requires temperature > 0.0 && IsWeight(w) && Ranking(l, temperature, w, s)
    ensures forall i :: 0 <= i < |s| ==> s[i].prob >= 0.0
  {
  }

  lemma HeadMass(s: seq<Cand>, n: nat)
    requires 0 < n <= |s| && s[0].prob == 1.0 && forall i :: 0 <= i < |s| ==> s[i].prob >= 0.0
    ensures SumFirst(s, n) >= 1.0
  {
    if n > 1 {
      HeadMass(s, n - 1);
    }
  }

  /** Sampling the k greatest from the sorted list draws from the ranking. */
  lemma FirstDrawn(l: seq<Float>, finite: nat, top: Float, best: int, temperature: real, k: nat, topP: real, minP: real,
                   w: Weight, id: int, state: bv64)
    requires temperature > 0.0 && IsWeight(w) && finite > 0 && Summary(l, |l|, finite, top, best) && k > 0
    requires Sort(Cands(l, |l|, top.v, temperature, w)) != []
    ensures var s := Sort(Cands(l, |l|, top.v, temperature, w));
      var n := Min(k, |s|);
      var r := Pick(s[..n], SumFirst(s[..n], n), topP, minP, id, state);
      NucleusDrawn(l, temperature, k, topP, minP, w, state, r.0, r.1)
  {
    hide Sort, Pick, IsWeight, Ranking, Cands, Draws, NextState, Uniform;
    var s := Sort(Cands(l, |l|, top.v, temperature, w));
    var n := Min(k, |s|);
    SortRanks(l, finite, top, best, temperature, w);
    RankedWeights(l, temperature, w, s);
    HeadMass(s, n);
    SumPrefix(s, n, n);
    PickDraws(s[..n], SumFirst(s, n), topP, minP, id, state);
    var r := Pick(s[..n], SumFirst(s, n), topP, minP, id, state);
    assert DrawsFirst(s, k, topP, minP, state, r.0, r.1);
  }

  /** Sorting everything draws from the whole ranking. */
  lemma FullDrawn(l: seq<Float>, finite: nat, top: Float, best: int, temperature: real, topP: real, minP: real, w: Weight, state: bv64)
    requires temperature > 0.0 && IsWeight(w) && finite > 0 && Summary(l, |l|, finite, top, best)
    requires Cands(l, |l|, top.v, temperature, w) != []
    ensures var r := FullSort(l, top.v, temperature, w, topP, minP, best, state);
      NucleusDrawn(l, temperature, |l|, topP, minP, w, state, r.0, r.1)
  {
    hide Sort, Pick, IsWeight, NucleusDrawn, DistinctIds;
    var c := Cands(l, |l|, top.v, temperature, w);
    var s := Sort(c);
    CandsCount(l, |l|, top.v, temperature, w);
    FirstDrawn(l, finite, top, best, temperature, |l|, topP, minP, w, best, state);
    assert s[..|s|] == s && c[..|c|] == c;
    SumOfList(s, |s|);
    SumOfList(c, |c|);
  }

  lemma {:induction false} CandsCount(l: seq<Float>, n: nat, top: real, temperature: real, w: Weight)
    requires n <= |l| && temperature > 0.0
    ensures |Cands(l, n, top, temperature, w)| <= n
  {
    if n > 0 {
      CandsCount(l, n - 1, top, temperature, w);
    }
  }

  lemma {:induction false} HeavyOnes(c: seq<Cand>, minRel: real)
    requires forall i, j :: 0 <= i < j < |c| ==> c[i].id < c[j].id
    ensures var h := Heavy(c, minRel);
      && (forall i, j :: 0 <= i < j < |h| ==> h[i].id < h[j].id)
      && (forall x :: x in h <==> x in c && x.prob >= minRel)
  {
    if c != [] {
      var n := |c| - 1;
      HeavyOnes(c[..n], minRel);
      assert c == c[..n] + [c[n]];
      forall x | x in c[..n]
        ensures x.id < c[n].id
      {
        var i :| 0 <= i < n && c[i] == x;
      }
    }
  }

  lemma HeavyIsHeavies(l: seq<Float>, top: real, temperature: real, w: Weight, minRel: real)
    requires temperature > 0.0
    ensures Heavies(l, temperature, w, top, minRel, Heavy(Cands(l, |l|, top, temperature, w), minRel))
  {
    hide Heavy;
    var c := Cands(l, |l|, top, temperature, w);
    var h := Heavy(c, minRel);
    CandsIds(l, |l|, top, temperature, w, c);
    HeavyOnes(c, minRel);
    forall i | 0 <= i < |h|
      ensures Entry(l, temperature, w, top, h[i]) && h[i].prob >= minRel
    {
      assert h[i] in h;
      var j :| 0 <= j < |c| && c[j] == h[i];
      assert Of(c[j], l, |l|, top, temperature, w);
    }
    forall k: nat | k < |l| && l[k].Fin? && w((l[k].v - top) / temperature) >= minRel
      ensures exists i :: 0 <= i < |h| && h[i].id == k
    {
      CandsHold(l, |l|, top, temperature, w, k, c);
      assert MakeCand(k, l[k].v, top, temperature, w) in h;
    }
  }

  lemma {:induction false} WalkedFrom(s: seq<Cand>, i: nat, r: real, best: int) returns (j: nat)
    requires i < |s| && r <= SumFirst(s, |s|) && forall k: nat :: 0 < k <= i ==> SumFirst(s, k) < r
    ensures Reaches(s, |s|, r, j) && Walk(s, i, r - SumFirst(s, i), best) == s[j].id
    decreases |s| - i
  {
    var left := r - SumFirst(s, i) - s[i].prob;
    assert left == r - SumFirst(s, i + 1);
    if left <= 0.0 {
      j := i;
    } else {
      j := WalkedFrom(s, i + 1, r, best);
    }
  }

  lemma WalkSome(s: seq<Cand>, u: real, r: real, best: int) returns (j: nat)
    requires s != [] && 0.0 <= u < 1.0 && forall k :: 0 <= k < |s| ==> s[k].prob >= 0.0
    requires r == u * SumFirst(s, |s|)
    ensures j < |s| && Hits(s, |s|, u, j) && Walk(s, 0, r, best) == s[j].id
  {
    SumNotNegative(s, |s|);
    hide Walk;
    var mass := SumFirst(s, |s|);
    assert r == u * mass;
    PartOf(u, mass);
    assert r <= mass;
    j := WalkedFrom(s, 0, r, best);
    assert r - SumFirst(s, 0) == r;
  }

  /** Without a nucleus the walk draws from what min-p keeps. */
  lemma PlainIsDrawn(l: seq<Float>, finite: nat, top: Float, best: int, temperature: real, minP: real, w: Weight, state: bv64)
    requires temperature > 0.0 && IsWeight(w) && finite > 0 && Summary(l, |l|, finite, top, best)
    ensures var r := PlainPick(Cands(l, |l|, top.v, temperature, w), minP, best, state);
      PlainDrawn(l, temperature, minP, w, state, r.0, r.1)
  {
    hide Heavy, Heavies, NextState, Uniform, SumFirst, Walk, Hits;
    var minRel := if minP > 0.0 then minP else 0.0;
    var c := Cands(l, |l|, top.v, temperature, w);
    var s := Heavy(c, minRel);
    HeavyIsHeavies(l, top.v, temperature, w, minRel);
    assert FirstGreatest(l, best);
    if s == [] {
      NoSum(s);
    } else {
      HeavyMass(l, top, best, temperature, minRel, w, s);
      UniformRange(state);
      var j := WalkSome(s, Uniform(state), Point(state, SumFirst(s, |s|)), best);
    }
  }

  lemma NoSum(s: seq<Cand>)
    requires s == []
    ensures SumFirst(s, |s|) == 0.0
  {
  }

  /** No logit outweighs the greatest, which has weight one. */
  lemma WeightAtMost(x: real, top: real, temperature: real, w: Weight)
    requires temperature > 0.0 && IsWeight(w) && x <= top
    ensures 0.0 <= w((x - top) / temperature) <= 1.0
    ensures x == top ==> w((x - top) / temperature) == 1.0
  {
    Scale(x - top, 0.0, temperature);
    assert 0.0 / temperature == 0.0;
  }

  /** So whatever min-p keeps has a mass. */
  lemma {:induction false} HeavyMass(l: seq<Float>, top: Float, best: int, temperature: real, minRel: real, w: Weight, s: seq<Cand>)
    requires temperature > 0.0 && IsWeight(w) && 0 <= best < |l| && top.Fin? && l[best] == top && minRel >= 0.0
    requires forall k :: 0 <= k < |l| && l[k].Fin? ==> l[k].v <= top.v
    requires s != [] && Heavies(l, temperature, w, top.v, minRel, s)
    ensures SumFirst(s, |s|) > 0.0 && forall k :: 0 <= k < |s| ==> s[k].prob >= 0.0
  {
    hide IsWeight;
    assert Entry(l, temperature, w, top.v, s[0]);
    WeightAtMost(s[0].logit, top.v, temperature, w);
    WeightAtMost(top.v, top.v, temperature, w);
    var i :| 0 <= i < |s| && s[i].id == best;
    assert Entry(l, temperature, w, top.v, s[i]);
    SumHolds(s, i, |s|);
  }

  lemma {:induction false} SumHolds(s: seq<Cand>, i: nat, n: nat)
    requires i < n <= |s| && forall k :: 0 <= k < |s| ==> s[k].prob >= 0.0
    ensures SumFirst(s, n) >= s[i].prob
  {
    if i < n - 1 {
      SumHolds(s, i, n - 1);
    } else {
      SumNotNegative(s, i);
    }
  }
}
