/** sample_top_p_min_p: which path samples, and what the result is, whichever it was. */
module Sampling {
  import opened Common
  import opened Floats
  import opened Candidates
  import opened Nucleus
  import opened Sampler
  import opened FullSampler
  import opened TopK
  import opened Sampled
  import Argmax

  // -------------------------------------------------------- the whole vocabulary

  /** The first pass: how many logits are finite, the greatest of them, and the first id that has it. */
  method Summarize(l: array<Float>) returns (finite: nat, top: Float, best: int)
    ensures Summary(l[..], l.Length, finite, top, best) && finite == |Unweighted(l[..], l.Length)|
  {
    finite, top, best := 0, NegInf, 0;
    var i := 0;
    while i < l.Length
      invariant 0 <= i <= l.Length && finite == |Unweighted(l[..], i)| && Summary(l[..], i, finite, top, best)
    {
      if l[i].Fin? {
        finite := finite + 1;
        if Floats.Gt(l[i], top) {
          top, best := l[i], i;
        }
      }
      i := i + 1;
    }
  }

  lemma {:induction false} SameCount(l: seq<Float>, n: nat, top: real, temperature: real, w: Weight)
    requires n <= |l| && temperature > 0.0
    ensures |Cands(l, n, top, temperature, w)| == |Unweighted(l, n)|
  {
    if n > 0 {
      SameCount(l, n - 1, top, temperature, w);
    }
  }

  /** What sampling from the whole vocabulary is meant to give. */
  ghost predicate FullRight(l: seq<Float>, temperature: real, topP: real, minP: real, w: Weight, state: bv64, token: int, state2: bv64)
    requires temperature > 0.0
  {
    exists finite: nat, top, best ::
      && Summary(l, |l|, finite, top, best)
      && if finite == 0 then Argmax.IsArgmax(l, token) && state2 == state
         else FullTarget(l, temperature, topP, minP, w, state, token, state2, top, best)
  }

  ghost predicate FullTarget(l: seq<Float>, temperature: real, topP: real, minP: real, w: Weight, state: bv64, token: int, state2: bv64,
                             top: Float, best: int)
    requires temperature > 0.0
  {
    && top.Fin?
    && var c := Cands(l, |l|, top.v, temperature, w);
       if topP >= 1.0 then (token, state2) == PlainPick(c, minP, best, state)
       else c != [] && (token, state2) == FullSort(l, top.v, temperature, w, topP, minP, best, state)
  }

  /** sample_full_vocab: the fast path when it accepts, otherwise the path for the parameters. */
  method SampleFullVocab(l: array<Float>, temperature: real, topP: real, minP: real, w: Weight, cut: Option<real>,
                         unrolled: bool, rng: Rng, scratch: array<real>) returns (token: int)
    requires temperature > 0.0 && IsWeight(w) && scratch.Length >= l.Length
    requires cut.Some? ==> minP > 0.0 && w(cut.value) < minP
    modifies rng, scratch
    ensures FullRight(old(l[..]), temperature, topP, minP, w, old(rng.state), token, rng.state)
    ensures Drawn(old(l[..]), temperature, topP, minP, w, old(rng.state), token, rng.state)
  {
    hide FullSort, PlainPick, IsWeight, Drawn;
    ghost var s, state := l[..], rng.state;
    var finite, top, best := Summarize(l);
    if finite == 0 {
      token := Argmax.SampleArgmax(l, unrolled);
      RightIs(s, temperature, topP, minP, w, state, token, state, finite, top, best);
      RightIsDrawn(s, temperature, topP, minP, w, state, token, state);
      return;
    }
    SameCount(s, l.Length, top.v, temperature, w);
    var accepted := false;
    if topP < 1.0 {
      accepted, token := FastTopP(l, finite, top.v, best, temperature, topP, minP, w, rng);
    }
    if !accepted {
      if topP >= 1.0 {
        token := SamplePlain(l, top.v, best, temperature, minP, w, cut, rng, scratch);
      } else if minP > 0.0 && minP <= 1.0 {
        token := SampleSurvivors(l, finite, top.v, best, temperature, topP, minP, w, rng, scratch);
      } else {
        token := SampleAll(l, finite, top.v, best, temperature, topP, minP, w, rng);
      }
    }
    RightIs(s, temperature, topP, minP, w, state, token, rng.state, finite, top, best);
    RightIsDrawn(s, temperature, topP, minP, w, state, token, rng.state);
  }

  lemma RightIs(l: seq<Float>, temperature: real, topP: real, minP: real, w: Weight, state: bv64, token: int, state2: bv64,
                finite: nat, top: Float, best: int)
    requires temperature > 0.0 && Summary(l, |l|, finite, top, best)
    requires if finite == 0 then Argmax.IsArgmax(l, token) && state2 == state
             else FullTarget(l, temperature, topP, minP, w, state, token, state2, top, best)
    ensures FullRight(l, temperature, topP, minP, w, state, token, state2)
  {
  }

  /** The reference draws as it should. */
  lemma RightIsDrawn(l: seq<Float>, temperature: real, topP: real, minP: real, w: Weight, state: bv64, token: int, state2: bv64)
    requires temperature > 0.0 && IsWeight(w) && FullRight(l, temperature, topP, minP, w, state, token, state2)
    ensures Drawn(l, temperature, topP, minP, w, state, token, state2)
  {
    hide IsWeight, FullSort, PlainPick, NucleusDrawn, PlainDrawn, Argmax.IsArgmax, Cands;
    var finite: nat, top, best :| Summary(l, |l|, finite, top, best)
      && if finite == 0 then Argmax.IsArgmax(l, token) && state2 == state
         else FullTarget(l, temperature, topP, minP, w, state, token, state2, top, best);
    if finite > 0 {
      if topP < 1.0 {
        FullDrawn(l, finite, top, best, temperature, topP, minP, w, state);
      } else {
        PlainIsDrawn(l, finite, top, best, temperature, minP, w, state);
      }
    }
  }

  /** So does the one of the k greatest. */
  lemma TopKRightIsDrawn(l: seq<Float>, temperature: real, k: nat, topP: real, minP: real, w: Weight, state: bv64, token: int, state2: bv64)
    requires temperature > 0.0 && IsWeight(w) && TopKRight(l, temperature, k, topP, minP, w, state, token, state2)
    ensures DrawnOfFirst(l, temperature, k, topP, minP, w, state, token, state2)
  {
    hide IsWeight, Sort, Pick, NucleusDrawn, Argmax.IsArgmax, Cands, SumFirst;
    var finite: nat, top, best :| Summary(l, |l|, finite, top, best)
      && if finite == 0 || k == 0 then Argmax.IsArgmax(l, token) && state2 == state
         else TopKTarget(l, temperature, k, topP, minP, w, state, token, state2, top, best);
    if finite > 0 && k > 0 {
      FirstDrawn(l, finite, top, best, temperature, k, topP, minP, w, best, state);
    }
  }

  // --------------------------------------------------------------------- top k

  /** The candidates with their weights filled in. */
  function Reweigh(c: seq<Cand>, top: real, temperature: real, w: Weight): (r: seq<Cand>)
    requires temperature > 0.0
    ensures |r| == |c|
  {
    seq(|c|, i requires 0 <= i < |c| => MakeCand(c[i].id, c[i].logit, top, temperature, w))
  }

  lemma ReweighHead(s: seq<Cand>, top: real, temperature: real, w: Weight)
    requires temperature > 0.0 && s != []
    ensures Reweigh(s, top, temperature, w)[0].id == s[0].id
  {
  }

  lemma {:induction false} InsertReweigh(s: seq<Cand>, c: Cand, top: real, temperature: real, w: Weight)
    requires temperature > 0.0
    ensures Reweigh(InsertSorted(s, c), top, temperature, w)
         == InsertSorted(Reweigh(s, top, temperature, w), MakeCand(c.id, c.logit, top, temperature, w))
  {
    hide Prob, InsertSorted;
    var r, d := Reweigh(s, top, temperature, w), MakeCand(c.id, c.logit, top, temperature, w);
    if s == [] || C.Gt(c, s[0]) {
      InsertFront(s, c);
      InsertFront(r, d);
      assert Reweigh([c] + s, top, temperature, w) == [d] + r;
    } else {
      InsertBehind(s, c);
      InsertBehind(r, d);
      InsertReweigh(s[1..], c, top, temperature, w);
      assert Reweigh(s[1..], top, temperature, w) == r[1..];
      var t := InsertSorted(s[1..], c);
      assert Reweigh([s[0]] + t, top, temperature, w) == [r[0]] + Reweigh(t, top, temperature, w);
    }
  }

  /** Weights do not matter for sorting. */
  lemma {:induction false} SortReweigh(c: seq<Cand>, top: real, temperature: real, w: Weight)
    requires temperature > 0.0
    ensures Reweigh(Sort(c), top, temperature, w) == Sort(Reweigh(c, top, temperature, w))
  {
    if c != [] {
      var n := |c| - 1;
      SortReweigh(c[..n], top, temperature, w);
      InsertReweigh(Sort(c[..n]), c[n], top, temperature, w);
      assert Reweigh(c, top, temperature, w)[..n] == Reweigh(c[..n], top, temperature, w);
    }
  }

  lemma {:induction false} CandsReweighed(l: seq<Float>, n: nat, top: real, temperature: real, w: Weight)
    requires n <= |l| && temperature > 0.0
    ensures Cands(l, n, top, temperature, w) == Reweigh(Unweighted(l, n), top, temperature, w)
  {
    if n > 0 {
      CandsReweighed(l, n - 1, top, temperature, w);
    }
  }

  function EffectiveK(topK: int, n: nat): nat
    requires topK > 0
  {
    var k := if topK > MAX_TOP_K then MAX_TOP_K else topK;
    if k > n then n else k
  }

  /** What sampling from the k greatest is meant to give: the sorted candidates, cut off at k, as the whole list. */
  ghost predicate TopKRight(l: seq<Float>, temperature: real, k: nat, topP: real, minP: real, w: Weight, state: bv64, token: int, state2: bv64)
    requires temperature > 0.0
  {
    exists finite: nat, top, best ::
      && Summary(l, |l|, finite, top, best)
      && if finite == 0 || k == 0 then Argmax.IsArgmax(l, token) && state2 == state
         else TopKTarget(l, temperature, k, topP, minP, w, state, token, state2, top, best)
  }

  ghost predicate TopKTarget(l: seq<Float>, temperature: real, k: nat, topP: real, minP: real, w: Weight, state: bv64, token: int, state2: bv64,
                             top: Float, best: int)
    requires temperature > 0.0
  {
    && top.Fin?
    && var c := Cands(l, |l|, top.v, temperature, w);
       var s := Sort(c)[..Min(k, |c|)];
       s != [] && s[0].id == best && (token, state2) == Pick(s, SumFirst(s, |s|), topP, minP, best, state)
  }

  /** Fills in the weights of the selected candidates and sums them up. */
  method WeighTop(a: array<Cand>, n: nat, temperature: real, w: Weight) returns (sum: real)
    requires 0 < n <= a.Length && temperature > 0.0
    modifies a
    ensures a[..n] == Reweigh(old(a[..n]), old(a[0]).logit, temperature, w) && sum == SumFirst(a[..n], n)
  {
    hide Prob;
    ghost var s := a[..n];
    var top := a[0].logit;
    ghost var r := Reweigh(s, top, temperature, w);
    sum := 0.0;
    var i := 0;
    while i < n
      invariant 0 <= i <= n && a[..i] == r[..i] && a[i..n] == s[i..]
      invariant sum == SumFirst(r, i)
    {
      assert a[i] == a[i..n][0] == s[i];
      a[i] := MakeCand(a[i].id, a[i].logit, top, temperature, w);
      sum := sum + a[i].prob;
      assert a[..i + 1] == a[..i] + [r[i]];
      assert a[i + 1..n] == s[i..][1..];
      i := i + 1;
    }
    assert a[..n] == r;
  }

  /** The head of the sorted candidates is the greatest logit with the smallest id. */
  lemma HeadIsBest(l: seq<Float>, finite: nat, top: Float, best: int)
    requires Summary(l, |l|, finite, top, best) && finite > 0
    ensures var s := Sort(Unweighted(l, |l|)); s != [] && s[0].id == best && s[0].logit == top.v
  {
    hide Sort;
    var c := Unweighted(l, |l|);
    CandsHold(l, |l|, 0.0, 1.0, x => 0.0, best, c);
    CandsIds(l, |l|, 0.0, 1.0, x => 0.0, c);
    CandsDistinct(l, |l|, 0.0, 1.0, x => 0.0);
    SortSorted(c);
    var s, x := Sort(c), Cand(best, top.v, 0.0);
    assert x in multiset(c);
    HeadGreatest(s, x);
    assert s[0] in multiset(s) && s[0] in multiset(c);
    assert Of(s[0], l, |l|, 0.0, 1.0, x => 0.0);
  }

  method SampleTopK(l: array<Float>, temperature: real, k: nat, topP: real, minP: real, w: Weight, unrolled: bool, rng: Rng)
    returns (token: int)
    requires temperature > 0.0 && IsWeight(w) && k <= MAX_TOP_K
    modifies rng
    ensures TopKRight(old(l[..]), temperature, k, topP, minP, w, old(rng.state), token, rng.state)
    ensures DrawnOfFirst(old(l[..]), temperature, k, topP, minP, w, old(rng.state), token, rng.state)
  {
    hide DrawnOfFirst, Pick, Sort, Unweighted, Reweigh, IsWeight, Summary;
    ghost var s, state := l[..], rng.state;
    ghost var finite, top, best := Summarized(s);
    var a := new Cand[MAX_TOP_K](_ => Cand(0, 0.0, 0.0));
    var n := 0;
    if k > 0 {
      n := TopKScan(l, k, a);
    }
    if n == 0 {
      token := Argmax.SampleArgmax(l, unrolled);
      TopKIs(s, temperature, k, topP, minP, w, state, token, state, finite, top, best);
      TopKRightIsDrawn(s, temperature, k, topP, minP, w, state, token, state);
      return;
    }
    HeadIsBest(s, finite, top, best);
    ghost var c := Unweighted(s, |s|);
    var sum := WeighTop(a, n, temperature, w);
    WeighedTop(s, n, k, top.v, temperature, w);
    ReweighHead(Sort(c)[..n], top.v, temperature, w);
    assert a[..n][0] == a[0];
    if sum <= 0.0 {
      NoMass(a[..n], sum, topP, minP, best, state);
      token := a[0].id;
    } else {
      token := SampleSorted(a, n, sum, topP, minP, a[0].id, rng);
    }
    TopKIs(s, temperature, k, topP, minP, w, state, token, rng.state, finite, top, best);
    TopKRightIsDrawn(s, temperature, k, topP, minP, w, state, token, rng.state);
  }

  lemma {:induction false} SummarizedUpTo(l: seq<Float>, n: nat) returns (finite: nat, top: Float, best: int)
    requires n <= |l|
    ensures Summary(l, n, finite, top, best) && finite == |Unweighted(l, n)|
  {
    if n == 0 {
      finite, top, best := 0, NegInf, 0;
    } else {
      finite, top, best := SummarizedUpTo(l, n - 1);
      if l[n - 1].Fin? {
        finite := finite + 1;
        if Floats.Gt(l[n - 1], top) {
          top, best := l[n - 1], n - 1;
        }
      }
    }
  }

  lemma Summarized(l: seq<Float>) returns (finite: nat, top: Float, best: int)
    ensures Summary(l, |l|, finite, top, best) && finite == |Unweighted(l, |l|)|
  {
    finite, top, best := SummarizedUpTo(l, |l|);
  }

  /** The selected candidates with their weights are the beginning of the sorted weighted candidates. */
  lemma WeighedTop(l: seq<Float>, n: nat, k: nat, top: real, temperature: real, w: Weight)
    requires temperature > 0.0 && n == Min(k, |Unweighted(l, |l|)|)
    ensures var c := Cands(l, |l|, top, temperature, w);
      n == Min(k, |c|) && Reweigh(Sort(Unweighted(l, |l|))[..n], top, temperature, w) == Sort(c)[..n]
  {
    hide Sort, Unweighted;
    var u := Unweighted(l, |l|);
    CandsReweighed(l, |l|, top, temperature, w);
    SortReweigh(u, top, temperature, w);
    assert Reweigh(Sort(u)[..n], top, temperature, w) == Reweigh(Sort(u), top, temperature, w)[..n];
  }

  lemma TopKIs(l: seq<Float>, temperature: real, k: nat, topP: real, minP: real, w: Weight, state: bv64, token: int, state2: bv64,
               finite: nat, top: Float, best: int)
    requires temperature > 0.0 && Summary(l, |l|, finite, top, best)
    requires if finite == 0 || k == 0 then Argmax.IsArgmax(l, token) && state2 == state
             else TopKTarget(l, temperature, k, topP, minP, w, state, token, state2, top, best)
    ensures TopKRight(l, temperature, k, topP, minP, w, state, token, state2)
  {
  }

  // ------------------------------------------------------------------ the entry

  /** sample_top_p_min_p */
  method SampleTopPMinP(l: array<Float>, temperature: real, topK: int, topP0: real, minP0: real, w: Weight, cut: Option<real>,
                        unrolled: bool, rng: Rng, scratch: array<real>) returns (token: int)
    requires IsWeight(w) && scratch.Length >= l.Length
    requires cut.Some? ==> minP0 > 0.0 && w(cut.value) < minP0
    modifies rng, scratch
    ensures temperature <= 0.0 ==> Argmax.IsArgmax(old(l[..]), token) && rng.state == old(rng.state)
    ensures temperature > 0.0 ==>
              var topP := if topP0 <= 0.0 || topP0 > 1.0 then 1.0 else topP0;
              var minP := if minP0 < 0.0 then 0.0 else minP0;
              if topK <= 0 then FullRight(old(l[..]), temperature, topP, minP, w, old(rng.state), token, rng.state)
              else TopKRight(old(l[..]), temperature, EffectiveK(topK, l.Length), topP, minP, w, old(rng.state), token, rng.state)
    ensures temperature > 0.0 ==>
              var topP := if topP0 <= 0.0 || topP0 > 1.0 then 1.0 else topP0;
              var minP := if minP0 < 0.0 then 0.0 else minP0;
              if topK <= 0 then Drawn(old(l[..]), temperature, topP, minP, w, old(rng.state), token, rng.state)
              else DrawnOfFirst(old(l[..]), temperature, Min(topK, Min(1024, l.Length)), topP, minP, w, old(rng.state), token, rng.state)
  {
    hide FullRight, TopKRight, IsWeight, Drawn, DrawnOfFirst;
    if temperature <= 0.0 {
      token := Argmax.SampleArgmax(l, unrolled);
      return;
    }
    var topP := if topP0 <= 0.0 || topP0 > 1.0 then 1.0 else topP0;
    var minP := if minP0 < 0.0 then 0.0 else minP0;
    if topK <= 0 {
      token := SampleFullVocab(l, temperature, topP, minP, w, cut, unrolled, rng, scratch);
      return;
    }
    token := SampleTopK(l, temperature, EffectiveK(topK, l.Length), topP, minP, w, unrolled, rng);
  }
}
