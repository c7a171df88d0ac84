/** The reference for sampling: keep a nucleus of the sorted candidates, then draw from it. */
module Nucleus {
  import opened Candidates
  import opened SampleHeap

  // ------------------------------------------------------------ random numbers

  /** sample_rng_next: the state after one step. */
  function NextState(state: bv64): bv64 {
    var x: bv64 := if state == 0 then 0x9e3779b97f4a7c15 else state;
    var y := x ^ (x >> 12);
    var z := y ^ (y << 25);
    z ^ (z >> 27)
  }

  /** The n lowest bits of a word, as a number. */
  function LowBits(x: bv64, n: nat): (v: nat)
    ensures v < Pow2(n)
  {
    if n == 0 then 0 else 2 * LowBits(x >> 1, n - 1) + if x & 1 == 1 then 1 else 0
  }

  function Pow2(n: nat): (p: nat)
    ensures p > 0
  {
    if n == 0 then 1 else 2 * Pow2(n - 1)
  }

  /** sample_rng_next: the number of a step. */
  function Scrambled(state: bv64): bv64 {
    NextState(state) * 0x2545f4914f6cdd1d
  }

  /** sample_rng_f32: bits 40 to 63 of the number, as a fraction. */
  function Uniform(state: bv64): real {
    LowBits(Scrambled(state) >> 40, 24) as real / 16777216.0
  }

  /** The fraction lies in [0, 1). */
  lemma UniformRange(state: bv64)
    ensures 0.0 <= Uniform(state) < 1.0
  {
    hide NextState, Scrambled, LowBits;
    assert Pow2(8) == 256;
    assert Pow2(16) == 0x1_0000;
    assert Pow2(24) == 0x100_0000;
  }

  class Rng {
    var state: bv64

    constructor (seed: bv64)
      ensures state == seed
    {
      state := seed;
    }

    method Draw() returns (r: real)
      modifies this
      ensures r == Uniform(old(state)) && state == NextState(old(state))
    {
      r := Uniform(state);
      state := NextState(state);
    }
  }

  // ---------------------------------------------------------------- the nucleus

  /** The sum of the first n probabilities of a list. */
  function SumFirst(s: seq<Cand>, n: nat): real
    requires n <= |s|
  {
    if n == 0 then 0.0 else SumFirst(s, n - 1) + s[n - 1].prob
  }

  function Relative(s: seq<Cand>, i: nat, sum: real): real
    requires i < |s| && sum > 0.0
  {
    s[i].prob / sum
  }

  /** How many candidates are kept from position i on: up to the mass topP, but none below minProb except the first. */
  function Kept(s: seq<Cand>, i: nat, sum: real, topP: real, minProb: real): (n: nat)
    requires i <= |s| && sum > 0.0
    ensures i <= n <= |s|
    decreases |s| - i
  {
    if i == |s| then i
    else if i > 0 && Relative(s, i, sum) < minProb then i
    else if SumFirst(s, i + 1) / sum >= topP then i + 1
    else Kept(s, i + 1, sum, topP, minProb)
  }

  /** The first candidate at which r is used up; the last one kept if it never is. */
  function DrawFrom(s: seq<Cand>, kept: nat, i: nat, r: real): nat
    requires 0 < kept <= |s| && i <= kept
    decreases kept - i
  {
    if i == kept then s[kept - 1].id
    else if r - s[i].prob <= 0.0 then s[i].id
    else DrawFrom(s, kept, i + 1, r - s[i].prob)
  }

  function MinProb(s: seq<Cand>, sum: real, minP: real): real
    requires s != [] && sum > 0.0
  {
    Relative(s, 0, sum) * if minP > 0.0 then minP else 0.0
  }

  /** Sampling from a sorted list: the token, and the state of the generator afterwards. */
  function Pick(s: seq<Cand>, sum: real, topP: real, minP: real, best: int, state: bv64): (int, bv64)
    requires s != []
  {
    if sum <= 0.0 then (best, state)
    else
      var kept := Kept(s, 0, sum, topP, MinProb(s, sum, minP));
      if kept == 0 then (best, state)
      else (DrawFrom(s, kept, 0, Threshold(s, kept, state)), NextState(state))
  }

  /** A random point in the mass of the kept candidates. */
  function Threshold(s: seq<Cand>, kept: nat, state: bv64): real
    requires kept <= |s|
  {
    Uniform(state) * SumFirst(s, kept)
  }

  lemma {:induction false} SumPrefix(s: seq<Cand>, m: nat, n: nat)
    requires n <= m <= |s|
    ensures SumFirst(s[..m], n) == SumFirst(s, n)
  {
    if n > 0 {
      SumPrefix(s, m, n - 1);
    }
  }

  lemma {:induction false} SumOfList(s: seq<Cand>, n: nat)
    requires n <= |s|
    ensures SumFirst(s, n) == SumOf(multiset(s[..n]))
  {
    if n > 0 {
      SumOfList(s, n - 1);
      assert s[..n] == s[..n - 1] + [s[n - 1]];
      SumAdd(multiset(s[..n - 1]), s[n - 1]);
    } else {
      assert s[..0] == [];
    }
  }

  lemma ShareOfSum(x: real, sum: real, topP: real)
    requires sum > 0.0
    ensures x >= topP * sum <==> x / sum >= topP
  {
    assert x / sum * sum == x;
    if x / sum >= topP {
      assert x / sum * sum >= topP * sum;
    } else {
      assert x / sum * sum < topP * sum;
    }
  }

  /** A prefix that has the mass, or is the whole list, keeps the same candidates. */
  lemma {:induction false} KeptOfPrefix(s: seq<Cand>, m: nat, i: nat, sum: real, topP: real, minProb: real)
    requires i <= m <= |s| && sum > 0.0
    requires m == |s| || (i < m && SumFirst(s, m) >= topP * sum)
    ensures Kept(s[..m], i, sum, topP, minProb) == Kept(s, i, sum, topP, minProb)
    decreases m - i
  {
    if m == |s| {
      assert s[..m] == s;
    } else {
      SumPrefix(s, m, i + 1);
      ShareOfSum(SumFirst(s, m), sum, topP);
      if i + 1 < m {
        KeptOfPrefix(s, m, i + 1, sum, topP, minProb);
      }
    }
  }

  /** Cutting off a tail of candidates below minProb keeps the same candidates. */
  lemma {:induction false} KeptOfCut(s: seq<Cand>, m: nat, i: nat, sum: real, topP: real, minProb: real)
    requires i <= m <= |s| && 0 < m && sum > 0.0
    requires forall k :: m <= k < |s| ==> Relative(s, k, sum) < minProb
    ensures Kept(s[..m], i, sum, topP, minProb) == Kept(s, i, sum, topP, minProb)
    decreases m - i
  {
    if i < m {
      SumPrefix(s, m, i + 1);
      KeptOfCut(s, m, i + 1, sum, topP, minProb);
    }
  }

  /** What is drawn depends on the kept candidates only. */
  lemma {:induction false} DrawPrefix(s: seq<Cand>, m: nat, kept: nat, i: nat, r: real)
    requires 0 < kept <= m <= |s| && i <= kept
    ensures DrawFrom(s[..m], kept, i, r) == DrawFrom(s, kept, i, r)
    decreases kept - i
  {
    if i < kept {
      DrawPrefix(s, m, kept, i + 1, r - s[i].prob);
    }
  }

  /** A prefix with the same kept candidates gives the same token and the same generator state. */
  lemma PickOfPrefix(s: seq<Cand>, m: nat, sum: real, topP: real, minP: real, best: int, state: bv64)
    requires 0 < m <= |s|
    requires sum > 0.0 ==> Kept(s[..m], 0, sum, topP, MinProb(s, sum, minP)) == Kept(s, 0, sum, topP, MinProb(s, sum, minP))
    ensures Pick(s[..m], sum, topP, minP, best, state) == Pick(s, sum, topP, minP, best, state)
  {
    hide NextState, Uniform, Kept;
    if sum > 0.0 {
      var kept := Kept(s, 0, sum, topP, MinProb(s, sum, minP));
      assert MinProb(s[..m], sum, minP) == MinProb(s, sum, minP);
      if kept > 0 {
        SumPrefix(s, m, kept);
        assert Threshold(s[..m], kept, state) == Threshold(s, kept, state);
        DrawPrefix(s, m, kept, 0, Threshold(s, kept, state));
      }
    }
  }

  // --------------------------------------------- what is kept and what is drawn

  /**
    Of a sorted list, the first n are kept: at least one; no shorter beginning has the mass; all but the first
    have their share of at least minProb; and if there are more, the mass is reached or the next is below minProb.
   */
  ghost predicate Keeps(s: seq<Cand>, sum: real, topP: real, minProb: real, n: nat)
    requires sum > 0.0
  {
    && 1 <= n <= |s|
    && (forall k: nat :: 0 < k < n ==> SumFirst(s, k) / sum < topP)
    && (forall k: nat :: 0 < k < n ==> s[k].prob / sum >= minProb)
    && (n < |s| ==> SumFirst(s, n) / sum >= topP || s[n].prob / sum < minProb)
  }

  /** Candidate j is the first of n at which the running sum reaches r. */
  ghost predicate Reaches(s: seq<Cand>, n: nat, r: real, j: nat) {
    && j < n <= |s|
    && (forall k: nat :: 0 < k <= j ==> SumFirst(s, k) < r)
    && r <= SumFirst(s, j + 1)
  }

  /** Candidate j is the first of n at which the running sum reaches the part u of the sum of all n. */
  ghost predicate Hits(s: seq<Cand>, n: nat, u: real, j: nat) {
    n <= |s| && exists r :: r == u * SumFirst(s, n) && Reaches(s, n, r, j)
  }

  /** The token and the state that a nucleus gives: kept, then drawn at a random point of the kept mass. */
  ghost predicate Draws(s: seq<Cand>, sum: real, topP: real, minP: real, state: bv64, token: int, state2: bv64)
    requires sum > 0.0 && s != []
  {
    && (exists n: nat, j: nat ::
          && Keeps(s, sum, topP, s[0].prob / sum * (if minP > 0.0 then minP else 0.0), n)
          && Hits(s, n, Uniform(state), j) && token == s[j].id)
    && state2 == NextState(state)
  }

  lemma {:induction false} KeptFrom(s: seq<Cand>, i: nat, sum: real, topP: real, minProb: real)
    requires i < |s| && sum > 0.0 && (i > 0 ==> s[i].prob / sum >= minProb)
    requires forall k: nat :: 0 < k <= i ==> SumFirst(s, k) / sum < topP && (k < i ==> s[k].prob / sum >= minProb)
    ensures Keeps(s, sum, topP, minProb, Kept(s, i, sum, topP, minProb))
    decreases |s| - i
  {
    hide SumFirst;
    if SumFirst(s, i + 1) / sum < topP && i + 1 < |s| && s[i + 1].prob / sum >= minProb {
      KeptFrom(s, i + 1, sum, topP, minProb);
    } else if SumFirst(s, i + 1) / sum < topP {
      assert Kept(s, i + 1, sum, topP, minProb) == i + 1;
    }
  }

  /** The kept are those, and there is one number of them only. */
  lemma KeptRight(s: seq<Cand>, sum: real, topP: real, minProb: real, n: nat)
    requires s != [] && sum > 0.0
    ensures Keeps(s, sum, topP, minProb, n) <==> n == Kept(s, 0, sum, topP, minProb)
  {
    hide SumFirst, Kept;
    KeptFrom(s, 0, sum, topP, minProb);
    var m := Kept(s, 0, sum, topP, minProb);
    if Keeps(s, sum, topP, minProb, n) && n != m {
      var a, b := if n < m then n else m, if n < m then m else n;
      KeepsOnce(s, sum, topP, minProb, a, b);
    }
  }

  lemma KeepsOnce(s: seq<Cand>, sum: real, topP: real, minProb: real, a: nat, b: nat)
    requires sum > 0.0 && a < b && Keeps(s, sum, topP, minProb, a)
    ensures !Keeps(s, sum, topP, minProb, b)
  {
    hide SumFirst;
  }

  lemma {:induction false} DrawnFrom(s: seq<Cand>, n: nat, i: nat, r: real) returns (j: nat)
    requires i < n <= |s| && r <= SumFirst(s, n) && forall k: nat :: 0 < k <= i ==> SumFirst(s, k) < r
    ensures Reaches(s, n, r, j) && DrawFrom(s, n, i, r - SumFirst(s, i)) == s[j].id
    decreases n - i
  {
    var left := r - SumFirst(s, i) - s[i].prob;
    assert left == r - SumFirst(s, i + 1);
    if left <= 0.0 {
      j := i;
    } else {
      j := DrawnFrom(s, n, i + 1, r);
    }
  }

  lemma {:induction false} SumNotNegative(s: seq<Cand>, n: nat)
    requires n <= |s| && forall k :: 0 <= k < |s| ==> s[k].prob >= 0.0
    ensures SumFirst(s, n) >= 0.0
  {
    if n > 0 {
      SumNotNegative(s, n - 1);
    }
  }

  lemma PartOf(u: real, sum: real)
    requires 0.0 <= u < 1.0 && sum >= 0.0
    ensures u * sum <= sum
  {
    NotNegative(1.0 - u, sum);
    assert (1.0 - u) * sum == sum - u * sum;
  }

  lemma NotNegative(a: real, b: real)
    requires a >= 0.0 && b >= 0.0
    ensures a * b >= 0.0
  {
  }

  lemma DrawSome(s: seq<Cand>, n: nat, u: real, r: real) returns (j: nat)
    requires 1 <= n <= |s| && 0.0 <= u < 1.0 && forall k :: 0 <= k < |s| ==> s[k].prob >= 0.0
    requires r == u * SumFirst(s, n)
    ensures j < n && Hits(s, n, u, j) && DrawFrom(s, n, 0, r) == s[j].id
  {
    SumNotNegative(s, n);
    hide DrawFrom;
    var mass := SumFirst(s, n);
    assert r == u * mass;
    PartOf(u, mass);
    assert r <= mass;
    j := DrawnFrom(s, n, 0, r);
    assert r - SumFirst(s, 0) == r;
  }

  /** Sampling from a sorted list of weights keeps and draws just so. */
  lemma PickDraws(s: seq<Cand>, sum: real, topP: real, minP: real, best: int, state: bv64)
    requires s != [] && sum > 0.0 && forall k :: 0 <= k < |s| ==> s[k].prob >= 0.0
    ensures var r := Pick(s, sum, topP, minP, best, state); Draws(s, sum, topP, minP, state, r.0, r.1)
  {
    hide NextState, Uniform, SumFirst, Kept, DrawFrom, Keeps, Hits, Pick;
    var minProb := s[0].prob / sum * (if minP > 0.0 then minP else 0.0);
    var n := Kept(s, 0, sum, topP, minProb);
    KeptRight(s, sum, topP, minProb, n);
    KeepsSome(s, sum, topP, minProb, n);
    UniformRange(state);
    var j := DrawSome(s, n, Uniform(state), Threshold(s, n, state));
    PickIs(s, sum, topP, minProb, minP, best, state);
  }

  lemma KeepsSome(s: seq<Cand>, sum: real, topP: real, minProb: real, n: nat)
    requires sum > 0.0 && Keeps(s, sum, topP, minProb, n)
    ensures 1 <= n <= |s|
  {
  }

  // ------------------------------------------------------------------ the loops

  /** The filter loop over a sorted array. */
  method Filter(a: array<Cand>, n: nat, sum: real, topP: real, minProb: real)
    returns (filtered: nat, filteredSum: real, stoppedByMinP: bool)
    requires n <= a.Length && sum > 0.0
    ensures filtered == Kept(a[..n], 0, sum, topP, minProb) && filteredSum == SumFirst(a[..n], filtered)
    ensures stoppedByMinP ==> filtered < n && a[filtered].prob / sum < minProb
  {
    ghost var s := a[..n];
    filtered, filteredSum, stoppedByMinP := 0, 0.0, false;
    var i := 0;
    while i < n
      invariant 0 <= i <= n && filtered == i && filteredSum == SumFirst(s, i) && !stoppedByMinP
      invariant Kept(s, i, sum, topP, minProb) == Kept(s, 0, sum, topP, minProb)
    {
      var p := a[i].prob / sum;
      if i > 0 && p < minProb {
        stoppedByMinP := true;
        break;
      }
      filteredSum := filteredSum + a[i].prob;
      filtered := filtered + 1;
      if filteredSum / sum >= topP {
        break;
      }
      i := i + 1;
    }
  }

  /** The drawing loop. */
  method DrawLoop(a: array<Cand>, filtered: nat, r0: real) returns (token: nat)
    requires 0 < filtered <= a.Length
    ensures token == DrawFrom(a[..], filtered, 0, r0)
  {
    var r := r0;
    var i := 0;
    while i < filtered
      invariant 0 <= i <= filtered
      invariant DrawFrom(a[..], filtered, i, r) == DrawFrom(a[..], filtered, 0, r0)
    {
      r := r - a[i].prob;
      if r <= 0.0 {
        return a[i].id;
      }
      i := i + 1;
    }
    return a[filtered - 1].id;
  }

  /** Drawing from the kept candidates. */
  method DrawKept(a: array<Cand>, ghost n: nat, filtered: nat, filteredSum: real, rng: Rng) returns (token: nat)
    requires 0 < filtered <= n <= a.Length && filteredSum == SumFirst(a[..n], filtered)
    modifies rng
    ensures token == DrawFrom(a[..n], filtered, 0, Threshold(a[..n], filtered, old(rng.state)))
    ensures rng.state == NextState(old(rng.state))
  {
    hide NextState, Uniform;
    var u := rng.Draw();
    token := DrawLoop(a, filtered, u * filteredSum);
    assert a[..][..n] == a[..n];
    DrawPrefix(a[..], n, filtered, 0, u * filteredSum);
    assert u * filteredSum == Threshold(a[..n], filtered, old(rng.state));
  }

  lemma NoMass(s: seq<Cand>, sum: real, topP: real, minP: real, best: int, state: bv64)
    requires s != [] && sum <= 0.0
    ensures Pick(s, sum, topP, minP, best, state) == (best, state)
  {
  }

  lemma PickIs(s: seq<Cand>, sum: real, topP: real, minProb: real, minP: real, best: int, state: bv64)
    requires s != [] && sum > 0.0 && minProb == MinProb(s, sum, minP)
    ensures var kept := Kept(s, 0, sum, topP, minProb);
      Pick(s, sum, topP, minP, best, state)
      == if kept == 0 then (best, state) else (DrawFrom(s, kept, 0, Threshold(s, kept, state)), NextState(state))
  {
  }

  /** Filtering and drawing, once the candidates are sorted. */
  method SampleSorted(a: array<Cand>, n: nat, sum: real, topP: real, minP: real, best: int, rng: Rng) returns (token: int)
    requires 0 < n <= a.Length && sum > 0.0
    modifies rng
    ensures (token, rng.state) == Pick(a[..n], sum, topP, minP, best, old(rng.state))
  {
    hide NextState, Uniform, Kept, Pick, Threshold, DrawFrom;
    var minProb := a[0].prob / sum * if minP > 0.0 then minP else 0.0;
    assert minProb == MinProb(a[..n], sum, minP);
    PickIs(a[..n], sum, topP, minProb, minP, best, rng.state);
    var filtered, filteredSum, stopped := Filter(a, n, sum, topP, minProb);
    if filtered == 0 {
      return best;
    }
    token := DrawKept(a, n, filtered, filteredSum, rng);
  }
}
