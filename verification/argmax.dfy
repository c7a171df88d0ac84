/** Greedy sampling: the eight-lane argmax agrees with the plain scan, on every kind of float. */
module Floats {
  /** The values a comparison of floats can tell apart. */
  datatype Float = NaN | NegInf | Fin(v: real) | PosInf

  /** a > b */
  predicate Gt(a: Float, b: Float) {
    match a
    case NaN => false
    case NegInf => false
    case Fin(x) => b.NegInf? || (b.Fin? && x > b.v)
    case PosInf => b.NegInf? || b.Fin?
  }

  /** a == b */
  predicate Eq(a: Float, b: Float) {
    !a.NaN? && a == b
  }
}

module Argmax {
  import opened Floats

  // ------------------------------------------------------ what a scan finds

  /**
    Starting from index b0 with value v0, the indices in `s` were looked at: (b, v)
    is the first greatest of those that beat v0, or the start if none does.
   */
  ghost predicate BestOf(l: seq<Float>, s: set<nat>, b0: int, v0: Float, b: int, v: Float) {
    && (forall k :: k in s ==> k < |l|)
    && if b >= 0 && b in s && Gt(v, v0) then
      v == l[b] && forall k :: k in s ==> !Gt(l[k], v) && (Eq(l[k], v) ==> b <= k)
    else
      b == b0 && v == v0 && forall k :: k in s ==> !Gt(l[k], v0)
  }

  /** The result of a scan is determined by what was looked at. */
  lemma BestUnique(l: seq<Float>, s: set<nat>, b0: int, v0: Float, b: int, v: Float, c: int, w: Float)
    requires BestOf(l, s, b0, v0, b, v) && BestOf(l, s, b0, v0, c, w)
    ensures b == c && v == w
  {
  }

  /** Looking at one more index, behind all others. */
  lemma BestNext(l: seq<Float>, s: set<nat>, b0: int, v0: Float, b: int, v: Float, x: nat)
    requires x < |l| && (forall k :: k in s ==> k < x)
    requires BestOf(l, s, b0, v0, b, v)
    ensures if Gt(l[x], v) then BestOf(l, s + {x}, b0, v0, x, l[x]) else BestOf(l, s + {x}, b0, v0, b, v)
  {
  }

  /** A lane's result replaces the best so far if it is greater, or as great and further left. */
  predicate Replaces(b: int, v: Float, best: int, bestV: Float) {
    Gt(v, bestV) || (Eq(v, bestV) && b < best)
  }

  /** Two scans from the same start, over different indices, merge into one. */
  lemma BestMerge(l: seq<Float>, s: set<nat>, t: set<nat>, b0: int, v0: Float, b: int, v: Float, c: int, w: Float)
    requires BestOf(l, s, b0, v0, b, v) && BestOf(l, t, b0, v0, c, w)
    ensures if Replaces(c, w, b, v) then BestOf(l, s + t, b0, v0, c, w) else BestOf(l, s + t, b0, v0, b, v)
  {
  }

  ghost function Range(begin: nat, end: nat): (r: set<nat>)
    ensures forall k :: k in r <==> begin <= k < end
  {
    if begin >= end then {} else Range(begin, end - 1) + {end - 1}
  }

  // ---------------------------------------------------------- the plain scan

  /** The reference loop. */
  method Scan(l: array<Float>, begin: nat, end: nat, b0: int, v0: Float) returns (best: int, bestV: Float)
    requires begin <= end <= l.Length
    ensures BestOf(l[..], Range(begin, end), b0, v0, best, bestV)
  {
    best, bestV := b0, v0;
    var i := begin;
    while i < end
      invariant begin <= i <= end
      invariant BestOf(l[..], Range(begin, i), b0, v0, best, bestV)
    {
      BestNext(l[..], Range(begin, i), b0, v0, best, bestV, i);
      assert Range(begin, i) + {i} == Range(begin, i + 1);
      if Gt(l[i], bestV) {
        best, bestV := i, l[i];
      }
      i := i + 1;
    }
  }

  // -------------------------------------------------------- the eight lanes

  predicate OnLane(begin: nat, k: nat, j: nat) {
    (k - begin) % 8 == j
  }

  /** The indices of lane j. */
  ghost function Lane(begin: nat, end: nat, j: nat): set<nat> {
    set k | k in Range(begin, end) && OnLane(begin, k, j)
  }

  ghost function LanesBelow(begin: nat, end: nat, m: nat): set<nat> {
    set k | k in Range(begin, end) && (k - begin) % 8 < m
  }

  /** argmax_f32_unrolled8_range: eight scans side by side, merged, then the rest one by one. */
  method Unrolled8(l: array<Float>, begin: nat, end: nat, b0: int, v0: Float) returns (best: int, bestV: Float)
    requires begin <= end <= l.Length
    ensures BestOf(l[..], Range(begin, end), b0, v0, best, bestV)
  {
    hide BestOf;
    ghost var s := l[..];
    var bs: array<int> := new int[8](_ => b0);
    var vs: array<Float> := new Float[8](_ => v0);
    var i := begin;
    NothingSeen(s, begin, b0, v0);
    while end - i >= 8
      invariant begin <= i <= end && (i - begin) % 8 == 0
      invariant forall j :: 0 <= j < 8 ==> BestOf(s, Lane(begin, i, j), b0, v0, bs[j], vs[j])
    {
      Block(l, begin, i, b0, v0, bs, vs);
      i := i + 8;
    }
    best, bestV := Merge(s, begin, i, b0, v0, bs, vs);
    while i < end
      invariant begin <= i <= end
      invariant BestOf(s, Range(begin, i), b0, v0, best, bestV)
    {
      BestNext(s, Range(begin, i), b0, v0, best, bestV, i);
      assert Range(begin, i) + {i} == Range(begin, i + 1);
      if Gt(l[i], bestV) {
        best, bestV := i, l[i];
      }
      i := i + 1;
    }
  }

  lemma NothingSeen(s: seq<Float>, begin: nat, b0: int, v0: Float)
    ensures forall j: nat :: BestOf(s, Lane(begin, begin, j), b0, v0, b0, v0)
  {
  }

  /** One turn of the unrolled loop: eight comparisons, one per lane. */
  method Block(l: array<Float>, begin: nat, i: nat, b0: int, v0: Float, bs: array<int>, vs: array<Float>)
    requires begin <= i && i + 8 <= l.Length && (i - begin) % 8 == 0 && bs.Length == 8 && vs.Length == 8 && l != vs
    requires forall j :: 0 <= j < 8 ==> BestOf(l[..], Lane(begin, i, j), b0, v0, bs[j], vs[j])
    modifies bs, vs
    ensures forall j :: 0 <= j < 8 ==> BestOf(l[..], Lane(begin, i + 8, j), b0, v0, bs[j], vs[j])
  {
    hide BestOf;
    var j := 0;
    while j < 8
      invariant 0 <= j <= 8
      invariant forall k :: 0 <= k < j ==> BestOf(l[..], Lane(begin, i + 8, k), b0, v0, bs[k], vs[k])
      invariant forall k :: j <= k < 8 ==> BestOf(l[..], Lane(begin, i, k), b0, v0, bs[k], vs[k])
    {
      BestNext(l[..], Lane(begin, i, j), b0, v0, bs[j], vs[j], i + j);
      LaneGrows(begin, i, j);
      if Gt(l[i + j], vs[j]) {
        bs[j], vs[j] := i + j, l[i + j];
      }
      j := j + 1;
    }
  }

  lemma LaneGrows(begin: nat, i: nat, j: nat)
    requires begin <= i && (i - begin) % 8 == 0 && j < 8
    ensures Lane(begin, i, j) + {i + j} == Lane(begin, i + 8, j)
  {
    var q := (i - begin) / 8;
    forall k: nat | i <= k < i + 8
      ensures OnLane(begin, k, j) <==> k == i + j
    {
      assert k - begin == 8 * q + (k - i);
    }
  }

  /** The lanes are merged in order. */
  method Merge(ghost s: seq<Float>, ghost begin: nat, ghost i: nat, b0: int, v0: Float, bs: array<int>, vs: array<Float>)
    returns (best: int, bestV: Float)
    requires begin <= i <= |s| && bs.Length == 8 && vs.Length == 8
    requires forall j :: 0 <= j < 8 ==> BestOf(s, Lane(begin, i, j), b0, v0, bs[j], vs[j])
    ensures BestOf(s, Range(begin, i), b0, v0, best, bestV)
  {
    hide BestOf;
    best, bestV := b0, v0;
    NoLanes(s, begin, i, b0, v0);
    var j := 0;
    while j < 8
      invariant 0 <= j <= 8
      invariant BestOf(s, LanesBelow(begin, i, j), b0, v0, best, bestV)
    {
      BestMerge(s, LanesBelow(begin, i, j), Lane(begin, i, j), b0, v0, best, bestV, bs[j], vs[j]);
      assert LanesBelow(begin, i, j) + Lane(begin, i, j) == LanesBelow(begin, i, j + 1);
      if Replaces(bs[j], vs[j], best, bestV) {
        best, bestV := bs[j], vs[j];
      }
      j := j + 1;
    }
    assert LanesBelow(begin, i, 8) == Range(begin, i);
  }

  lemma NoLanes(s: seq<Float>, begin: nat, i: nat, b0: int, v0: Float)
    requires begin <= i <= |s|
    ensures BestOf(s, LanesBelow(begin, i, 0), b0, v0, b0, v0)
  {
    assert LanesBelow(begin, i, 0) == {};
  }

  /** The unrolled form and the reference loop return the same index and value. */
  method Agree(l: array<Float>, begin: nat, end: nat, b0: int, v0: Float) returns (fast: (int, Float), plain: (int, Float))
    requires begin <= end <= l.Length
    ensures fast == plain
  {
    var b, v := Unrolled8(l, begin, end, b0, v0);
    var c, w := Scan(l, begin, end, b0, v0);
    BestUnique(l[..], Range(begin, end), b0, v0, b, v, c, w);
    return (b, v), (c, w);
  }

  // ------------------------------------------------------------ the callers

  /** The greedy choice: the first greatest logit; index 0 when nothing is greater than minus infinity. */
  ghost predicate IsArgmax(l: seq<Float>, best: int) {
    exists v :: BestOf(l, Range(0, |l|), 0, NegInf, best, v)
  }

  /** sample_argmax: the switch turns the unrolled form off. */
  method SampleArgmax(l: array<Float>, unrolled: bool) returns (best: int)
    ensures IsArgmax(l[..], best)
  {
    var v;
    if unrolled {
      best, v := Unrolled8(l, 0, l.Length, 0, NegInf);
    } else {
      best, v := Scan(l, 0, l.Length, 0, NegInf);
    }
    assert BestOf(l[..], Range(0, |l[..]|), 0, NegInf, best, v);
  }

  ghost function Only(id: int): set<nat> {
    if id >= 0 then {id} else {}
  }

  /** The indices the scan looks at after its first one. */
  ghost function Others(first: nat, end: nat, excluded: int): set<nat> {
    Range(first + 1, end) - Only(excluded)
  }

  /** The choice without one id: the first index that is left starts the scan, whatever its value. */
  ghost predicate IsArgmaxExcluding(l: seq<Float>, excluded: int, best: int) {
    var first := if excluded == 0 then 1 else 0;
    if first >= |l| then best == -1
    else exists v :: BestOf(l, Others(first, |l|, excluded), first, l[first], best, v)
  }

  /** argmax_f32_excluding_unrolled8 */
  method ArgmaxExcluding8(l: array<Float>, excluded: int) returns (best: int)
    ensures IsArgmaxExcluding(l[..], excluded, best)
  {
    hide BestOf;
    var n := l.Length;
    var first := if excluded == 0 then 1 else 0;
    if first >= n {
      return -1;
    }
    var begin, v := first + 1, l[first];
    ghost var s, b0, v0 := l[..], first, l[first];
    best := first;
    if begin <= excluded < n {
      best, v := Unrolled8(l, begin, excluded, best, v);
      ghost var b1, v1 := best, v;
      best, v := Unrolled8(l, excluded + 1, n, best, v);
      BestChain(s, Range(begin, excluded), Range(excluded + 1, n), b0, v0, b1, v1, best, v);
      assert Range(begin, excluded) + Range(excluded + 1, n) == Others(first, n, excluded);
    } else {
      best, v := Unrolled8(l, begin, n, best, v);
      assert Range(begin, n) == Others(first, n, excluded);
    }
    assert BestOf(s, Others(first, |s|, excluded), first, s[first], best, v);
  }

  /** A scan that goes on from where another one ended, further right. */
  lemma BestChain(l: seq<Float>, s: set<nat>, t: set<nat>, b0: int, v0: Float, b: int, v: Float, c: int, w: Float)
    requires (forall i, j :: i in s && j in t ==> i < j)
    requires b0 !in t
    requires BestOf(l, s, b0, v0, b, v) && BestOf(l, t, b, v, c, w)
    ensures BestOf(l, s + t, b0, v0, c, w)
  {
  }

  /** The reference loop without one id. */
  method ArgmaxExcluding(l: array<Float>, excluded: int) returns (best: int)
    ensures IsArgmaxExcluding(l[..], excluded, best)
  {
    best := -1;
    var v := NegInf;
    var first := if excluded == 0 then 1 else 0;
    ghost var s := l[..];
    var i := 0;
    while i < l.Length
      invariant 0 <= i <= l.Length
      invariant i <= first ==> best == -1
      invariant i > first ==> best >= 0
      invariant i > first ==> BestOf(s, Others(first, i, excluded), first, s[first], best, v)
    {
      if i != excluded {
        if i > first {
          BestNext(s, Others(first, i, excluded), first, s[first], best, v, i);
        }
        if best < 0 || Gt(l[i], v) {
          best, v := i, l[i];
        }
      }
      GrowsWithout(first, i, excluded);
      i := i + 1;
    }
  }

  lemma GrowsWithout(first: nat, i: nat, excluded: int)
    ensures var x := Only(excluded);
      && (i == first ==> Range(first + 1, i + 1) - x == {})
      && (i > first && i != excluded ==> Range(first + 1, i) - x + {i} == Range(first + 1, i + 1) - x)
      && (i == excluded ==> Range(first + 1, i) - x == Range(first + 1, i + 1) - x)
  {
  }

  /** Only one answer is right. */
  lemma ExcludingUnique(l: seq<Float>, excluded: int, a: int, b: int)
    requires IsArgmaxExcluding(l, excluded, a) && IsArgmaxExcluding(l, excluded, b)
    ensures a == b
  {
    var first := if excluded == 0 then 1 else 0;
    if first < |l| {
      var s := Others(first, |l|, excluded);
      var v :| BestOf(l, s, first, l[first], a, v);
      var w :| BestOf(l, s, first, l[first], b, w);
      BestUnique(l, s, first, l[first], a, v, b, w);
    }
  }

  lemma ArgmaxUnique(l: seq<Float>, a: int, b: int)
    requires IsArgmax(l, a) && IsArgmax(l, b)
    ensures a == b
  {
    var v :| BestOf(l, Range(0, |l|), 0, NegInf, a, v);
    var w :| BestOf(l, Range(0, |l|), 0, NegInf, b, w);
    BestUnique(l, Range(0, |l|), 0, NegInf, a, v, b, w);
  }
}
