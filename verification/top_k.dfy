/** The insertion array of the top-k path: always the first k of a stable descending sort. */
module TopK {
  import opened Common
  import opened Floats
  import opened Candidates
  import opened Sampler

  /** The array holds the k greatest of the candidates seen, in descending order. */
  ghost predicate Ranks(s: seq<Cand>, seen: multiset<Cand>, k: nat) {
    Sorted(s) && IsTop(multiset(s), seen, k)
  }

  /** Where a candidate goes that comes after all others of the same logit. */
  lemma {:induction false} InsertedAt(s: seq<Cand>, c: Cand, j: nat)
    requires j <= |s| && (forall i :: 0 <= i < j ==> !C.Gt(c, s[i])) && (j < |s| ==> C.Gt(c, s[j]))
    ensures InsertSorted(s, c) == s[..j] + [c] + s[j..]
  {
    hide C.Gt, InsertSorted;
    if j == 0 {
      assert s[..0] + [c] + s[0..] == [c] + s;
      InsertFront(s, c);
    } else {
      InsertedAt(s[1..], c, j - 1);
      InsertBehind(s, c);
      Stitch(s, c, j);
    }
  }

  lemma Stitch(s: seq<Cand>, c: Cand, j: nat)
    requires 0 < j <= |s|
    ensures [s[0]] + (s[1..][..j - 1] + [c] + s[1..][j - 1..]) == s[..j] + [c] + s[j..]
  {
    assert s[..j] == [s[0]] + s[1..][..j - 1];
    assert s[j..] == s[1..][j - 1..];
  }

  lemma InsertFront(s: seq<Cand>, c: Cand)
    requires s != [] ==> C.Gt(c, s[0])
    ensures InsertSorted(s, c) == [c] + s
  {
  }

  lemma InsertBehind(s: seq<Cand>, c: Cand)
    requires s != [] && !C.Gt(c, s[0])
    ensures InsertSorted(s, c) == [s[0]] + InsertSorted(s[1..], c)
  {
  }

  lemma LastIsLeast(s: seq<Cand>, y: Cand)
    requires Sorted(s) && s != [] && y in multiset(s) && y != s[|s| - 1]
    ensures C.Gt(y, s[|s| - 1])
  {
  }

  /** Moves the smaller entries one place down and puts the candidate into the gap. */
  method ShiftIn(a: array<Cand>, last: nat, c: Cand)
    requires last < a.Length && Sorted(a[..last]) && forall k :: 0 <= k < last ==> a[k].id < c.id
    modifies a
    ensures a[..last + 1] == InsertSorted(old(a[..last]), c)
  {
    ghost var s := a[..last];
    var j := last;
    while j > 0 && a[j - 1].logit < c.logit
      invariant 0 <= j <= last
      invariant forall k :: 0 <= k < j ==> a[k] == s[k]
      invariant forall k :: j < k <= last ==> a[k] == s[k - 1]
      invariant j < last ==> s[j].logit < c.logit
    {
      a[j] := a[j - 1];
      j := j - 1;
    }
    a[j] := c;
    NotBefore(s, c, j);
    InsertedAt(s, c, j);
    assert a[..last + 1] == s[..j] + [c] + s[j..];
  }

  lemma NotBefore(s: seq<Cand>, c: Cand, j: nat)
    requires Sorted(s) && j <= |s| && (forall k :: 0 <= k < |s| ==> s[k].id < c.id) && (j > 0 ==> s[j - 1].logit >= c.logit)
    ensures forall i :: 0 <= i < j ==> !C.Gt(c, s[i])
  {
    forall i | 0 <= i < j
      ensures !C.Gt(c, s[i])
    {
      assert i < j - 1 ==> C.Gt(s[i], s[j - 1]);
    }
  }

  /** One finite logit of the top-k scan. */
  method Rank(a: array<Cand>, n: nat, k: nat, c: Cand, ghost seen: multiset<Cand>) returns (n2: nat)
    requires 0 < k <= a.Length && n == Min(k, |seen|) && Ranks(a[..n], seen, k)
    requires DistinctIds(seen + multiset{c}) && forall x :: x in seen ==> x.id < c.id
    modifies a
    ensures n2 == Min(k, |seen| + 1) && Ranks(a[..n2], seen + multiset{c}, k)
  {
    hide IsTop, DistinctIds, InsertSorted, Sorted;
    ghost var s := a[..n];
    Sizes(s);
    RankSize(s, seen, k, c);
    if n == k && c.logit <= a[n - 1].logit {
      LeftOut(s, seen, k, c);
      return n;
    }
    var last := if n < k then n else n - 1;
    SortedPart(s, last);
    assert a[..last] == s[..last];
    ShiftIn(a, last, c);
    RankIn(s, seen, k, c, last);
    return last + 1;
  }

  lemma SortedPart(s: seq<Cand>, m: nat)
    requires Sorted(s) && m <= |s|
    ensures Sorted(s[..m])
  {
  }

  lemma RankSize(s: seq<Cand>, seen: multiset<Cand>, k: nat, c: Cand)
    requires IsTop(multiset(s), seen, k) && forall x :: x in seen ==> x.id < c.id
    ensures |s| == Min(k, |seen|) && forall i :: 0 <= i < |s| ==> s[i] in seen && s[i].id < c.id
  {
    Sizes(s);
    forall i | 0 <= i < |s|
      ensures s[i] in seen
    {
      assert s[i] in multiset(s);
    }
  }

  lemma LeftOut(s: seq<Cand>, seen: multiset<Cand>, k: nat, c: Cand)
    requires Ranks(s, seen, k) && |s| == k > 0 && DistinctIds(seen + multiset{c}) && c.logit <= s[k - 1].logit
    requires forall x :: x in seen ==> x.id < c.id
    ensures Ranks(s, seen + multiset{c}, k)
  {
    hide IsTop, DistinctIds, Sorted;
    Sizes(s);
    RankSize(s, seen, k, c);
    forall y | y in multiset(s) && y != s[k - 1]
      ensures C.Gt(y, s[k - 1])
    {
      LastIsLeast(s, y);
    }
    TopStays(multiset(s), seen, k, c, s[k - 1]);
  }

  lemma RankIn(s: seq<Cand>, seen: multiset<Cand>, k: nat, c: Cand, last: nat)
    requires Ranks(s, seen, k) && DistinctIds(seen + multiset{c}) && forall x :: x in seen ==> x.id < c.id
    requires if |s| < k then last == |s| else last == |s| - 1 && k == |s| && c.logit > s[last].logit
    ensures Ranks(InsertSorted(s[..last], c), seen + multiset{c}, k)
    ensures |InsertSorted(s[..last], c)| == last + 1
  {
    hide IsTop, DistinctIds, Sorted, InsertSorted, C.Gt;
    var p := s[..last];
    SortedPart(s, last);
    RankSize(s, seen, k, c);
    InsertKeepsSorted(p, c);
    Sizes(p);
    Sizes(InsertSorted(p, c));
    if |s| < k {
      assert p == s;
      Sizes(s);
      TopGrows(multiset(s), seen, k, c);
    } else {
      LastOut(s, seen, k, c, last);
    }
  }

  lemma LastOut(s: seq<Cand>, seen: multiset<Cand>, k: nat, c: Cand, last: nat)
    requires Ranks(s, seen, k) && DistinctIds(seen + multiset{c}) && |s| == k == last + 1 && c.logit > s[last].logit
    ensures IsTop(multiset(s[..last]) + multiset{c}, seen + multiset{c}, k)
  {
    hide IsTop, DistinctIds, Sorted;
    Sizes(s);
    forall y | y in multiset(s) && y != s[last]
      ensures C.Gt(y, s[last])
    {
      LastIsLeast(s, y);
    }
    TopSwaps(multiset(s), seen, k, c, s[last]);
    assert s == s[..last] + [s[last]];
    assert multiset(s[..last]) == multiset(s) - multiset{s[last]};
  }

  /** The scan of the top-k path: the k greatest finite logits, in descending order, equal ones by id. */
  method TopKScan(l: array<Float>, k: nat, a: array<Cand>) returns (n: nat)
    requires 0 < k <= a.Length
    modifies a
    ensures var c := Unweighted(l[..], l.Length);
      n == Min(k, |c|) && n <= a.Length && a[..n] == Sort(c)[..n]
  {
    hide Ranks, DistinctIds, IsTop, Sort, Sorted;
    ghost var s := l[..];
    n := 0;
    NothingRanked(k);
    assert a[..0] == [];
    var i := 0;
    while i < l.Length
      invariant 0 <= i <= l.Length && n == Min(k, |Unweighted(s, i)|) && n <= a.Length
      invariant Ranks(a[..n], multiset(Unweighted(s, i)), k)
    {
      if l[i].Fin? {
        ghost var c := Unweighted(s, i);
        var x := Cand(i, l[i].v, 0.0);
        UnweightedNext(s, i);
        Sizes(c);
        n := Rank(a, n, k, x, multiset(c));
      }
      i := i + 1;
    }
    RanksSort(a[..n], Unweighted(s, l.Length), k, s);
  }

  /** The candidates without their weights. */
  function Unweighted(l: seq<Float>, n: nat): seq<Cand>
    requires n <= |l|
  {
    Cands(l, n, 0.0, 1.0, x => 0.0)
  }

  lemma NothingRanked(k: nat)
    ensures Ranks([], multiset([]), k)
  {
    TopNothing(k);
  }

  lemma UnweightedNext(l: seq<Float>, i: nat)
    requires i < |l| && l[i].Fin?
    ensures var c, x := Unweighted(l, i), Cand(i, l[i].v, 0.0);
      && Unweighted(l, i + 1) == c + [x] && multiset(c + [x]) == multiset(c) + multiset{x}
      && DistinctIds(multiset(c) + multiset{x}) && forall y: Cand :: y in multiset(c) ==> y.id < i
  {
    hide DistinctIds;
    var c, x := Unweighted(l, i), Cand(i, l[i].v, 0.0);
    CandsDistinct(l, i + 1, 0.0, 1.0, x => 0.0);
    CandsIds(l, i, 0.0, 1.0, x => 0.0, c);
    forall y: Cand | y in multiset(c)
      ensures y.id < i
    {
      assert y in c;
    }
  }

  lemma RanksSort(t: seq<Cand>, c: seq<Cand>, k: nat, l: seq<Float>)
    requires Ranks(t, multiset(c), k) && c == Unweighted(l, |l|)
    ensures t == Sort(c)[..Min(k, |c|)]
  {
    hide DistinctIds, IsTop, Sort, Sorted;
    CandsDistinct(l, |l|, 0.0, 1.0, x => 0.0);
    TopIsPrefix(t, c, k);
  }
}
