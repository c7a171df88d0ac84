/** Sampling candidates: their order, sorted lists of them, and the k greatest. */
module Candidates {
  import opened Common

  datatype Cand = Cand(id: nat, logit: real, prob: real)

  /** sample_candidate_gt: a greater logit, or the same logit and a smaller id. */
  predicate Gt(a: Cand, b: Cand) {
    if a.logit != b.logit then a.logit > b.logit else a.id < b.id
  }

  /** Different candidates have different ids, so the order is total on them. */
  ghost predicate DistinctIds(m: multiset<Cand>) {
    && (forall a, b :: a in m && b in m && a != b ==> a.id != b.id)
    && (forall a :: a in m ==> m[a] == 1)
  }

  ghost predicate Sorted(s: seq<Cand>) {
    forall i, j :: 0 <= i < j < |s| ==> Gt(s[i], s[j])
  }

  lemma GtTransitive(a: Cand, b: Cand, c: Cand)
    requires Gt(a, b) && Gt(b, c)
    ensures Gt(a, c)
  {
  }

  lemma MultisetTail(s: seq<Cand>)
    requires s != []
    ensures multiset(s[1..]) == multiset(s) - multiset{s[0]}
  {
    assert s == [s[0]] + s[1..];
  }

  lemma SortedTail(s: seq<Cand>)
    requires Sorted(s) && s != []
    ensures Sorted(s[1..])
  {
  }

  lemma SameHead(s: seq<Cand>, t: seq<Cand>)
    requires Sorted(s) && Sorted(t) && multiset(s) == multiset(t) && s != [] && t != []
    ensures s[0] == t[0]
  {
    HeadGreatest(s, t[0]);
    HeadGreatest(t, s[0]);
  }

  lemma HeadGreatest(s: seq<Cand>, x: Cand)
    requires Sorted(s) && x in multiset(s)
    ensures s != [] && (x == s[0] || Gt(s[0], x))
  {
  }

  /** There is one way to sort. */
  lemma {:induction false} SortedUnique(s: seq<Cand>, t: seq<Cand>)
    requires Sorted(s) && Sorted(t) && multiset(s) == multiset(t)
    ensures s == t
  {
    hide Sorted, Gt;
    Sizes(s);
    Sizes(t);
    if s != [] {
      SameHead(s, t);
      MultisetTail(s);
      MultisetTail(t);
      SortedTail(s);
      SortedTail(t);
      SortedUnique(s[1..], t[1..]);
      assert s == [s[0]] + s[1..] && t == [t[0]] + t[1..];
    }
  }

  function InsertSorted(s: seq<Cand>, c: Cand): (r: seq<Cand>)
    ensures multiset(r) == multiset(s) + multiset{c}
  {
    if s == [] then [c]
    else if Gt(c, s[0]) then [c] + s
    else
      assert s == [s[0]] + s[1..];
      [s[0]] + InsertSorted(s[1..], c)
  }

  /** The candidates in descending order. */
  function Sort(s: seq<Cand>): (r: seq<Cand>)
    ensures multiset(r) == multiset(s) && |r| == |s|
  {
    if s == [] then []
    else
      var n := |s| - 1;
      assert s == s[..n] + [s[n]];
      var r := InsertSorted(Sort(s[..n]), s[n]);
      assert |multiset(r)| == |r| && |multiset(s)| == |s|;
      r
  }

  lemma {:induction false} InsertKeepsSorted(s: seq<Cand>, c: Cand)
    requires Sorted(s) && forall x :: x in s ==> x.id != c.id
    ensures Sorted(InsertSorted(s, c))
  {
    if s != [] {
      if Gt(c, s[0]) {
        forall j | 0 <= j < |s|
          ensures Gt(c, s[j])
        {
          if j > 0 {
            GtTransitive(c, s[0], s[j]);
          }
        }
      } else {
        InsertKeepsSorted(s[1..], c);
        var r := InsertSorted(s[1..], c);
        forall x | x in r
          ensures Gt(s[0], x)
        {
          assert x in multiset(r);
          assert x in multiset(s[1..]) || x == c;
          if x != c {
            var j :| 0 <= j < |s[1..]| && s[1..][j] == x;
            assert x == s[j + 1];
          }
        }
      }
    }
  }

  lemma {:induction false} SortSorted(s: seq<Cand>)
    requires DistinctIds(multiset(s))
    ensures Sorted(Sort(s))
  {
    if s != [] {
      var n := |s| - 1;
      var p := s[..n];
      assert s == p + [s[n]];
      SubDistinct(multiset(p), multiset(s));
      SortSorted(p);
      assert multiset(s)[s[n]] == multiset(p)[s[n]] + 1;
      assert s[n] !in multiset(p);
      forall x | x in Sort(p)
        ensures x.id != s[n].id
      {
        assert x in multiset(Sort(p)) && x in multiset(s) && s[n] in multiset(s);
      }
      InsertKeepsSorted(Sort(p), s[n]);
    }
  }

  lemma SubDistinct(a: multiset<Cand>, b: multiset<Cand>)
    requires a <= b && DistinctIds(b)
    ensures DistinctIds(a)
  {
    forall x | x in a
      ensures a[x] == 1
    {
      assert a[x] <= b[x];
    }
  }

  // ------------------------------------------------------- the k greatest

  /** t holds min(k, |m|) candidates of m, and none that is left out is greater than one in t. */
  ghost predicate IsTop(t: multiset<Cand>, m: multiset<Cand>, k: nat) {
    && t <= m && |t| == Min(k, |m|)
    && forall x, y :: x in m - t && y in t ==> Gt(y, x)
  }

  /** The k greatest, in order, are the beginning of the sorted list. */
  lemma TopIsPrefix(t: seq<Cand>, s: seq<Cand>, k: nat)
    requires Sorted(t) && DistinctIds(multiset(s)) && IsTop(multiset(t), multiset(s), k)
    ensures t == Sort(s)[..Min(k, |s|)]
  {
    hide DistinctIds, IsTop, Sorted;
    var rest := Listing(multiset(s) - multiset(t));
    SubDistinct(multiset(rest), multiset(s));
    SortSorted(rest);
    SortSorted(s);
    var r := Sort(rest);
    TopAppend(t, s, k, r);
    SortedUnique(t + r, Sort(s));
    assert (t + r)[..|t|] == t;
  }

  lemma TopAppend(t: seq<Cand>, s: seq<Cand>, k: nat, r: seq<Cand>)
    requires Sorted(t) && Sorted(r) && IsTop(multiset(t), multiset(s), k) && multiset(r) == multiset(s) - multiset(t)
    ensures Sorted(t + r) && multiset(t + r) == multiset(s) && |t| == Min(k, |s|)
  {
    Sizes(t);
    Sizes(s);
    SortedAppend(t, r, multiset(s) - multiset(t));
  }

  lemma Sizes(s: seq<Cand>)
    ensures |multiset(s)| == |s|
  {
  }

  lemma SortedAppend(t: seq<Cand>, r: seq<Cand>, low: multiset<Cand>)
    requires Sorted(t) && Sorted(r) && multiset(r) == low && forall x, y :: x in low && y in multiset(t) ==> Gt(y, x)
    ensures Sorted(t + r)
  {
    var all := t + r;
    forall i, j | 0 <= i < j < |all|
      ensures Gt(all[i], all[j])
    {
      if i < |t| <= j {
        assert all[j] == r[j - |t|] && all[j] in multiset(r);
        assert all[i] == t[i] && all[i] in multiset(t);
      }
    }
  }

  ghost function Listing(m: multiset<Cand>): (s: seq<Cand>)
    ensures multiset(s) == m
  {
    if m == multiset{} then []
    else
      var x :| x in m;
      [x] + Listing(m - multiset{x})
  }

  lemma TopNothing(k: nat)
    ensures IsTop(multiset{}, multiset{}, k)
  {
  }

  /** A candidate more, while there is room. */
  lemma TopGrows(t: multiset<Cand>, m: multiset<Cand>, k: nat, c: Cand)
    requires IsTop(t, m, k) && |t| < k
    ensures IsTop(t + multiset{c}, m + multiset{c}, k)
  {
    assert |m - t| == |m| - |t|;
    assert m - t == multiset{};
    assert t == m;
  }

  /** A candidate that is not greater than the smallest of the k is left out. */
  lemma TopStays(t: multiset<Cand>, m: multiset<Cand>, k: nat, c: Cand, root: Cand)
    requires IsTop(t, m, k) && |t| == k && root in t && !Gt(c, root) && DistinctIds(m + multiset{c})
    requires forall y :: y in t && y != root ==> Gt(y, root)
    ensures IsTop(t, m + multiset{c}, k)
  {
    assert (m + multiset{c}) - t == (m - t) + multiset{c};
    assert (m + multiset{c})[c] == 1;
    assert c !in m;
    forall y | y in t
      ensures Gt(y, c)
    {
      assert y in m + multiset{c};
      if y != root {
        assert Gt(root, c);
        GtTransitive(y, root, c);
      }
    }
  }

  /** A greater candidate takes the place of the smallest of the k. */
  lemma TopSwaps(t: multiset<Cand>, m: multiset<Cand>, k: nat, c: Cand, root: Cand)
    requires IsTop(t, m, k) && |t| == k && root in t && Gt(c, root) && DistinctIds(m + multiset{c})
    requires forall y :: y in t && y != root ==> Gt(y, root)
    ensures IsTop(t - multiset{root} + multiset{c}, m + multiset{c}, k)
  {
    var m2, t2 := m + multiset{c}, t - multiset{root} + multiset{c};
    assert m2[c] == 1 && m2[root] == 1;
    assert c !in m;
    forall x, y | x in m2 - t2 && y in t2
      ensures Gt(y, x)
    {
      assert x == root || x in m - t;
      assert y == c || (y in t && y != root);
      if x != root && y == c {
        GtTransitive(c, root, x);
      }
    }
  }
}
