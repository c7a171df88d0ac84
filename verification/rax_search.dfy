/** Where a search of the tree stops, and what the stop position says about the key. */
module RaxSearch {
  import opened Common
  import opened RaxTree
  import opened RaxFocus
  import opened RaxEdits

  lemma FreshAddr(s: set<Addr>) returns (a: Addr)
    ensures a !in s
    ensures forall x :: x in s ==> x < a
  {
    if s == {} {
      a := 0;
    } else {
      var x :| x in s;
      var b := FreshAddr(s - {x});
      a := if b > x then b else x + 1;
      assert forall y :: y in s ==> y == x || y in s - {x};
    }
  }

  /** The position a search for s stops at, as reported to its callers. */
  ghost predicate Stops(s: Key, ctx: seq<Frame>, sub: Tree, i: nat, j: nat, inl: bool, link: Link)
    requires CtxWF(ctx)
  {
    && i <= |s| && Path(ctx) <= s
    && if inl then
         && j == 0 && link.SlotLink? && link.p == sub.addr && link.idx < |sub.kids| && sub.kids[link.idx].Leaf?
         && (sub.compr || link.idx < |sub.chars|)
         && s[..i] == Path(ctx) + EdgeOf(sub, link.idx)
       else
         && link == LinkOf(ctx)
         && i == |Path(ctx)| + j
         && if sub.compr then
              j < |sub.chars| && sub.chars[..j] == s[|Path(ctx)|..i] && (i < |s| ==> sub.chars[j] != s[i])
            else
              j == 0 && (i < |s| ==> s[i] !in sub.chars)
  }

  /** What a stop position tells about the key that was searched. */
  lemma StopsGet(s: Key, ctx: seq<Frame>, sub: Tree, i: nat, j: nat, inl: bool, link: Link, m: map<Key, Val>)
    requires CtxWF(ctx) && WF(sub) && Denotes(ctx, sub, m) && Stops(s, ctx, sub, i, j, inl, link)
    ensures Look(m, s) ==
            if inl then (if i == |s| then Some(sub.kids[link.idx].v) else None)
            else if i == |s| && j == 0 then sub.key else None
  {
    hide Denotes, WF;
    var r := s[|Path(ctx)|..];
    assert s == Path(ctx) + r;
    DenotesAt(ctx, sub, m, r);
    if inl {
      var e := EdgeOf(sub, link.idx);
      assert s == s[..i] + s[i..];
      assert r == e + s[i..];
      KidGet(sub, link.idx, r);
    } else {
      StopsPlain(sub, r, j);
    }
  }

  lemma StopsPlain(sub: Tree, r: Key, j: nat)
    requires WF(sub) && j <= |r|
    requires if sub.compr then j < |sub.chars| && sub.chars[..j] == r[..j] && (j < |r| ==> sub.chars[j] != r[j])
             else j == 0 && (r != [] ==> r[0] !in sub.chars)
    ensures Get(sub, r) == if r == [] then sub.key else None
  {
    if sub.compr {
      SingleGet(sub, r);
      assert j < |r| ==> sub.chars[j] != r[j];
    } else if r != [] {
      EdgeIndexAbsent(sub.chars, r[0]);
    }
  }

  lemma KidGet(t: Tree, idx: nat, r: Key)
    requires WF(t) && idx < |t.kids| && EdgeOf(t, idx) <= r
    ensures Get(t, r) == GetKid(t.kids[idx], r[|EdgeOf(t, idx)|..])
  {
    if !t.compr {
      EdgeIndexSorted(t.chars, idx);
    }
  }
}
