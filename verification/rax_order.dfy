/**
  Where the keys below a tree node lie in the lexicographic order, and what that
  means for a walk looking for the least or the greatest key of a wanted set.
 */
module RaxOrder {
  import opened Common
  import opened RaxTree
  import opened RaxFocus
  import opened RaxEdits
  import opened LexOrder

  // ------------------------------------------------------------ wanted keys

  /** Key k is the least key of m that is wanted. */
  ghost predicate IsLeast(m: map<Key, Val>, want: iset<Key>, k: Key) {
    k in m && k in want && forall x :: x in m && x in want ==> !Lt(x, k)
  }

  ghost predicate IsGreatest(m: map<Key, Val>, want: iset<Key>, k: Key) {
    k in m && k in want && forall x :: x in m && x in want ==> !Lt(k, x)
  }

  ghost predicate NoneWanted(m: map<Key, Val>, want: iset<Key>) {
    forall x :: x in m ==> x !in want
  }

  /** Wanted are the keys after p. */
  ghost predicate Ahead(m: map<Key, Val>, want: iset<Key>, p: Key) {
    forall x :: x in m ==> (x in want <==> Lt(p, x))
  }

  /** Wanted are p, if it is a key, and the keys after it. */
  ghost predicate AtOrAhead(m: map<Key, Val>, want: iset<Key>, p: Key) {
    forall x :: x in m ==> (x in want <==> !Lt(x, p))
  }

  /** Wanted are the keys beyond all that start with p. */
  ghost predicate Past(m: map<Key, Val>, want: iset<Key>, p: Key) {
    forall x :: x in m ==> (x in want <==> Beyond(x, p))
  }

  /** Wanted are the keys before p. */
  ghost predicate Behind(m: map<Key, Val>, want: iset<Key>, p: Key) {
    forall x :: x in m ==> (x in want <==> Lt(x, p))
  }

  /** Key k is the greatest of the keys that start with p. */
  ghost predicate GreatestUnder(m: map<Key, Val>, p: Key, k: Key) {
    k in m && p <= k && forall x :: x in m && p <= x ==> !Lt(k, x)
  }

  // ------------------------------------------------------- keys under a node

  /** A key found under node s starts with one of its edges, unless it is s itself. */
  lemma EdgeFor(s: Tree, r: Key) returns (i: nat)
    requires NodeWF(s) && Get(s, r).Some? && r != []
    ensures i < |s.kids| && EdgeOf(s, i) <= r
  {
    if s.compr {
      i := 0;
    } else {
      i := EdgeIndex(s.chars, r[0]);
      assert r == [r[0]] + r[1..];
    }
  }

  /** The keys of the map that start with the path to s are those found under s. */
  lemma UnderNode(ctx: seq<Frame>, s: Tree, m: map<Key, Val>, x: Key)
    requires CtxWF(ctx) && Denotes(ctx, s, m) && x in m && Path(ctx) <= x
    ensures x == Path(ctx) + x[|Path(ctx)|..] && Get(s, x[|Path(ctx)|..]).Some?
  {
    assert x == Path(ctx) + x[|Path(ctx)|..];
    DenotesAt(ctx, s, m, x[|Path(ctx)|..]);
  }

  lemma SelfKey(ctx: seq<Frame>, s: Tree, m: map<Key, Val>)
    requires CtxWF(ctx) && Denotes(ctx, s, m)
    ensures Path(ctx) in m <==> s.key.Some?
    ensures s.key.Some? ==> m[Path(ctx)] == s.key.value
  {
    DenotesAt(ctx, s, m, []);
    assert Path(ctx) + [] == Path(ctx);
  }

  // ------------------------------------------------------------ going forward

  /** After a node come the keys from its first child on. */
  lemma IntoFirst(ctx: seq<Frame>, s: Tree, m: map<Key, Val>, want: iset<Key>)
    requires CtxWF(ctx) && NodeWF(s) && Denotes(ctx, s, m) && s.kids != []
    requires Ahead(m, want, Path(ctx))
    ensures AtOrAhead(m, want, Path(ctx) + EdgeOf(s, 0))
  {
    hide Denotes, Get, Path, CtxWF;
    var p := Path(ctx);
    var e := EdgeOf(s, 0);
    forall x | x in m
      ensures Lt(p, x) <==> !Lt(x, p + e)
    {
      LtTrichotomy(x, p + e);
      if p <= x {
        UnderNode(ctx, s, m, x);
        var r := x[|p|..];
        LtExtend(p, r);
        LtPrefix(p, r, e);
        if r != [] {
          FirstEdgeLeast(s, r);
        }
      } else {
        OutsideOrder(x, p, e);
        LtTrichotomy(x, p);
      }
    }
  }

  lemma FirstEdgeLeast(s: Tree, r: Key)
    requires NodeWF(s) && s.kids != [] && Get(s, r).Some? && r != []
    ensures !Lt(r, EdgeOf(s, 0))
  {
    hide Get;
    var i := EdgeFor(s, r);
    var e := EdgeOf(s, 0);
    if i == 0 {
      assert r == e + r[|e|..];
      LtExtend(e, r[|e|..]);
    } else {
      assert r[0] == s.chars[i];
    }
  }

  /** Beyond the keys that start with c come those from the first greater edge on. */
  lemma ToNextSibling(ctx: seq<Frame>, s: Tree, m: map<Key, Val>, want: iset<Key>, c: byte, i: nat)
    requires CtxWF(ctx) && NodeWF(s) && Denotes(ctx, s, m) && !s.compr
    requires i == ChildPos(s.chars, c)
    requires Past(m, want, Path(ctx) + [c])
    ensures if i < |s.chars| then AtOrAhead(m, want, Path(ctx) + [s.chars[i]]) else Past(m, want, Path(ctx))
  {
    hide Denotes, Get, Path, CtxWF;
    var p := Path(ctx);
    forall x | x in m
      ensures Beyond(x, p + [c]) <==> if i < |s.chars| then !Lt(x, p + [s.chars[i]]) else Beyond(x, p)
    {
      if p <= x {
        UnderNode(ctx, s, m, x);
        var r := x[|p|..];
        LtPrefix(p, [c], r);
        PrefixOf(p, [c], r);
        if i < |s.chars| {
          LtPrefix(p, r, [s.chars[i]]);
        }
        if r != [] {
          var j := EdgeFor(s, r);
          assert r[0] == s.chars[j];
        }
      } else {
        OutsideOrder(x, p, [c]);
        PrefixConcat(p, [c], x);
        if i < |s.chars| {
          OutsideOrder(x, p, [s.chars[i]]);
          LtTrichotomy(x, p + [s.chars[i]]);
        }
      }
    }
  }

  lemma PrefixOf(p: Key, a: Key, r: Key)
    ensures p + a <= p + r <==> a <= r
  {
    PrefixConcat(p, a, p + r);
    assert (p + r)[|p|..] == r;
  }

  /** Beyond the only child of a node is beyond the node. */
  lemma PastCompressed(ctx: seq<Frame>, s: Tree, m: map<Key, Val>, want: iset<Key>)
    requires CtxWF(ctx) && NodeWF(s) && Denotes(ctx, s, m) && s.compr
    requires Past(m, want, Path(ctx) + s.chars)
    ensures Past(m, want, Path(ctx))
  {
    hide Denotes, Get, Path, CtxWF;
    var p := Path(ctx);
    forall x | x in m
      ensures Beyond(x, p + s.chars) <==> Beyond(x, p)
    {
      if p <= x {
        UnderNode(ctx, s, m, x);
        var r := x[|p|..];
        LtPrefix(p, s.chars, r);
        PrefixOf(p, s.chars, r);
        if r != [] {
          var j := EdgeFor(s, r);
        }
      } else {
        OutsideOrder(x, p, s.chars);
        PrefixConcat(p, s.chars, x);
      }
    }
  }

  lemma PastLeaf(ctx: seq<Frame>, s: Tree, m: map<Key, Val>, want: iset<Key>)
    requires CtxWF(ctx) && NodeWF(s) && Denotes(ctx, s, m) && s.kids == []
    requires Ahead(m, want, Path(ctx))
    ensures Past(m, want, Path(ctx))
  {
    hide Denotes, Get, Path, CtxWF;
    var p := Path(ctx);
    forall x | x in m
      ensures Lt(p, x) <==> Beyond(x, p)
    {
      if p <= x {
        UnderNode(ctx, s, m, x);
        var r := x[|p|..];
        LtExtend(p, r);
        if r != [] {
          var j := EdgeFor(s, r);
        }
      }
    }
  }

  /** An inline leaf has no keys under it. */
  lemma PastInline(ctx: seq<Frame>, s: Tree, m: map<Key, Val>, want: iset<Key>, i: nat)
    requires CtxWF(ctx) && NodeWF(s) && Denotes(ctx, s, m) && i < |s.kids| && s.kids[i].Leaf?
    requires Ahead(m, want, Path(ctx) + EdgeOf(s, i))
    ensures Past(m, want, Path(ctx) + EdgeOf(s, i))
  {
    hide Denotes, Path, CtxWF;
    var p := Path(ctx);
    var e := EdgeOf(s, i);
    forall x | x in m
      ensures Lt(p + e, x) <==> Beyond(x, p + e)
    {
      PrefixConcat(p, e, x);
      if p + e <= x {
        UnderNode(ctx, s, m, x);
        var r := x[|p|..];
        assert r == e + r[|e|..];
        InlineOnly(s, i, r);
        LtExtend(p + e, []);
        assert p + e + [] == p + e;
      }
    }
  }

  lemma InlineOnly(s: Tree, i: nat, r: Key)
    requires NodeWF(s) && i < |s.kids| && s.kids[i].Leaf? && EdgeOf(s, i) <= r && Get(s, r).Some?
    ensures r == EdgeOf(s, i)
  {
    if !s.compr {
      EdgeIndexSorted(s.chars, i);
    }
    assert r == EdgeOf(s, i) + r[|EdgeOf(s, i)|..];
  }

  lemma LeastHere(m: map<Key, Val>, want: iset<Key>, p: Key)
    requires AtOrAhead(m, want, p)
    ensures p in m ==> IsLeast(m, want, p)
    ensures p !in m ==> Ahead(m, want, p)
  {
    LtTrichotomy(p, p);
    forall x | x in m
      ensures x == p || (Lt(p, x) <==> !Lt(x, p))
    {
      LtTrichotomy(p, x);
    }
  }

  lemma PastEverything(m: map<Key, Val>, want: iset<Key>)
    requires Past(m, want, [])
    ensures NoneWanted(m, want)
  {
  }

  // ----------------------------------------------------------- going backward

  /** Before the keys with byte c come those under the last smaller edge, then the node itself. */
  lemma ToPrevSibling(ctx: seq<Frame>, s: Tree, m: map<Key, Val>, want: iset<Key>, c: byte, j: nat, k: Key)
    requires CtxWF(ctx) && NodeWF(s) && Denotes(ctx, s, m) && !s.compr
    requires j < |s.chars| && s.chars[j] < c && (j + 1 < |s.chars| ==> s.chars[j + 1] >= c)
    requires Behind(m, want, Path(ctx) + [c])
    requires GreatestUnder(m, Path(ctx) + [s.chars[j]], k)
    ensures IsGreatest(m, want, k)
  {
    hide Denotes, Get, Path, CtxWF;
    var p := Path(ctx);
    var b := p + [s.chars[j]];
    assert k == b + k[|b|..];
    PrefixConcat(p, [s.chars[j]], k);
    KeyUnder(p, s.chars[j], k, c);
    forall x | x in m && x in want
      ensures !Lt(k, x)
    {
      LtTrichotomy(k, x);
      if p <= x {
        UnderNode(ctx, s, m, x);
        var r := x[|p|..];
        LtPrefix(p, r, [c]);
        var q := k[|p|..];
        assert k == p + q;
        LtPrefix(p, q, r);
        if r != [] {
          var i := EdgeFor(s, r);
          assert r[0] == s.chars[i] && r[0] < c;
          assert i <= j;
          if i == j {
            assert x == p + ([s.chars[j]] + r[1..]);
            PrefixConcat(p, [s.chars[j]], x);
          }
        }
      } else {
        OutsideOrder(x, p, [c]);
        assert k == p + k[|p|..];
        OutsideOrder(x, p, k[|p|..]);
      }
    }
  }

  lemma KeyUnder(p: Key, b: byte, k: Key, c: byte)
    requires p + [b] <= k && b < c
    ensures Lt(k, p + [c])
  {
    assert k == p + k[|p|..];
    assert k[|p|..][0] == b;
    LtPrefix(p, k[|p|..], [c]);
  }

  lemma NoneBeforeEdge(s: Tree, r: Key, e: Key)
    requires NodeWF(s) && e != [] && Get(s, r).Some? && r != []
    requires if s.compr then e == s.chars else |e| == 1 && forall i :: 0 <= i < |s.chars| ==> s.chars[i] >= e[0]
    ensures !Lt(r, e)
  {
    hide Get;
    var i := EdgeFor(s, r);
    if s.compr {
      assert r == s.chars + r[|s.chars|..];
      LtExtend(s.chars, r[|s.chars|..]);
    } else {
      assert r[0] == s.chars[i];
    }
  }

  /** With no smaller edge, only the node itself and the keys before it are left. */
  lemma ToNodeItself(ctx: seq<Frame>, s: Tree, m: map<Key, Val>, want: iset<Key>, e: Key)
    requires CtxWF(ctx) && NodeWF(s) && Denotes(ctx, s, m) && e != []
    requires if s.compr then e == s.chars else |e| == 1 && forall i :: 0 <= i < |s.chars| ==> s.chars[i] >= e[0]
    requires Behind(m, want, Path(ctx) + e)
    ensures Path(ctx) in m ==> IsGreatest(m, want, Path(ctx))
    ensures Path(ctx) !in m ==> Behind(m, want, Path(ctx))
  {
    hide Denotes, Get, Path, CtxWF;
    var p := Path(ctx);
    LtExtend(p, e);
    forall x | x in m
      ensures Lt(x, p + e) <==> x == p || Lt(x, p)
      ensures Lt(x, p) ==> !Lt(p, x)
    {
      LtTrichotomy(x, p);
      if p <= x {
        UnderNode(ctx, s, m, x);
        var r := x[|p|..];
        LtPrefix(p, r, e);
        LtExtend(p, r);
        if r != [] {
          NoneBeforeEdge(s, r, e);
        }
      } else {
        OutsideOrder(x, p, e);
      }
    }
    LtTrichotomy(p, p);
  }

  lemma BehindNothing(m: map<Key, Val>, want: iset<Key>)
    requires Behind(m, want, [])
    ensures NoneWanted(m, want)
  {
  }

  /** The greatest key under a node is the greatest under its last child. */
  lemma GreatestInLast(ctx: seq<Frame>, s: Tree, m: map<Key, Val>, k: Key)
    requires CtxWF(ctx) && NodeWF(s) && Denotes(ctx, s, m) && s.kids != []
    requires GreatestUnder(m, Path(ctx) + EdgeOf(s, |s.kids| - 1), k)
    ensures GreatestUnder(m, Path(ctx), k)
  {
    hide Denotes, Get, Path, CtxWF;
    var p := Path(ctx);
    var e := EdgeOf(s, |s.kids| - 1);
    PrefixConcat(p, e, k);
    var q := k[|p|..];
    assert k == p + q && q == e + q[|e|..];
    forall x | x in m && p <= x
      ensures !Lt(k, x)
    {
      UnderNode(ctx, s, m, x);
      var r := x[|p|..];
      LtPrefix(p, q, r);
      if r != [] {
        var i := EdgeFor(s, r);
        PrefixConcat(p, e, x);
        assert i < |s.kids| - 1 ==> r[0] == s.chars[i] && q[0] == s.chars[|s.kids| - 1];
      }
    }
  }

  lemma GreatestAtLeaf(ctx: seq<Frame>, s: Tree, m: map<Key, Val>)
    requires CtxWF(ctx) && NodeWF(s) && Denotes(ctx, s, m) && s.kids == [] && s.key.Some?
    ensures GreatestUnder(m, Path(ctx), Path(ctx))
  {
    hide Denotes, Get, Path, CtxWF;
    var p := Path(ctx);
    SelfKey(ctx, s, m);
    LtTrichotomy(p, p);
    forall x | x in m && p <= x
      ensures x == p
    {
      UnderNode(ctx, s, m, x);
      if x[|p|..] != [] {
        var i := EdgeFor(s, x[|p|..]);
      }
    }
  }

  lemma GreatestAtInline(ctx: seq<Frame>, s: Tree, m: map<Key, Val>, i: nat)
    requires CtxWF(ctx) && NodeWF(s) && Denotes(ctx, s, m) && i < |s.kids| && s.kids[i].Leaf?
    ensures var k := Path(ctx) + EdgeOf(s, i);
      GreatestUnder(m, k, k) && m[k] == s.kids[i].v
  {
    hide Denotes, Path, CtxWF;
    var p := Path(ctx);
    var e := EdgeOf(s, i);
    InlineKey(s, i);
    DenotesAt(ctx, s, m, e);
    LtTrichotomy(p + e, p + e);
    forall x | x in m && p + e <= x
      ensures x == p + e
    {
      PrefixConcat(p, e, x);
      UnderNode(ctx, s, m, x);
      InlineOnly(s, i, x[|p|..]);
    }
  }

  lemma InlineKey(s: Tree, i: nat)
    requires NodeWF(s) && i < |s.kids| && s.kids[i].Leaf?
    ensures Get(s, EdgeOf(s, i)) == Some(s.kids[i].v)
  {
    if !s.compr {
      EdgeIndexSorted(s.chars, i);
    }
  }
}
