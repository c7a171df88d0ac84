/** The local tree edits insertion and removal are made of, and what each does to lookups. */
module RaxEdits {
  import opened Common
  import opened RaxTree

  function LeafTree(a: Addr, v: Val): Tree {
    Tree(a, Some(v), false, [], [])
  }

  /** Index where edge c goes in a sorted edge list: before the first greater byte. */
  function ChildPos(chars: Key, c: byte): (pos: nat)
    ensures pos <= |chars|
    ensures pos < |chars| ==> chars[pos] > c
    ensures forall k :: 0 <= k < pos ==> chars[k] <= c
  {
    if chars == [] then 0
    else if chars[0] > c then 0
    else 1 + ChildPos(chars[1..], c)
  }

  lemma ChildPosUnique(data: Key, c: byte, pos: nat)
    requires pos <= |data| && forall k :: 0 <= k < pos ==> data[k] <= c
    requires pos < |data| ==> data[pos] > c
    ensures pos == ChildPos(data, c)
  {
  }

  ghost function AddKid(s: Tree, pos: nat, c: byte, d: Kid): Tree
    requires pos <= |s.chars| == |s.kids|
  {
    s.(chars := Insert(s.chars, pos, c), kids := Insert(s.kids, pos, d))
  }

  ghost function DropKid(s: Tree, pos: nat): Tree
    requires pos < |s.chars| == |s.kids|
  {
    s.(chars := Delete(s.chars, pos), kids := Delete(s.kids, pos))
  }

  /** An inline leaf and a leaf node with the same value are the same to a search. */
  lemma LeafTreeGet(a: Addr, v: Val, k: Key)
    ensures GetKid(Sub(LeafTree(a, v)), k) == GetKid(Leaf(v), k)
  {
  }

  lemma MaterializeGet(s: Tree, i: nat, a: Addr, v: Val, k: Key)
    requires i < |s.kids| && s.kids[i] == Leaf(v)
    ensures Get(s.(kids := s.kids[i := Sub(LeafTree(a, v))]), k) == Get(s, k)
  {
    var s2 := s.(kids := s.kids[i := Sub(LeafTree(a, v))]);
    if k != [] {
      var j := if s.compr then 0 else EdgeIndex(s.chars, k[0]);
      if j == i {
        LeafTreeGet(a, v, if s.compr then (if s.chars <= k then k[|s.chars|..] else []) else k[1..]);
      }
    }
  }

  lemma MaterializeWF(s: Tree, i: nat, a: Addr, v: Val)
    requires WF(s) && i < |s.kids| && s.kids[i] == Leaf(v)
    ensures WF(s.(kids := s.kids[i := Sub(LeafTree(a, v))]))
  {
    assert WF(LeafTree(a, v)) && Occupied(LeafTree(a, v));
  }

  lemma AddKidGet(s: Tree, pos: nat, c: byte, d: Kid, k: Key)
    requires NodeWF(s) && !s.compr
    requires c !in s.chars && pos == ChildPos(s.chars, c)
    ensures Get(AddKid(s, pos, c, d), k) == if k != [] && k[0] == c then GetKid(d, k[1..]) else Get(s, k)
  {
    hide ChildPos, EdgeIndex;
    var t := AddKid(s, pos, c, d);
    if k != [] {
      AddEdge(s.chars, pos, c, k[0]);
      var i := EdgeIndex(s.chars, k[0]);
      EdgeIndexAbsent(s.chars, k[0]);
      if k[0] == c {
        assert t.kids[pos] == d;
      } else if i < |s.chars| {
        assert t.kids[if i < pos then i else i + 1] == s.kids[i];
      }
    }
  }

  lemma AddEdge(chars: Key, pos: nat, c: byte, b: byte)
    requires StrictlySorted(chars) && c !in chars && pos == ChildPos(chars, c)
    ensures var i := EdgeIndex(chars, b);
      EdgeIndex(Insert(chars, pos, c), b) ==
      if b == c then pos else if i < pos then i else i + 1
  {
    hide ChildPos, EdgeIndex;
    var t := Insert(chars, pos, c);
    var i := EdgeIndex(chars, b);
    assert forall j :: 0 <= j < |t| ==> t[j] == if j < pos then chars[j] else if j == pos then c else chars[j - 1];
    if b == c {
      EdgeIndexUnique(t, c, pos);
    } else if i < |chars| {
      EdgeIndexUnique(t, b, if i < pos then i else i + 1);
    } else {
      EdgeIndexAbsent(chars, b);
      EdgeIndexAbsent(t, b);
    }
  }

  lemma EdgeIndexUnique(chars: Key, c: byte, i: nat)
    requires i < |chars| && chars[i] == c
    requires forall j :: 0 <= j < |chars| && j != i ==> chars[j] != c
    ensures EdgeIndex(chars, c) == i
  {
  }

  lemma EdgeIndexAbsent(chars: Key, c: byte)
    ensures c !in chars <==> EdgeIndex(chars, c) == |chars|
  {
  }

  lemma AddKidNodeWF(s: Tree, pos: nat, c: byte, d: Kid)
    requires NodeWF(s) && !s.compr
    requires c !in s.chars && pos == ChildPos(s.chars, c)
    ensures NodeWF(AddKid(s, pos, c, d))
  {
  }

  /** Only the leaf at index 12 would leave the bitmap, and it must be a node by then. */
  lemma AddKidFrameWF(s: Tree, pos: nat, c: byte, d: Kid)
    requires WF(s) && !s.compr
    requires c !in s.chars && pos == ChildPos(s.chars, c)
    requires pos <= MAX_INLINE - 1 < |s.kids| ==> s.kids[MAX_INLINE - 1].Sub?
    ensures FrameWF(Frame(AddKid(s, pos, c, d), pos))
  {
    AddKidNodeWF(s, pos, c, d);
    var t := AddKid(s, pos, c, d);
    forall i | 0 <= i < |t.kids| && i != pos
      ensures KidWF(t.kids[i], i)
    {
      var j := if i < pos then i else i - 1;
      assert t.kids[i] == s.kids[j];
    }
  }

  lemma WFOfFrame(t: Tree, idx: nat)
    requires FrameWF(Frame(t, idx)) && KidWF(t.kids[idx], idx)
    ensures WF(t) && Occupied(t)
  {
    forall i | 0 <= i < |t.kids|
      ensures KidWF(t.kids[i], i)
    {
    }
  }

  lemma DropKidGet(s: Tree, pos: nat, k: Key)
    requires NodeWF(s) && !s.compr && pos < |s.kids|
    ensures Get(DropKid(s, pos), k) == if k != [] && k[0] == s.chars[pos] then None else Get(s, k)
  {
    hide EdgeIndex;
    var t := DropKid(s, pos);
    if k != [] {
      DropEdge(s.chars, pos, k[0]);
      var i := EdgeIndex(s.chars, k[0]);
      EdgeIndexSorted(s.chars, pos);
      if i < |s.chars| && i != pos {
        assert t.kids[if i < pos then i else i - 1] == s.kids[i];
      }
    }
  }

  lemma DropEdge(chars: Key, pos: nat, c: byte)
    requires StrictlySorted(chars) && pos < |chars|
    ensures var i := EdgeIndex(chars, c);
      EdgeIndex(Delete(chars, pos), c) ==
      if i == pos || i == |chars| then |chars| - 1 else if i < pos then i else i - 1
  {
    hide EdgeIndex;
    var i := EdgeIndex(chars, c);
    var d := Delete(chars, pos);
    assert forall j :: 0 <= j < |d| ==> d[j] == chars[if j < pos then j else j + 1];
    if i == pos || i == |chars| {
      EdgeIndexAbsent(d, c);
    } else {
      EdgeIndexUnique(d, c, if i < pos then i else i - 1);
    }
  }

  lemma DropKidWF(s: Tree, pos: nat)
    requires FrameWF(Frame(s, pos)) && !s.compr
    ensures WF(DropKid(s, pos))
  {
    var t := DropKid(s, pos);
    forall i | 0 <= i < |t.kids|
      ensures KidWF(t.kids[i], i)
    {
      var j := if i < pos then i else i + 1;
      assert t.kids[i] == s.kids[j];
    }
  }

  /** A node with one child, compressed or not. */
  ghost predicate Single(t: Tree) {
    |t.kids| == 1 && |t.chars| >= 1 && (t.compr || |t.chars| == 1)
  }

  lemma SingleGet(t: Tree, k: Key)
    requires Single(t)
    ensures Get(t, k) == if k == [] then t.key else if t.chars <= k then GetKid(t.kids[0], k[|t.chars|..]) else None
  {
    if k != [] && !t.compr {
      assert t.chars == [t.chars[0]];
    }
  }

  /** What is left of a compressed node's string and child from index j on. */
  ghost function Rest(chars: Key, j: nat, d: Kid, key: Option<Val>, a: Addr): Kid
    requires j <= |chars|
  {
    if j == |chars| then d
    else Sub(Tree(a, key, |chars| - j > 1, chars[j..], [d]))
  }

  lemma RestGet(chars: Key, j: nat, d: Kid, a: Addr, k: Key)
    requires j <= |chars| && (j == |chars| || k != [])
    ensures GetKid(Rest(chars, j, d, None, a), k) ==
            if chars[j..] <= k then GetKid(d, k[|chars| - j..]) else None
  {
    if j < |chars| {
      SingleGet(Rest(chars, j, d, None, a).t, k);
    }
  }

  ghost function SplitNode(a: Addr, key: Option<Val>, c: byte, d: Kid): Tree {
    Tree(a, key, false, [c], [d])
  }

  /** The tree that replaces compressed node t when its string is split at index j. */
  ghost function SplitTree(t: Tree, j: nat, ta: Addr, sa: Addr, pa: Addr): Tree
    requires t.compr && |t.kids| == 1 && j < |t.chars|
  {
    var rest := Rest(t.chars, j + 1, t.kids[0], None, pa);
    if j == 0 then SplitNode(sa, t.key, t.chars[j], rest)
    else Tree(ta, t.key, j > 1, t.chars[..j], [Sub(SplitNode(sa, None, t.chars[j], rest))])
  }

  lemma SplitTreeGet(t: Tree, j: nat, ta: Addr, sa: Addr, pa: Addr, k: Key)
    requires WF(t) && t.compr && j < |t.chars|
    ensures Get(SplitTree(t, j, ta, sa, pa), k) == Get(t, k)
  {
    var d := t.kids[0];
    var rest := Rest(t.chars, j + 1, d, None, pa);
    SingleGet(t, k);
    if j == 0 {
      var s := SplitNode(sa, t.key, t.chars[0], rest);
      SingleGet(s, k);
      if k != [] {
        SplitNodeGet(t, 0, sa, t.key, pa, k);
      }
    } else {
      var s := SplitNode(sa, None, t.chars[j], rest);
      var tr := SplitTree(t, j, ta, sa, pa);
      SingleGet(tr, k);
      assert t.chars == t.chars[..j] + t.chars[j..];
      PrefixConcat(t.chars[..j], t.chars[j..], k);
      if t.chars[..j] <= k {
        SplitNodeGet(t, j, sa, None, pa, k[j..]);
        assert t.chars <= k ==> k[j..][|t.chars| - j..] == k[|t.chars|..];
      }
    }
  }

  lemma SplitNodeGet(t: Tree, j: nat, sa: Addr, key: Option<Val>, pa: Addr, r: Key)
    requires WF(t) && t.compr && j < |t.chars|
    ensures Get(SplitNode(sa, key, t.chars[j], Rest(t.chars, j + 1, t.kids[0], None, pa)), r) ==
            if r == [] then key
            else if t.chars[j..] <= r then GetKid(t.kids[0], r[|t.chars| - j..]) else None
  {
    var rest := Rest(t.chars, j + 1, t.kids[0], None, pa);
    SingleGet(SplitNode(sa, key, t.chars[j], rest), r);
    if r != [] {
      assert t.chars[j..] == [t.chars[j]] + t.chars[j + 1..];
      PrefixConcat([t.chars[j]], t.chars[j + 1..], r);
      if [t.chars[j]] <= r {
        var q := r[1..];
        if q == [] && j + 1 < |t.chars| {
          assert GetKid(rest, q) == None;
        } else {
          RestGet(t.chars, j + 1, t.kids[0], pa, q);
        }
        assert t.chars[j..] <= r ==> q[|t.chars| - j - 1..] == r[|t.chars| - j..];
      }
    }
  }

  lemma RestWF(t: Tree, j: nat, key: Option<Val>, pa: Addr)
    requires WF(t) && t.compr && j <= |t.chars|
    ensures KidWF(Rest(t.chars, j, t.kids[0], key, pa), 0)
  {
    assert KidWF(t.kids[0], 0);
  }

  lemma SplitNodeWF(t: Tree, j: nat, sa: Addr, key: Option<Val>, pa: Addr)
    requires WF(t) && t.compr && j < |t.chars|
    ensures var s := SplitNode(sa, key, t.chars[j], Rest(t.chars, j + 1, t.kids[0], None, pa));
      WF(s) && Occupied(s)
  {
    RestWF(t, j + 1, None, pa);
  }

  lemma SplitTreeWF(t: Tree, j: nat, ta: Addr, sa: Addr, pa: Addr)
    requires WF(t) && t.compr && j < |t.chars|
    ensures WF(SplitTree(t, j, ta, sa, pa)) && Occupied(SplitTree(t, j, ta, sa, pa))
  {
    SplitNodeWF(t, j, sa, if j == 0 then t.key else None, pa);
  }

  /** The tree for a key that ends inside the string of compressed node t. */
  ghost function CutTree(t: Tree, j: nat, data: Val, ta: Addr, pa: Addr): Tree
    requires t.compr && |t.kids| == 1 && 0 < j < |t.chars|
  {
    Tree(ta, t.key, j > 1, t.chars[..j], [Rest(t.chars, j, t.kids[0], Some(data), pa)])
  }

  lemma CutTreeGet(t: Tree, j: nat, data: Val, ta: Addr, pa: Addr, k: Key)
    requires WF(t) && t.compr && 0 < j < |t.chars|
    ensures Get(CutTree(t, j, data, ta, pa), k) == if k == t.chars[..j] then Some(data) else Get(t, k)
  {
    var c := CutTree(t, j, data, ta, pa);
    SingleGet(t, k);
    SingleGet(c, k);
    assert t.chars == t.chars[..j] + t.chars[j..];
    PrefixConcat(t.chars[..j], t.chars[j..], k);
    if t.chars[..j] <= k {
      var r := k[j..];
      SingleGet(c.kids[0].t, r);
      assert k == t.chars[..j] + r;
      assert t.chars <= k ==> r[|t.chars| - j..] == k[|t.chars|..];
    }
  }

  lemma CutTreeWF(t: Tree, j: nat, data: Val, ta: Addr, pa: Addr)
    requires WF(t) && t.compr && 0 < j < |t.chars|
    ensures WF(CutTree(t, j, data, ta, pa)) && Occupied(CutTree(t, j, data, ta, pa))
  {
    RestWF(t, j, Some(data), pa);
  }

  /** A childless node turned into a compressed node over an inline value. */
  ghost function ChainTree(s: Tree, a: Addr, chars: Key, v: Val): Tree {
    Tree(a, s.key, true, chars, [Leaf(v)])
  }

  lemma ChainTreeGet(s: Tree, a: Addr, chars: Key, v: Val, k: Key)
    requires NodeWF(s) && s.kids == [] && chars != []
    ensures Get(ChainTree(s, a, chars, v), k) == if k == chars then Some(v) else Get(s, k)
  {
    SingleGet(ChainTree(s, a, chars, v), k);
    EdgeIndexAbsent(s.chars, if k == [] then 0 else k[0]);
  }
}
