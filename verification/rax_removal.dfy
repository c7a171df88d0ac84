/** The steps of a removal: unlinking, freeing upwards, and recompressing a chain. */
module RaxRemoval {
  import opened Common
  import opened RaxTree
  import opened RaxFocus
  import opened RaxEdits
  import opened RaxSearch
  import opened RaxInsertion

  // ------------------------------------------------------- taking a key away

  /** The record of a node after its child number idx was removed. */
  function RemoveChildRecord(n: Node, idx: nat): Node
    requires !n.iscompr ==> idx < |n.data| == |n.slots|
  {
    if n.iscompr then
      var bare := n.(isnull := false, iscompr := false, data := [], slots := []);
      if n.iskey then SetData(bare, GetData(n)) else bare
    else DeleteEdge(n, idx)
  }

  ghost function Without(s: Tree, idx: nat): Tree
    requires !s.compr ==> idx < |s.chars| == |s.kids|
  {
    if s.compr then Tree(s.addr, s.key, false, [], []) else DropKid(s, idx)
  }

  lemma WithoutWF(s: Tree, idx: nat)
    requires FrameWF(Frame(s, idx))
    ensures WF(Without(s, idx)) && |Without(s, idx).kids| == |s.kids| - 1
  {
    if !s.compr {
      DropKidWF(s, idx);
    }
  }

  lemma WithoutGet(s: Tree, idx: nat, k: Key)
    requires FrameWF(Frame(s, idx))
    ensures Get(Without(s, idx), k) == if k != [] && EdgeOf(s, idx) <= k then None else Get(s, k)
  {
    if s.compr {
      SingleGet(s, k);
    } else {
      DropKidGet(s, idx, k);
    }
  }

  lemma WithoutRecord(n: Node, s: Tree, idx: nat)
    requires NodeRep(n, s) && FrameOK(Frame(s, idx)) && NodeWF(s)
    ensures NodeRep(RemoveChildRecord(n, idx), Without(s, idx))
  {
  }

  lemma KidsAddrsDelete(kids: seq<Kid>, idx: nat)
    requires idx < |kids|
    ensures KidsAddrs(kids) == KidsAddrs(Delete(kids, idx)) + KidAddrs(kids[idx])
  {
    KidsAddrsAt(kids, idx);
    KidsAddrsConcat(kids[..idx], kids[idx + 1..]);
  }

  lemma KidsRepDelete(h: Heap, kids: seq<Kid>, idx: nat)
    requires idx < |kids| && KidsRep(h, kids)
    ensures KidsRep(h, Delete(kids, idx))
  {
    forall i | 0 <= i < |kids| - 1
      ensures KidRep(h, Delete(kids, idx)[i])
    {
      assert KidRep(h, kids[if i < idx then i else i + 1]);
    }
  }

  /** An inline leaf leaves its node. */
  lemma DropLeafFocus(h: Heap, root: Addr, ctx: seq<Frame>, s: Tree, idx: nat, h1: Heap)
    requires Focus(h, root, ctx, s, multiset{}) && WF(s) && idx < |s.kids| && s.kids[idx].Leaf?
    requires h1 == h[s.addr := RemoveChildRecord(h[s.addr], idx)]
    ensures Focus(h1, root, ctx, Without(s, idx), multiset{}) && WF(Without(s, idx)) && |h1| == |h|
  {
    hide CtxRep, CtxAddrs;
    FocusNode(h, root, ctx, s, multiset{});
    WithoutRecord(h[s.addr], s, idx);
    KidsOfRep(h, s);
    KidsRepDelete(h, s.kids, idx);
    KidsAddrsDelete(s.kids, idx);
    WithoutWF(s, idx);
    InPlace(h, root, ctx, s, multiset{}, h1[s.addr], Without(s, idx), multiset{}, h1);
  }

  lemma DropLeafDenotes(ctx: seq<Frame>, s: Tree, idx: nat, m: map<Key, Val>)
    requires CtxWF(ctx) && Denotes(ctx, s, m) && WF(s) && idx < |s.kids| && s.kids[idx].Leaf?
    ensures Denotes(ctx, Without(s, idx), m - {Path(ctx) + EdgeOf(s, idx)})
  {
    var e := EdgeOf(s, idx);
    var m2 := m - {Path(ctx) + e};
    forall k
      ensures Get(Without(s, idx), k) == if k == e then None else Get(s, k)
    {
      WithoutGet(s, idx, k);
      if k != [] && e <= k {
        KidGet(s, idx, k);
        assert k == e + k[|e|..];
      }
    }
    DenotesPoint(ctx, s, Without(s, idx), m, m2, e);
  }

  lemma UnsetKeyFocus(h: Heap, root: Addr, ctx: seq<Frame>, s: Tree, h1: Heap)
    requires Focus(h, root, ctx, s, multiset{}) && WF(s)
    requires h1 == h[s.addr := h[s.addr].(iskey := false)]
    ensures Focus(h1, root, ctx, s.(key := None), multiset{}) && WF(s.(key := None)) && |h1| == |h|
  {
    hide CtxRep, CtxAddrs, KidsAddrs;
    KidsOfRep(h, s);
    InPlace(h, root, ctx, s, multiset{}, h1[s.addr], s.(key := None), multiset{}, h1);
  }

  lemma UnsetKeyDenotes(ctx: seq<Frame>, s: Tree, m: map<Key, Val>)
    requires CtxWF(ctx) && WF(s) && Denotes(ctx, s, m)
    ensures Denotes(ctx, s.(key := None), m - {Path(ctx)})
  {
    assert Path(ctx) + [] == Path(ctx);
    DenotesPoint(ctx, s, s.(key := None), m, m - {Path(ctx)}, []);
  }

  // ------------------------------------------------------- freeing upwards

  /** No key, and exactly one child. */
  ghost predicate Chainable(t: Tree) {
    t.key == None && |t.kids| == 1
  }

  /**
    The hole's node holds no key any more and is about to be freed, or has been:
    its address is still stored in the parent, but it counts as an empty tree.
   */
  ghost predicate Hollow(h: Heap, root: Addr, ctx: seq<Frame>, a: Addr, m: map<Key, Val>) {
    && CtxWF(ctx) && CtxRep(h, ctx, a) && root == RootAddr(ctx, a)
    && Denotes(ctx, EmptyTree(a), m)
  }

  lemma HollowStart(h: Heap, root: Addr, ctx: seq<Frame>, s: Tree, m: map<Key, Val>)
    requires Focus(h, root, ctx, s, multiset{}) && WF(s) && Denotes(ctx, s, m)
    requires s.kids == [] && s.key == None
    ensures Hollow(h, root, ctx, s.addr, m)
    ensures CtxAddrs(ctx) + multiset{s.addr} == multiset(h.Keys)
  {
    hide CtxRep, CtxAddrs;
    assert s.chars == [];
    assert Addrs(s) == multiset{s.addr};
    DenotesSame(ctx, s, EmptyTree(s.addr), m);
  }

  /** Freeing the hole's node leaves everything else as it was. */
  lemma HollowFree(h: Heap, root: Addr, ctx: seq<Frame>, a: Addr, m: map<Key, Val>)
    requires Hollow(h, root, ctx, a, m) && CtxAddrs(ctx) + multiset{a} == multiset(h.Keys)
    ensures a in h && Hollow(h - {a}, root, ctx, a, m)
    ensures CtxAddrs(ctx) == multiset((h - {a}).Keys)
  {
    hide CtxRep, CtxAddrs, Denotes;
    var h1 := h - {a};
    assert multiset(h.Keys)[a] <= 1;
    assert a in multiset(h.Keys);
    assert h1.Keys == h.Keys - {a};
    assert multiset(h1.Keys) == multiset(h.Keys) - multiset{a};
    CtxRepFrame(h, h1, ctx, a);
  }

  /** A parent without key whose only child is hollow is hollow itself. */
  lemma HollowUp(h: Heap, root: Addr, ctx: seq<Frame>, a: Addr, m: map<Key, Val>)
    requires Hollow(h, root, ctx, a, m) && CtxAddrs(ctx) == multiset(h.Keys)
    requires ctx != [] && Chainable(ctx[|ctx| - 1].t)
    ensures var up := ctx[..|ctx| - 1];
      && CtxWF(up) && Hollow(h, root, up, ctx[|ctx| - 1].t.addr, m)
      && CtxAddrs(up) + multiset{ctx[|ctx| - 1].t.addr} == multiset(h.Keys)
  {
    hide CtxRep;
    var n := |ctx| - 1;
    var f := ctx[n];
    var up := ctx[..n];
    CtxRepSnoc(h, ctx, a);
    assert f.t.kids[..f.idx] == [] && f.t.kids[f.idx + 1..] == [];
    CtxSplit(ctx);
    HollowUpDenotes(ctx, a, m);
  }

  lemma HollowUpDenotes(ctx: seq<Frame>, a: Addr, m: map<Key, Val>)
    requires CtxWF(ctx) && ctx != [] && Chainable(ctx[|ctx| - 1].t)
    requires Denotes(ctx, EmptyTree(a), m)
    ensures var up := ctx[..|ctx| - 1]; CtxWF(up) && Denotes(up, EmptyTree(ctx[|ctx| - 1].t.addr), m)
  {
    var f := ctx[|ctx| - 1];
    var up := ctx[..|ctx| - 1];
    var p := PlugFrame(f, EmptyTree(a));
    assert Denotes(up, p, m);
    forall k
      ensures Get(EmptyTree(f.t.addr), k) == Get(p, k)
    {
      EmptyGet(f.t.addr, k);
      HollowFrameGet(f, a, k);
    }
    DenotesSame(up, p, EmptyTree(f.t.addr), m);
  }

  lemma HollowFrameGet(f: Frame, a: Addr, k: Key)
    requires FrameWF(f) && Chainable(f.t)
    ensures Get(PlugFrame(f, EmptyTree(a)), k) == None
  {
    var p := PlugFrame(f, EmptyTree(a));
    assert Single(p);
    SingleGet(p, k);
    if p.chars <= k {
      EmptyGet(a, k[|p.chars|..]);
    }
  }

  /** The head is the only node with nothing above it. */
  lemma HeadIffNoContext(h: Heap, root: Addr, ctx: seq<Frame>, a: Addr)
    requires CtxWF(ctx) && root == RootAddr(ctx, a)
    requires CtxAddrs(ctx) + multiset{a} == multiset(h.Keys)
    ensures a == root <==> ctx == []
  {
    if ctx != [] {
      CtxAddrsMember(ctx, 0);
      assert multiset(h.Keys)[a] <= 1;
      assert ctx[0].t.addr in FrameAddrs(ctx[0]);
    }
  }

  /** In its parent, the freed child's address is stored in one slot only. */
  lemma DanglingSlot(h: Heap, ctx: seq<Frame>, a: Addr, i: nat)
    requires CtxWF(ctx) && CtxRep(h, ctx, a) && ctx != [] && a !in h
    ensures var f := ctx[|ctx| - 1];
      && f.t.addr in h && |h[f.t.addr].slots| == |f.t.kids| && f.idx < |f.t.kids|
      && (i < |f.t.kids| ==> (h[f.t.addr].slots[i] == Child(a) <==> i == f.idx))
  {
    var f := ctx[|ctx| - 1];
    CtxRepSnoc(h, ctx, a);
    if i < |f.t.kids| && i != f.idx {
      assert KidRep(h, f.t.kids[i]);
    }
  }

  /** The parent of the last freed node loses that child and is the focus again. */
  lemma UnlinkHollow(h: Heap, root: Addr, ctx: seq<Frame>, a: Addr, m: map<Key, Val>, h1: Heap)
    requires Hollow(h, root, ctx, a, m) && CtxAddrs(ctx) == multiset(h.Keys) && ctx != []
    requires var f := ctx[|ctx| - 1];
      f.t.addr in h && NodeHas(h[f.t.addr], f.t) && h1 == h[f.t.addr := RemoveChildRecord(h[f.t.addr], f.idx)]
    ensures var up := ctx[..|ctx| - 1];
      var s := Without(ctx[|ctx| - 1].t, ctx[|ctx| - 1].idx);
      && Focus(h1, root, up, s, multiset{}) && WF(s) && Denotes(up, s, m) && |h1| == |h|
  {
    hide CtxRep, Denotes, CtxAddrs, KidsAddrs, FrameRep, Rep, WF;
    var n := |ctx| - 1;
    var f := ctx[n];
    var up := ctx[..n];
    CtxRepSnoc(h, ctx, a);
    CtxSplit(ctx);
    WithoutWF(f.t, f.idx);
    var s := Without(f.t, f.idx);
    assert h1.Keys == h.Keys;
    assert multiset(h.Keys)[f.t.addr] <= 1 && f.t.addr in FrameAddrs(f);
    assert f.t.addr !in CtxAddrs(up);
    FrameWithout(h, f, a, h1);
    RefocusInPlace(h, root, up, h1, s, multiset{});
    UnlinkDenotes(ctx, a, m);
  }

  ghost predicate NodeHas(n: Node, t: Tree) {
    |n.slots| == |t.kids| && n.data == t.chars && n.iscompr == t.compr
  }

  lemma FrameWithout(h: Heap, f: Frame, a: Addr, h1: Heap)
    requires FrameWF(f) && FrameRep(h, f, a) && NodeHas(h[f.t.addr], f.t)
    requires FrameAddrs(f)[f.t.addr] == 1
    requires h1 == h[f.t.addr := RemoveChildRecord(h[f.t.addr], f.idx)]
    ensures var s := Without(f.t, f.idx); Rep(h1, s) && Addrs(s) == FrameAddrs(f)
  {
    hide Rep, KidsAddrs;
    var s := Without(f.t, f.idx);
    var sibs := Delete(f.t.kids, f.idx);
    KidsAddrsConcat(f.t.kids[..f.idx], f.t.kids[f.idx + 1..]);
    if f.t.compr {
      assert f.t.kids[..f.idx] == [] && f.t.kids[f.idx + 1..] == [] && sibs == [];
    }
    assert s.kids == sibs;
    forall i | 0 <= i < |sibs|
      ensures KidRep(h1, sibs[i])
    {
      var j := if i < f.idx then i else i + 1;
      assert sibs[i] == f.t.kids[j];
      SiblingAddrs(f, j);
      if f.t.kids[j].Sub? {
        assert f.t.addr !in Addrs(f.t.kids[j].t);
        RepFrame(h, h1, f.t.kids[j].t);
      }
    }
    RepFromKids(h1, s);
  }

  lemma UnlinkDenotes(ctx: seq<Frame>, a: Addr, m: map<Key, Val>)
    requires CtxWF(ctx) && ctx != [] && Denotes(ctx, EmptyTree(a), m)
    ensures var f := ctx[|ctx| - 1]; CtxWF(ctx[..|ctx| - 1]) && Denotes(ctx[..|ctx| - 1], Without(f.t, f.idx), m)
  {
    var f := ctx[|ctx| - 1];
    var up := ctx[..|ctx| - 1];
    var p := PlugFrame(f, EmptyTree(a));
    assert Denotes(up, p, m);
    forall k
      ensures Get(Without(f.t, f.idx), k) == Get(p, k)
    {
      WithoutFrameGet(f, a, k);
    }
    DenotesSame(up, p, Without(f.t, f.idx), m);
  }

  lemma WithoutFrameGet(f: Frame, a: Addr, k: Key)
    requires FrameWF(f)
    ensures Get(Without(f.t, f.idx), k) == Get(PlugFrame(f, EmptyTree(a)), k)
  {
    var p := PlugFrame(f, EmptyTree(a));
    var e := EdgeOf(f.t, f.idx);
    PlugFrameWF(f, EmptyTree(a));
    if e <= k {
      FrameGet(f, EmptyTree(a), k);
      EmptyGet(a, k[|e|..]);
    }
    assert Without(p, f.idx) == Without(f.t, f.idx) by {
      assert Delete(p.kids, f.idx) == Delete(f.t.kids, f.idx);
    }
    assert FrameWF(Frame(p, f.idx)) by {
      assert forall i :: 0 <= i < |p.kids| && i != f.idx ==> p.kids[i] == f.t.kids[i];
    }
    WithoutGet(p, f.idx, k);
  }

  // --------------------------------------------------------- recompression

  /** The bytes, the nodes and the end of the chain of keyless single-child nodes from t on. */
  ghost function ChainChars(t: Tree): Key
    requires Chainable(t)
  {
    t.chars + if NextInChain(t) then ChainChars(t.kids[0].t) else []
  }

  ghost predicate NextInChain(t: Tree)
    requires Chainable(t)
  {
    t.kids[0].Sub? && Chainable(t.kids[0].t)
  }

  ghost function ChainEnd(t: Tree): Kid
    requires Chainable(t)
  {
    if NextInChain(t) then ChainEnd(t.kids[0].t) else t.kids[0]
  }

  ghost function ChainNodes(t: Tree): nat
    requires Chainable(t)
  {
    1 + if NextInChain(t) then ChainNodes(t.kids[0].t) else 0
  }

  ghost function Collapsed(t: Tree, a: Addr): Tree
    requires Chainable(t)
  {
    Tree(a, None, true, ChainChars(t), [ChainEnd(t)])
  }

  lemma ChainableIsSingle(t: Tree)
    requires WF(t) && Chainable(t)
    ensures Single(t) && t.chars != []
  {
  }

  /** A chain looks keys up like the single compressed node it collapses into. */
  lemma {:induction false} CollapsedGet(t: Tree, a: Addr, k: Key)
    requires WF(t) && Chainable(t)
    ensures Get(Collapsed(t, a), k) == Get(t, k)
    decreases t
  {
    var c := Collapsed(t, a);
    ChainableIsSingle(t);
    SingleGet(t, k);
    SingleGet(c, k);
    if NextInChain(t) {
      var u := t.kids[0].t;
      PrefixConcat(t.chars, ChainChars(u), k);
      if t.chars <= k {
        var r := k[|t.chars|..];
        CollapsedGet(u, a, r);
        SingleGet(Collapsed(u, a), r);
        ChainableIsSingle(u);
        assert ChainChars(u) <= r ==> r[|ChainChars(u)|..] == k[|c.chars|..];
      }
    }
  }

  lemma {:induction false} CollapsedWF(t: Tree, a: Addr)
    requires WF(t) && Chainable(t) && ChainNodes(t) > 1
    ensures WF(Collapsed(t, a)) && Occupied(Collapsed(t, a))
  {
    ChainEndWF(t);
    ChainableIsSingle(t);
    ChainableIsSingle(t.kids[0].t);
    assert |ChainChars(t.kids[0].t)| >= |t.kids[0].t.chars|;
  }

  lemma {:induction false} ChainEndWF(t: Tree)
    requires WF(t) && Chainable(t)
    ensures KidWF(ChainEnd(t), 0)
    decreases t
  {
    if NextInChain(t) {
      ChainEndWF(t.kids[0].t);
    }
  }

  /** Every well-formed node that is not an empty root leads to a key. */
  lemma {:induction false} SomeKey(t: Tree) returns (k: Key)
    requires WF(t) && Occupied(t)
    ensures Get(t, k).Some?
    decreases t
  {
    if t.key.Some? {
      k := [];
    } else {
      var r: Key := [];
      if t.kids[0].Sub? {
        r := SomeKey(t.kids[0].t);
      }
      k := EdgeOf(t, 0) + r;
      KidGet(t, 0, k);
      assert k[|EdgeOf(t, 0)|..] == r;
    }
  }

  /** With keys of at most NODE_MAX_SIZE bytes, a whole chain fits one node. */
  lemma ChainFits(ctx: seq<Frame>, t: Tree, m: map<Key, Val>)
    requires CtxWF(ctx) && WF(t) && Chainable(t) && Denotes(ctx, t, m)
    requires forall k :: k in m ==> |k| <= NODE_MAX_SIZE
    ensures |ChainChars(t)| <= NODE_MAX_SIZE
  {
    var c := Collapsed(t, t.addr);
    ChainEndWF(t);
    var r: Key := [];
    if ChainEnd(t).Sub? {
      r := SomeKey(ChainEnd(t).t);
    }
    var k := ChainChars(t) + r;
    ChainableIsSingle(t);
    assert c.chars <= k && k[|c.chars|..] == r;
    SingleGet(c, k);
    CollapsedGet(t, t.addr, k);
    DenotesAt(ctx, t, m, k);
    assert Path(ctx) + k in m;
  }

  lemma CollapsedDenotes(ctx: seq<Frame>, t: Tree, a: Addr, m: map<Key, Val>)
    requires CtxWF(ctx) && WF(t) && Chainable(t) && Denotes(ctx, t, m)
    ensures Denotes(ctx, Collapsed(t, a), m)
  {
    forall k
      ensures Get(Collapsed(t, a), k) == Get(t, k)
    {
      CollapsedGet(t, a, k);
    }
    DenotesSame(ctx, t, Collapsed(t, a), m);
  }

  /**
    While the chain is being freed: the context still points at the first node,
    the nodes up to tr are gone, and tr and the new node are all there is besides.
   */
  ghost predicate Draining(h: Heap, root: Addr, ctx: seq<Frame>, a: Addr, d: Kid, new_: Addr) {
    && CtxWF(ctx) && CtxRep(h, ctx, a) && root == RootAddr(ctx, a)
    && KidRep(h, d)
    && CtxAddrs(ctx) + KidAddrs(d) + multiset{new_} == multiset(h.Keys)
  }

  lemma DrainStep(h: Heap, root: Addr, ctx: seq<Frame>, a: Addr, t: Tree, new_: Addr)
    requires Draining(h, root, ctx, a, Sub(t), new_) && |t.kids| == 1
    ensures t.addr in h && NodeRep(h[t.addr], t)
    ensures Draining(h - {t.addr}, root, ctx, a, t.kids[0], new_)
  {
    hide CtxRep, CtxAddrs, Rep, FrameWF;
    RepParts(h, t);
    OneKidAddrs(t);
    var h1 := h - {t.addr};
    var all := multiset(h.Keys);
    assert all == CtxAddrs(ctx) + (multiset{t.addr} + KidAddrs(t.kids[0])) + multiset{new_};
    assert all[t.addr] <= 1;
    assert h1.Keys == h.Keys - {t.addr};
    assert multiset(h1.Keys) == all - multiset{t.addr};
    CtxRepFrame(h, h1, ctx, a);
    if t.kids[0].Sub? {
      RepFrame(h, h1, t.kids[0].t);
    }
  }

  lemma RepParts(h: Heap, t: Tree)
    requires Rep(h, t) && |t.kids| == 1
    ensures t.addr in h && NodeRep(h[t.addr], t) && KidRep(h, t.kids[0])
  {
  }

  /** The new node is filled in and linked where the chain started. */
  lemma DrainEnd(h: Heap, root: Addr, ctx: seq<Frame>, a: Addr, d: Kid, new_: Addr, n: Node, c: Tree)
    requires Draining(h, root, ctx, a, d, new_)
    requires c.addr == new_ && c.kids == [d] && NodeRep(n, c)
    ensures new_ in h
    ensures var h1 := h[new_ := n];
      && Linkable(h1, ctx)
      && Focus(LinkedHeap(h1, ctx, new_), LinkedRoot(root, ctx, new_), ctx, c, multiset{})
  {
    hide CtxRep, CtxAddrs, Rep, FrameWF, KidsAddrs;
    var all := multiset(h.Keys);
    assert all[new_] <= 1 && new_ in all;
    var h1 := h[new_ := n];
    assert h1.Keys == h.Keys;
    OneKidAddrs(c);
    if d.Sub? {
      RepFrame(h, h1, d.t);
    }
    OneKid(h1, d);
    RepFromKids(h1, c);
    Refocus(h, root, ctx, a, h1, c, multiset{});
  }

  lemma DrainStart(h: Heap, root: Addr, ctx: seq<Frame>, t: Tree, new_: Addr, n: Node)
    requires Focus(h, root, ctx, t, multiset{}) && new_ !in h
    ensures Draining(h[new_ := n], root, ctx, t.addr, Sub(t), new_)
  {
    hide CtxRep, CtxAddrs, Rep, FrameWF, KidsAddrs;
    FocusMalloc(h, root, ctx, t, multiset{}, new_, n);
    assert KidAddrs(Sub(t)) == Addrs(t);
  }

  /** The root record and the end of a node with one child. */
  lemma ChainNode(h: Heap, t: Tree)
    requires Rep(h, t) && WF(t) && Chainable(t)
    ensures t.addr in h && h[t.addr].data == t.chars && t.chars != []
    ensures var n := h[t.addr];
      var last := if n.iscompr then 0 else |n.data| - 1;
      last < |n.slots| && n.slots[last] == SlotOf(t.kids[0])
    ensures t.kids[0].Sub? ==> Rep(h, t.kids[0].t) && WF(t.kids[0].t) && StopsChain(h, t.kids[0].t)
  {
    ChainableIsSingle(t);
    if t.kids[0].Sub? {
      assert KidWF(t.kids[0], 0);
    }
  }

  /** What a node's header tells about going on along a chain. */
  ghost predicate StopsChain(h: Heap, t: Tree) {
    t.addr in h && h[t.addr].data == t.chars
    && (h[t.addr].iskey || (!h[t.addr].iscompr && |h[t.addr].data| != 1) <==> !Chainable(t))
  }

  /** The record of the node above a hollow child. */
  lemma HollowParent(h: Heap, root: Addr, ctx: seq<Frame>, a: Addr, m: map<Key, Val>)
    requires Hollow(h, root, ctx, a, m) && ctx != []
    ensures var f := ctx[|ctx| - 1];
      && f.t.addr in h && NodeHas(h[f.t.addr], f.t) && KeyOf(h[f.t.addr]) == f.t.key && FrameWF(f)
      && (h[f.t.addr].iskey || (!h[f.t.addr].iscompr && |h[f.t.addr].data| != 1) <==> !Chainable(f.t))
      && AddrsOf(ctx)[|ctx| - 1] == f.t.addr && AddrsOf(ctx)[..|ctx| - 1] == AddrsOf(ctx[..|ctx| - 1])
  {
    hide Denotes, Rep;
    CtxRepSnoc(h, ctx, a);
  }

  /** Only the head has a context of one frame below it. */
  lemma HollowParentHead(h: Heap, root: Addr, ctx: seq<Frame>, a: Addr, m: map<Key, Val>)
    requires Hollow(h, root, ctx, a, m) && ctx != [] && CtxAddrs(ctx) == multiset(h.Keys)
    ensures ctx[|ctx| - 1].t.addr == root <==> |ctx| == 1
  {
    hide Denotes, CtxRep, KidsAddrs;
    var f := ctx[|ctx| - 1];
    var up := ctx[..|ctx| - 1];
    CtxSplit(ctx);
    if |ctx| > 1 {
      CtxAddrsMember(up, 0);
      assert up[0].t.addr in FrameAddrs(up[0]) && f.t.addr in FrameAddrs(f);
      assert multiset(h.Keys)[root] <= 1;
    }
  }

  lemma HollowSlots(h: Heap, root: Addr, ctx: seq<Frame>, a: Addr, m: map<Key, Val>)
    requires Hollow(h, root, ctx, a, m) && ctx != [] && a !in h
    ensures var f := ctx[|ctx| - 1];
      f.t.addr in h && FrameOK(f) && |h[f.t.addr].slots| == |f.t.kids|
      && forall i :: 0 <= i < |f.t.kids| ==> (h[f.t.addr].slots[i] == Child(a) <==> i == f.idx)
  {
    SlotsUnique(h, ctx, a);
  }

  lemma ChainHead(t: Tree)
    requires Chainable(t)
    ensures |ChainChars(t)| >= |t.chars|
  {
  }

  lemma DrainRep(h: Heap, root: Addr, ctx: seq<Frame>, a: Addr, t: Tree, new_: Addr)
    requires Draining(h, root, ctx, a, Sub(t), new_)
    ensures Rep(h, t)
  {
  }

  lemma DrainNext(h: Heap, root: Addr, ctx: seq<Frame>, a: Addr, t: Tree, new_: Addr)
    requires WF(t) && Chainable(t) && t.kids[0].Sub?
    requires Draining(h, root, ctx, a, t.kids[0], new_)
    ensures StopsChain(h, t.kids[0].t) && WF(t.kids[0].t)
    ensures Chainable(t.kids[0].t) ==> t.kids[0].t.chars != []
  {
    assert KidWF(t.kids[0], 0);
    if Chainable(t.kids[0].t) {
      ChainableIsSingle(t.kids[0].t);
    }
  }

  lemma StateAscend(h: Heap, root: Addr, numele: nat, numnodes: nat, m: map<Key, Val>, ctx: seq<Frame>, s: Tree)
    requires State(h, root, numele, numnodes, m, ctx, s) && ctx != [] && Occupied(s)
    ensures var up := ctx[..|ctx| - 1];
      var p := PlugFrame(ctx[|ctx| - 1], s);
      && CtxWF(up) && State(h, root, numele, numnodes, m, up, p)
      && p.addr == ctx[|ctx| - 1].t.addr && p.addr in h
      && (h[p.addr].iskey || (!h[p.addr].iscompr && |h[p.addr].data| != 1) <==> !Chainable(p))
      && AddrsOf(ctx)[|ctx| - 1] == p.addr && AddrsOf(ctx)[..|ctx| - 1] == AddrsOf(up)
  {
    hide CtxRep, CtxAddrs, KidsAddrs, Rep, Addrs;
    var p := PlugFrame(ctx[|ctx| - 1], s);
    Ascend(h, root, ctx, s, multiset{});
    FocusNode(h, root, ctx[..|ctx| - 1], p, multiset{});
    PlugFrameWF(ctx[|ctx| - 1], s);
  }

  lemma SlotsUnique(h: Heap, ctx: seq<Frame>, a: Addr)
    requires CtxWF(ctx) && CtxRep(h, ctx, a) && ctx != [] && a !in h
    ensures var f := ctx[|ctx| - 1];
      f.t.addr in h && FrameOK(f) && |h[f.t.addr].slots| == |f.t.kids|
      && forall i :: 0 <= i < |f.t.kids| ==> (h[f.t.addr].slots[i] == Child(a) <==> i == f.idx)
  {
    hide Rep, CtxRep;
    var f := ctx[|ctx| - 1];
    DanglingSlot(h, ctx, a, 0);
    var slots := h[f.t.addr].slots;
    forall i | 0 <= i < |slots|
      ensures slots[i] == Child(a) <==> i == f.idx
    {
      DanglingSlot(h, ctx, a, i);
    }
  }

  /** The joined node takes the place of the chain. */
  lemma CollapsedFacts(ctx: seq<Frame>, t: Tree, new_: Addr, m: map<Key, Val>, h: Heap, root: Addr, data: Key, last: Slot)
    requires CtxWF(ctx) && WF(t) && Chainable(t) && ChainNodes(t) > 1 && Denotes(ctx, t, m)
    requires Draining(h, root, ctx, t.addr, ChainEnd(t), new_)
    requires data == ChainChars(t) && last == SlotOf(ChainEnd(t))
    ensures CtxRep(h, ctx, t.addr) && new_ in h
    ensures var c := Collapsed(t, new_);
      var h1 := h[new_ := Node(false, false, NULL, true, data, [last])];
      && Linkable(h1, ctx)
      && Focus(LinkedHeap(h1, ctx, new_), LinkedRoot(root, ctx, new_), ctx, c, multiset{})
      && WF(c) && Occupied(c) && Denotes(ctx, c, m) && |h1| == |h|
  {
    hide CtxRep, CtxAddrs, KidsAddrs, Denotes, WF;
    var c := Collapsed(t, new_);
    CollapsedWF(t, new_);
    CollapsedDenotes(ctx, t, new_, m);
    DrainEnd(h, root, ctx, t.addr, ChainEnd(t), new_, Node(false, false, NULL, true, data, [last]), c);
  }
}
