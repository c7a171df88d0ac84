/** What every allocated node of a valid radix tree looks like. */
module RaxShape {
  import opened RaxTree
  import opened RaxFocus
  import opened Rax

  /** Node a: sorted edges or a compressed string, inline values only where the bitmap has a bit, no dead end. */
  ghost predicate GoodRecord(h: Heap, root: Addr, a: Addr)
    requires a in h
  {
    var n := h[a];
    && (n.iscompr ==> |n.data| >= 2 && |n.slots| == 1)
    && (!n.iscompr ==> |n.slots| == |n.data| && StrictlySorted(n.data))
    && (forall i :: 0 <= i < |n.slots| ==>
          if n.slots[i].Inline? then i < MAX_INLINE else n.slots[i].p in h && n.slots[i].p != root)
    && (a != root ==> n.slots != [] || n.iskey)
  }

  lemma {:induction false} KidHolding(kids: seq<Kid>, a: Addr) returns (i: nat)
    requires a in KidsAddrs(kids)
    ensures i < |kids| && kids[i].Sub? && a in Addrs(kids[i].t)
  {
    if a in KidAddrs(kids[0]) {
      i := 0;
    } else {
      var j := KidHolding(kids[1..], a);
      i := j + 1;
    }
  }

  /** Every address of the tree can be brought into focus. */
  lemma {:induction false} FocusOn(r: Rax, ctx: seq<Frame>, s: Tree, a: Addr) returns (ctx2: seq<Frame>, s2: Tree)
    requires r.Mid(ctx, s) && (ctx != [] ==> Occupied(s)) && a in Addrs(s)
    ensures r.Mid(ctx2, s2) && s2.addr == a && (ctx2 != [] ==> Occupied(s2))
    decreases s
  {
    hide State, CtxWF, KidsAddrs;
    if a == s.addr {
      ctx2, s2 := ctx, s;
    } else {
      var i := KidHolding(s.kids, a);
      r.DescendMid(ctx, s, i);
      ctx2, s2 := FocusOn(r, ctx + [Frame(s, i)], s.kids[i].t, a);
    }
  }

  lemma ChildPointers(r: Rax, ctx: seq<Frame>, s: Tree, i: nat)
    requires r.Mid(ctx, s) && i < |s.kids|
    ensures if s.kids[i].Leaf? then i < MAX_INLINE else s.kids[i].t.addr in r.heap && s.kids[i].t.addr != r.head
  {
    hide State;
    if s.kids[i].Sub? {
      r.DescendMid(ctx, s, i);
      var c := ctx + [Frame(s, i)];
      r.Here(c, s.kids[i].t);
      NotHead(r, c, s.kids[i].t);
    } else {
      SlotBound(r, ctx, s, i);
    }
  }

  lemma SlotBound(r: Rax, ctx: seq<Frame>, s: Tree, i: nat)
    requires r.Mid(ctx, s) && i < |s.kids| && s.kids[i].Leaf?
    ensures i < MAX_INLINE
  {
    hide Rep, CtxRep, CtxAddrs, Denotes;
  }

  lemma NotHead(r: Rax, ctx: seq<Frame>, s: Tree)
    requires r.Mid(ctx, s) && ctx != []
    ensures s.addr != r.head
  {
    hide Rep, CtxRep, CtxAddrs, KidsAddrs, Denotes, WF;
    CtxAddrsMember(ctx, 0);
    assert ctx[0].t.addr in FrameAddrs(ctx[0]) && s.addr in Addrs(s);
    assert multiset(r.heap.Keys)[s.addr] <= 1;
  }

  /** The shape of every node, and the two counters, in any tree the operations can produce. */
  lemma EveryNode(r: Rax)
    requires r.Valid()
    ensures forall a :: a in r.heap ==> GoodRecord(r.heap, r.head, a)
    ensures r.numele == |r.m| && r.numnodes == |r.heap|
  {
    Counted(r);
    forall a | a in r.heap
      ensures GoodRecord(r.heap, r.head, a)
    {
      hide State, NodeRep, CtxWF, NodeWF;
      AllInTree(r, a);
      var ctx, s := FocusOn(r, [], r.tree, a);
      r.Here(ctx, s);
      RecordGood(r, ctx, s);
    }
  }

  lemma Counted(r: Rax)
    requires r.Valid()
    ensures r.numele == |r.m| && r.numnodes == |r.heap| && r.Mid([], r.tree)
  {
  }

  /** Nothing is leaked: an allocated address belongs to the tree. */
  lemma AllInTree(r: Rax, a: Addr)
    requires r.Valid() && a in r.heap
    ensures a in Addrs(r.tree)
  {
    hide Rep, CtxRep, KidsAddrs, Denotes, WF;
    assert CtxAddrs([]) == multiset{};
    assert a in multiset(r.heap.Keys);
  }

  lemma RecordGood(r: Rax, ctx: seq<Frame>, s: Tree)
    requires r.Mid(ctx, s) && (ctx != [] ==> Occupied(s))
    requires s.addr in r.heap && NodeRep(r.heap[s.addr], s) && NodeWF(s)
    ensures GoodRecord(r.heap, r.head, s.addr)
  {
    hide State, CtxWF;
    forall i | 0 <= i < |s.kids|
      ensures if s.kids[i].Leaf? then i < MAX_INLINE else s.kids[i].t.addr in r.heap && s.kids[i].t.addr != r.head
    {
      ChildPointers(r, ctx, s, i);
    }
    if ctx == [] {
      HeadAt(r, s);
    }
  }

  lemma HeadAt(r: Rax, s: Tree)
    requires r.Mid([], s)
    ensures r.head == s.addr
  {
  }
}
