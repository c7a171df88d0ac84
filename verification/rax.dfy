/** The radix tree object: its fields are updated in place, node by node. */
module Rax {
  import opened Common
  import opened RaxTree
  import opened RaxFocus
  import opened RaxEdits
  import opened RaxSearch
  import opened RaxInsertion
  import opened RaxRemoval

  class Rax {
    var heap: Heap
    var head: Addr
    var numele: nat
    var numnodes: nat
    ghost var tree: Tree
    ghost var m: map<Key, Val>

    /** The object is a well-formed radix tree for the finite map m. */
    ghost predicate Valid()
      reads this
    {
      head == tree.addr && State(heap, head, numele, numnodes, m, [], tree)
    }

    /** Like Valid, while working at the place ctx, where sub may be a childless non-key. */
    ghost predicate Mid(ctx: seq<Frame>, sub: Tree)
      reads this
    {
      CtxWF(ctx) && State(heap, head, numele, numnodes, m, ctx, sub)
    }

    /** The record at the focus. */
    lemma Here(ctx: seq<Frame>, sub: Tree)
      requires Mid(ctx, sub)
      ensures sub.addr in heap && NodeRep(heap[sub.addr], sub) && NodeWF(sub)
    {
    }

    lemma Start(ctx: seq<Frame>, sub: Tree)
      requires Mid(ctx, sub) && sub.kids == [] && sub.key == None
      ensures Hollow(heap, head, ctx, sub.addr, m) && CountsMatch(heap, m, numele, numnodes)
      ensures CtxAddrs(ctx) + multiset{sub.addr} == multiset(heap.Keys)
      ensures sub.addr == head <==> ctx == []
      ensures sub.addr in heap
    {
      hide CtxAddrs, CtxRep, Denotes;
      HollowStart(heap, head, ctx, sub, m);
      HeadIffNoContext(heap, head, ctx, sub.addr);
    }

    ghost method Seal(ctx: seq<Frame>, sub: Tree)
      requires Mid(ctx, sub) && (ctx != [] ==> Occupied(sub))
      modifies this`tree
      ensures Valid() && tree == Plug(ctx, sub)
    {
      tree := Plug(ctx, sub);
      CloseUp(heap, head, ctx, sub, multiset{});
      PlugWF(ctx, sub);
    }

    constructor ()
      ensures Valid() && m == map[]
    {
      heap := map[0 := NewNode()];
      head := 0;
      numele := 0;
      numnodes := 1;
      tree := EmptyTree(0);
      m := map[];
      new;
      assert |heap.Keys| == 1 by { assert heap.Keys == {0}; }
    }

    // ------------------------------------------------------------ memory

    method Malloc(n: Node) returns (a: Addr)
      modifies this`heap
      ensures a !in old(heap) && heap == old(heap)[a := n]
      ensures |heap| == |old(heap)| + 1
    {
      assert exists x: Addr :: x !in heap by {
        var x := FreshAddr(heap.Keys);
      }
      a :| a !in heap;
      heap := heap[a := n];
    }

    method Free(a: Addr)
      requires a in heap
      modifies this`heap
      ensures heap == old(heap) - {a} && |heap| == |old(heap)| - 1
    {
      heap := heap - {a};
      assert heap.Keys == old(heap.Keys) - {a};
    }

    /** Resizes a node and gives it new contents; the block may or may not move. */
    method Realloc(a: Addr, n: Node) returns (b: Addr)
      requires a in heap
      modifies this`heap
      ensures b == a || b !in old(heap)
      ensures heap == (old(heap) - {a})[b := n] && |heap| == |old(heap)|
    {
      b :| b == a || b !in heap;
      heap := (heap - {a})[b := n];
      assert heap.Keys == old(heap.Keys) - {a} + {b};
    }

    method StoreLink(link: Link, a: Addr, ghost ctx: seq<Frame>)
      requires link == LinkOf(ctx) && Linkable(heap, ctx)
      modifies this`heap, this`head
      ensures heap == LinkedHeap(old(heap), ctx, a) && head == LinkedRoot(old(head), ctx, a)
      ensures heap.Keys == old(heap.Keys) && |heap| == |old(heap)|
    {
      if link.HeadLink? {
        head := a;
      } else {
        heap := heap[link.p := SetSlot(heap[link.p], link.idx, Child(a))];
        assert heap.Keys == old(heap.Keys);
      }
    }

    // ------------------------------------------------------------ search

    static method FindEdge(data: Key, c: byte) returns (j: nat)
      ensures j == EdgeIndex(data, c)
    {
      j := 0;
      while j < |data|
        invariant j <= |data|
        invariant forall k :: 0 <= k < j ==> data[k] != c
      {
        if data[j] == c {
          break;
        }
        j := j + 1;
      }
    }

    /** Matches the edges of node n against s from position i0 on: the slot to follow, or where it stops. */
    static method MatchEdges(n: Node, s: Key, i0: nat) returns (ok: bool, i: nat, j: nat)
      requires i0 < |s| && |n.data| != 0
      ensures i0 <= i <= |s|
      ensures n.iscompr && ok ==> j == 0 && s[i0..i] == n.data
      ensures n.iscompr && !ok ==> i == i0 + j && j < |n.data| && n.data[..j] == s[i0..i] && (i < |s| ==> n.data[j] != s[i])
      ensures !n.iscompr && ok ==> j < |n.data| && s[i0..i] == [n.data[j]]
      ensures !n.iscompr && !ok ==> i == i0 && j == 0 && s[i0] !in n.data
    {
      i, j, ok := i0, 0, true;
      if n.iscompr {
        while j < |n.data| && i < |s|
          invariant 0 <= j <= |n.data| && i == i0 + j && i <= |s|
          invariant n.data[..j] == s[i0..i]
        {
          if n.data[j] != s[i] {
            break;
          }
          assert n.data[..j + 1] == n.data[..j] + [n.data[j]] && s[i0..i + 1] == s[i0..i] + [s[i]];
          j, i := j + 1, i + 1;
        }
        if j != |n.data| {
          return false, i, j;
        }
        j := 0;
      } else {
        j := FindEdge(n.data, s[i]);
        EdgeIndexAbsent(n.data, s[i]);
        if j == |n.data| {
          return false, i, 0;
        }
        i := i + 1;
      }
    }

    lemma DescendMid(ctx: seq<Frame>, sub: Tree, j: nat)
      requires Mid(ctx, sub) && j < |sub.kids| && sub.kids[j].Sub?
      ensures var c := ctx + [Frame(sub, j)];
        var t := sub.kids[j].t;
        && Mid(c, t) && Occupied(t) && Plug(c, t) == Plug(ctx, sub)
        && Path(c) == Path(ctx) + EdgeOf(sub, j)
        && LinkOf(c) == SlotLink(sub.addr, j) && AddrsOf(c) == AddrsOf(ctx) + [sub.addr]
    {
      hide State, NodeRep;
      StateDescend(heap, head, numele, numnodes, m, ctx, sub, j);
      AddrsOfSnoc(ctx, Frame(sub, j));
    }

    /**
      raxLowWalk: follows s from the head as far as possible; ts is the stack of
      the nodes above the node h where the walk stops.
     */
    method LowWalk(s: Key)
      returns (i: nat, h: Addr, link: Link, j: nat, inl: bool, ts: seq<Addr>, ghost ctx: seq<Frame>, ghost sub: Tree)
      requires Valid()
      ensures Mid(ctx, sub) && Plug(ctx, sub) == tree && (ctx != [] ==> Occupied(sub))
      ensures h == sub.addr && ts == AddrsOf(ctx)
      ensures Stops(s, ctx, sub, i, j, inl, link)
    {
      hide State, WF;
      h, link, i, j, inl, ts := head, HeadLink, 0, 0, false, [];
      ctx, sub := [], tree;
      Here(ctx, sub);
      while |heap[h].data| != 0 && i < |s|
        invariant Mid(ctx, sub) && Plug(ctx, sub) == tree && (ctx != [] ==> Occupied(sub))
        invariant h == sub.addr && h in heap && ts == AddrsOf(ctx) && link == LinkOf(ctx)
        invariant NodeRep(heap[h], sub) && NodeWF(sub)
        invariant !inl && j == 0 && i <= |s| && Path(ctx) == s[..i]
        decreases |s| - i
      {
        ghost var i0 := i;
        var ok;
        ok, i, j := MatchEdges(heap[h], s, i);
        assert s[..i] == s[..i0] + s[i0..i];
        if !ok {
          break;
        }
        if heap[h].slots[j].Inline? {
          inl, link, j := true, SlotLink(h, j), 0;
          break;
        }
        DescendMid(ctx, sub, j);
        ctx, sub := ctx + [Frame(sub, j)], sub.kids[j].t;
        ts, h, link, j := ts + [h], heap[h].slots[j].p, SlotLink(h, j), 0;
        Here(ctx, sub);
      }
    }

    /** raxFind: the value stored for a key, if there is one. */
    method Find(s: Key) returns (r: Option<Val>)
      requires Valid()
      ensures r == Look(m, s)
    {
      var i, h, link, j, inl, ts;
      ghost var ctx, sub;
      i, h, link, j, inl, ts, ctx, sub := LowWalk(s);
      StopsGet(s, ctx, sub, i, j, inl, link, m);
      var n := heap[h];
      if inl && i == |s| {
        return Some(n.slots[link.idx].v);
      }
      if i != |s| || (n.iscompr && j != 0) || !n.iskey {
        return None;
      }
      return Some(GetData(n));
    }

    // --------------------------------------------------------- insertion

    /** The node at the hole is rewritten as n2 for tree s2, and linked again if it moved. */
    method Rewrite(h: Addr, n2: Node, link: Link, ghost ctx: seq<Frame>, ghost s: Tree, ghost spare: multiset<Addr>,
                   ghost s2: Tree, ghost spare2: multiset<Addr>)
      returns (h2: Addr)
      requires Focus(heap, head, ctx, s, spare) && h == s.addr && link == LinkOf(ctx)
      requires NodeRep(n2, s2) && KidsRep(heap, s2.kids)
      requires KidsAddrs(s2.kids) + spare2 == KidsAddrs(s.kids) + spare
      modifies this`heap, this`head
      ensures Focus(heap, head, ctx, s2.(addr := h2), spare2)
      ensures |heap| == |old(heap)|
    {
      h2 := Realloc(h, n2);
      FocusRewrite(old(heap), head, ctx, s, spare, n2, s2.(addr := h2), spare2, heap);
      StoreLink(link, h2, ctx);
    }

    /** Overwrites a value that is stored inline in its parent's slot. */
    method StoreInline(link: Link, data: Val, ghost ctx: seq<Frame>, ghost sub: Tree)
      requires Mid(ctx, sub) && link.SlotLink? && link.p == sub.addr && link.idx < |sub.kids|
      requires sub.kids[link.idx].Leaf? && Path(ctx) + EdgeOf(sub, link.idx) in m
      modifies this`heap, this`m, this`tree
      ensures Valid()
      ensures m == old(m)[Path(ctx) + EdgeOf(sub, link.idx) := data]
    {
      hide CtxRep, FrameWF, Denotes;
      ghost var key := Path(ctx) + EdgeOf(sub, link.idx);
      ghost var s2 := sub.(kids := sub.kids[link.idx := Leaf(data)]);
      ghost var h0 := heap;
      heap := heap[link.p := SetSlot(heap[link.p], link.idx, Inline(data))];
      m := m[key := data];
      assert heap.Keys == h0.Keys;
      LeafUpdate(h0, head, ctx, sub, link.idx, data, heap);
      LeafUpdateDenotes(ctx, sub, link.idx, data, old(m));
      assert m.Keys == old(m).Keys;
      Seal(ctx, s2);
    }

    /** Turns the inline leaf in a slot into a leaf node of its own. */
    method MaterializeInline(link: Link, ghost ctx: seq<Frame>, ghost sub: Tree)
      returns (leaf: Addr, ghost ctx2: seq<Frame>, ghost sub2: Tree)
      requires Mid(ctx, sub) && link.SlotLink? && link.p == sub.addr && link.idx < |sub.kids|
      requires sub.kids[link.idx].Leaf?
      modifies this`heap, this`numnodes
      ensures Mid(ctx2, sub2) && sub2 == LeafTree(leaf, sub.kids[link.idx].v)
      ensures ctx2 != [] && LinkOf(ctx2) == link
      ensures Path(ctx2) == Path(ctx) + EdgeOf(sub, link.idx)
    {
      var v := heap[link.p].slots[link.idx].v;
      leaf := Malloc(SetData(NewNode(), v));
      heap := heap[link.p := SetSlot(heap[link.p], link.idx, Child(leaf))];
      numnodes := numnodes + 1;
      ghost var s2 := sub.(kids := sub.kids[link.idx := Sub(LeafTree(leaf, v))]);
      MaterializeFocus(old(heap), head, ctx, sub, link.idx, leaf, v, heap);
      MaterializeDenotes(ctx, sub, link.idx, leaf, v, m);
      assert heap.Keys == old(heap.Keys) + {leaf};
      DescendMid(ctx, s2, link.idx);
      ctx2, sub2 := ctx + [Frame(s2, link.idx)], LeafTree(leaf, v);
    }

    /** Makes room for a value word in a node, unless the value is NULL. */
    method ReallocForData(h: Addr, data: Val, link: Link, ghost ctx: seq<Frame>, ghost sub: Tree) returns (h2: Addr)
      requires Focus(heap, head, ctx, sub, multiset{}) && h == sub.addr && link == LinkOf(ctx)
      modifies this`heap, this`head
      ensures Focus(heap, head, ctx, sub.(addr := h2), multiset{})
      ensures h2 in heap && heap[h2] == old(heap[h]) && |heap| == |old(heap)|
    {
      h2 := h;
      if data != NULL {
        KidsOfRep(heap, sub);
        h2 := Realloc(h, heap[h]);
        FocusRewrite(old(heap), head, ctx, sub, multiset{}, old(heap[h]), sub.(addr := h2), multiset{}, heap);
        ghost var h1 := heap;
        StoreLink(link, h2, ctx);
        LinkedKeeps(h1, ctx, h2, head, sub.(addr := h2));
      }
      assert sub.(addr := h) == sub;
    }

    /** Stores a value in the node at the hole, which is a key from now on. */
    method SetDataAt(h: Addr, data: Val, ghost ctx: seq<Frame>, ghost sub: Tree, ghost s: Key)
      requires Focus(heap, head, ctx, sub, multiset{}) && WF(sub) && Denotes(ctx, sub, m) && h == sub.addr
      requires Path(ctx) == s && |s| <= NODE_MAX_SIZE
      requires numele == |m| + (if s in m then 0 else 1) && numnodes == |heap|
      requires forall k :: k in m ==> |k| <= NODE_MAX_SIZE
      modifies this`heap, this`m, this`tree
      ensures Valid() && m == old(m)[s := data]
    {
      hide CtxRep, FrameWF, Denotes;
      ghost var s2 := sub.(key := Some(data));
      heap := heap[h := SetData(heap[h], data)];
      m := m[s := data];
      SetDataFocus(old(heap), head, ctx, sub, data, heap);
      SetKeyDenotes(ctx, sub, data, old(m));
      Seal(ctx, s2);
    }

    /** The walk ended exactly at a node: the key is updated, or the node becomes a key. */
    method PutKey(h: Addr, s: Key, data: Val, overwrite: bool, link: Link, ghost ctx: seq<Frame>, ghost sub: Tree)
      returns (inserted: bool, oldv: Option<Val>)
      requires Mid(ctx, sub) && h == sub.addr && link == LinkOf(ctx) && Path(ctx) == s && |s| <= NODE_MAX_SIZE
      modifies this
      ensures Valid() && inserted == (s !in old(m)) && oldv == Look(old(m), s)
      ensures m == if s in old(m) && !overwrite then old(m) else old(m)[s := data]
    {
      hide Rep, CtxRep, Denotes, WF, CtxAddrs, Addrs, NodeWF;
      Here(ctx, sub);
      assert sub.key == Look(m, s) by {
        DenotesAt(ctx, sub, m, []);
        assert Path(ctx) + [] == s;
      }
      var a := h;
      if !heap[h].iskey || (heap[h].isnull && overwrite) {
        a := ReallocForData(h, data, link, ctx, sub);
        MovedDenotes(ctx, sub, a, m);
      }
      ghost var sub1 := sub.(addr := a);
      assert a == h ==> sub1 == sub;
      if heap[a].iskey {
        inserted, oldv := false, Some(GetData(heap[a]));
        if overwrite {
          SetDataAt(a, data, ctx, sub1, s);
        } else {
          Seal(ctx, sub1);
        }
        return;
      }
      numele := numele + 1;
      SetDataAt(a, data, ctx, sub1, s);
      return true, None;
    }

    /** Allocates the nodes that replace compressed node h when it is split at index j. */
    method AllocSplit(h: Addr, j: nat, ghost sub: Tree) returns (split: Addr, ta: Addr, ghost pa: Addr)
      requires Rep(heap, sub) && WF(sub) && h == sub.addr && sub.compr && j < |sub.chars|
      modifies this`heap, this`numnodes
      ensures Extends(old(heap), heap) && SplitNodes(sub, j, ta, split, pa, heap)
      ensures multiset(heap.Keys) == multiset(old(heap).Keys) + NewAddrs(sub, j, ta, split, pa)
      ensures |heap| + old(numnodes) == |old(heap)| + numnodes + 1
    {
      var n := heap[h];
      var postfixlen := |n.data| - j - 1;
      var rest := n.slots[0];
      ta, pa := 0, 0;
      if postfixlen != 0 {
        var postfix := Malloc(PostfixRecord(n, j + 1));
        KeysAdded(old(heap), postfix, heap[postfix]);
        rest, pa := Child(postfix), postfix;
        numnodes := numnodes + 1;
      }
      ghost var h1 := heap;
      split := Malloc(SplitRecord(n, j, rest));
      KeysAdded(h1, split, heap[split]);
      ghost var h2 := heap;
      if j != 0 {
        ta := Malloc(TrimRecord(n, j, split));
        KeysAdded(h2, ta, heap[ta]);
        numnodes := numnodes + 1;
      }
      SplitRecords(n, sub, j, ta, split, pa);
      assert multiset(heap.Keys) == multiset(old(heap).Keys) + NewAddrs(sub, j, ta, split, pa);
    }

    method ReplaceBySplit(h: Addr, j: nat, link: Link, ghost ctx: seq<Frame>, ghost sub: Tree)
      returns (split: Addr, ta: Addr, ghost pa: Addr)
      requires Mid(ctx, sub) && h == sub.addr && link == LinkOf(ctx) && sub.compr && j < |sub.chars|
      modifies this`heap, this`head, this`numnodes
      ensures Mid(ctx, SplitTree(sub, j, ta, split, pa))
    {
      hide Rep, CtxRep, Denotes, FrameWF;
      split, ta, pa := AllocSplit(h, j, sub);
      ghost var t := SplitTree(sub, j, ta, split, pa);
      SplitFocus(old(heap), head, ctx, sub, j, ta, split, pa, heap);
      StoreLink(link, if j == 0 then split else ta, ctx);
      FocusFree(heap, head, ctx, t, multiset{}, h);
      Free(h);
      SplitDenotes(ctx, sub, j, ta, split, pa, m);
    }

    /**
      Splits compressed node h at index j, where the key differs from its string:
      the node that will get the other edge ends up at the hole.
     */
    method SplitMismatch(h: Addr, j: nat, link: Link, ghost ctx: seq<Frame>, ghost sub: Tree)
      returns (split: Addr, link2: Link, ghost ctx2: seq<Frame>, ghost sub2: Tree)
      requires Mid(ctx, sub) && h == sub.addr && link == LinkOf(ctx) && sub.compr && j < |sub.chars|
      modifies this`heap, this`head, this`numnodes
      ensures Mid(ctx2, sub2) && sub2.addr == split && link2 == LinkOf(ctx2)
      ensures !sub2.compr && sub2.chars == [sub.chars[j]]
      ensures Path(ctx2) == Path(ctx) + sub.chars[..j]
    {
      hide Rep, CtxRep, Denotes;
      var ta;
      ghost var pa;
      split, ta, pa := ReplaceBySplit(h, j, link, ctx, sub);
      ghost var t := SplitTree(sub, j, ta, split, pa);
      SplitShape(sub, j, ta, split, pa);
      if j == 0 {
        link2, ctx2, sub2 := link, ctx, t;
      } else {
        DescendMid(ctx, t, 0);
        link2, ctx2, sub2 := SlotLink(ta, 0), ctx + [Frame(t, 0)], t.kids[0].t;
      }
    }

    method ReplaceByCut(h: Addr, j: nat, data: Val, link: Link, ghost ctx: seq<Frame>, ghost sub: Tree)
      returns (ta: Addr, pa: Addr)
      requires Focus(heap, head, ctx, sub, multiset{}) && WF(sub)
      requires h == sub.addr && link == LinkOf(ctx) && sub.compr && 0 < j < |sub.chars|
      modifies this`heap, this`head
      ensures Focus(heap, head, ctx, CutTree(sub, j, data, ta, pa), multiset{})
      ensures |heap| == |old(heap)| + 1
    {
      hide CtxRep, FrameWF;
      var n := heap[h];
      pa := Malloc(SetData(PostfixRecord(n, j), data));
      KeysAdded(old(heap), pa, heap[pa]);
      ghost var h1 := heap;
      ta := Malloc(TrimRecord(n, j, pa));
      KeysAdded(h1, ta, heap[ta]);
      ghost var t := CutTree(sub, j, data, ta, pa);
      CutRecords(n, sub, j, data, ta, pa);
      CutFocus(old(heap), head, ctx, sub, j, data, ta, pa, heap);
      StoreLink(link, ta, ctx);
      FocusFree(heap, head, ctx, t, multiset{}, h);
      Free(h);
    }

    /** The key ends inside compressed node h, after j of its bytes: the node is cut there. */
    method CutInside(h: Addr, j: nat, s: Key, data: Val, link: Link, ghost ctx: seq<Frame>, ghost sub: Tree)
      requires Mid(ctx, sub) && h == sub.addr && link == LinkOf(ctx) && sub.compr && 0 < j < |sub.chars|
      requires s == Path(ctx) + sub.chars[..j] && s !in m && |s| <= NODE_MAX_SIZE
      modifies this
      ensures Valid() && m == old(m)[s := data]
    {
      hide Rep, CtxRep, Denotes;
      var ta, pa := ReplaceByCut(h, j, data, link, ctx, sub);
      numnodes := numnodes + 1;
      numele := numele + 1;
      m := m[s := data];
      CutDenotes(ctx, sub, j, data, ta, pa, old(m));
      Seal(ctx, CutTree(sub, j, data, ta, pa));
    }

    static method FindChildPos(data: Key, c: byte) returns (pos: nat)
      ensures pos == ChildPos(data, c)
    {
      pos := 0;
      while pos < |data|
        invariant pos <= |data|
        invariant forall k :: 0 <= k < pos ==> data[k] <= c
      {
        if data[pos] > c {
          break;
        }
        pos := pos + 1;
      }
      ChildPosUnique(data, c, pos);
    }

    /**
      An inline leaf at index 12 is about to move to index 13, which has no bit in
      the bitmap: it becomes a node first. Returns the record with the new slot.
     */
    method SpillLast(h: Addr, pos: nat, ghost ctx: seq<Frame>, ghost s: Tree, ghost spare: multiset<Addr>)
      returns (n: Node, ghost s1: Tree, ghost spilled: multiset<Addr>)
      requires Focus(heap, head, ctx, s, spare) && WF(s) && h == s.addr
      modifies this`heap, this`numnodes
      ensures Focus(heap, head, ctx, s, spare + spilled)
      ensures NodeRep(n, s1) && KidsRep(heap, s1.kids) && KidsAddrs(s1.kids) == KidsAddrs(s.kids) + spilled
      ensures Extends(old(heap), heap) && numnodes + |old(heap)| == old(numnodes) + |heap|
      ensures Spilled(s, pos, s1)
    {
      n := heap[h];
      KidsOfRep(heap, s);
      if pos <= MAX_INLINE - 1 < |n.slots| && n.slots[MAX_INLINE - 1].Inline? {
        var i, v := MAX_INLINE - 1, n.slots[MAX_INLINE - 1].v;
        var leaf := Malloc(SetData(NewNode(), v));
        numnodes := numnodes + 1;
        n := SetSlot(n, i, Child(leaf));
        s1, spilled := s.(kids := s.kids[i := Sub(LeafTree(leaf, v))]), multiset{leaf};
        FocusMalloc(old(heap), head, ctx, s, spare, leaf, heap[leaf]);
        SpillFacts(old(heap), s, i, v, leaf, heap);
      } else {
        s1, spilled := s, multiset{};
      }
    }

    /** Adds edge c with slot w to the plain node at the hole. */
    method AddChildNoAlloc(h: Addr, c: byte, w: Slot, link: Link, ghost ctx: seq<Frame>, ghost s: Tree, ghost d: Kid)
      returns (h2: Addr, pos: nat, ghost s2: Tree)
      requires Focus(heap, head, ctx, s, KidAddrs(d)) && KidRep(heap, d) && w == SlotOf(d)
      requires WF(s) && !s.compr && c !in s.chars && h == s.addr && link == LinkOf(ctx)
      modifies this`heap, this`head, this`numnodes
      ensures Focus(heap, head, ctx, s2, multiset{}) && s2.addr == h2
      ensures numnodes + |old(heap)| == old(numnodes) + |heap|
      ensures pos == ChildPos(s.chars, c) && Added(s, pos, c, d, s2)
    {
      hide CtxRep, FrameWF, Denotes, Focus, KidsRep, KidRep, WF, KidsAddrs, Rep, Added;
      FocusNode(heap, head, ctx, s, KidAddrs(d));
      PlainShape(s);
      pos := FindChildPos(heap[h].data, c);
      var n;
      ghost var s1, spilled;
      n, s1, spilled := SpillLast(h, pos, ctx, s, KidAddrs(d));
      ghost var t := AddKid(s1, pos, c, d);
      KidsAddrsInsert(s1.kids, pos, d);
      KidFrame(old(heap), heap, d);
      KidsRepInsert(heap, s1.kids, pos, d);
      h2 := Rewrite(h, InsertEdge(n, pos, c, w), link, ctx, s, KidAddrs(d) + spilled, t, multiset{});
      s2 := t.(addr := h2);
      AddedFacts(s, s1, pos, c, d, s2);
    }

    /** A childless node becomes a compressed node whose only child is an inline value. */
    method CompressToLeaf(h: Addr, i: nat, s: Key, data: Val, link: Link, ghost ctx: seq<Frame>, ghost sub: Tree)
      requires Mid(ctx, sub) && h == sub.addr && link == LinkOf(ctx) && sub.kids == []
      requires i + 1 < |s| && Path(ctx) == s[..i] && s !in m && |s| <= NODE_MAX_SIZE
      modifies this
      ensures Valid() && m == old(m)[s := data]
    {
      hide Rep, CtxRep, Denotes;
      Here(ctx, sub);
      var n := heap[h].(iscompr := true, data := s[i..], slots := [Inline(data)]);
      ghost var t := ChainTree(sub, h, s[i..], data);
      SplitAt(s, i);
      OneKid(heap, Leaf(data));
      var h2 := Rewrite(h, n, link, ctx, sub, multiset{}, t, multiset{});
      numele := numele + 1;
      m := m[s := data];
      ChainDenotes(ctx, sub, h2, s[i..], data, old(m));
      assert t.(addr := h2) == ChainTree(sub, h2, s[i..], data);
      Seal(ctx, t.(addr := h2));
    }

    /** The last byte of the key gets an edge to an inline value. */
    method AddInlineLeaf(h: Addr, s: Key, data: Val, link: Link, ghost ctx: seq<Frame>, ghost sub: Tree)
      requires Mid(ctx, sub) && h == sub.addr && link == LinkOf(ctx) && !sub.compr
      requires s != [] && Path(ctx) == s[..|s| - 1] && s !in m && |s| <= NODE_MAX_SIZE
      requires s[|s| - 1] !in sub.chars && ChildPos(sub.chars, s[|s| - 1]) < MAX_INLINE
      modifies this
      ensures Valid() && m == old(m)[s := data]
    {
      hide Rep, CtxRep, Denotes, FrameWF, WF, Addrs, KidsAddrs, CtxAddrs;
      var c := s[|s| - 1];
      assert s == s[..|s| - 1] + [c];
      var h2, pos;
      ghost var s2;
      h2, pos, s2 := AddChildNoAlloc(h, c, Inline(data), link, ctx, sub, Leaf(data));
      numele := numele + 1;
      m := m[s := data];
      AddedLeafDenotes(ctx, sub, pos, c, data, s2, old(m));
      Seal(ctx, s2);
    }

    method AllocChild(ghost ctx: seq<Frame>, ghost sub: Tree) returns (child: Addr)
      requires Focus(heap, head, ctx, sub, multiset{})
      modifies this`heap
      ensures Focus(heap, head, ctx, sub, KidAddrs(Sub(EmptyTree(child)))) && KidRep(heap, Sub(EmptyTree(child)))
      ensures |heap| == |old(heap)| + 1
    {
      child := Malloc(NewNode());
      EmptySpare(old(heap), head, ctx, sub, child);
    }

    /** A new childless node is linked under edge c, and becomes the place to go on from. */
    method AddChild(h: Addr, c: byte, link: Link, ghost ctx: seq<Frame>, ghost sub: Tree)
      returns (child: Addr, link2: Link, ghost ctx2: seq<Frame>)
      requires Mid(ctx, sub) && h == sub.addr && link == LinkOf(ctx) && !sub.compr && c !in sub.chars
      modifies this`heap, this`head, this`numnodes
      ensures Mid(ctx2, EmptyTree(child)) && link2 == LinkOf(ctx2) && Path(ctx2) == Path(ctx) + [c]
    {
      hide Rep, CtxRep, Denotes, WF, FrameWF;
      child := AllocChild(ctx, sub);
      var h2, pos;
      ghost var s2;
      h2, pos, s2 := AddChildNoAlloc(h, c, Child(child), link, ctx, sub, Sub(EmptyTree(child)));
      numnodes := numnodes + 1;
      AddedDescend(heap, head, ctx, sub, pos, c, child, s2, m);
      link2, ctx2 := SlotLink(h2, pos), ctx + [Frame(s2, pos)];
    }

    /** Ends the insertion with an inline value, where the rest of the key allows it. */
    method InsertLast(h: Addr, i: nat, s: Key, data: Val, link: Link, ghost ctx: seq<Frame>, ghost sub: Tree) returns (done: bool)
      requires Mid(ctx, sub) && h == sub.addr && link == LinkOf(ctx) && !sub.compr
      requires i < |s| && Path(ctx) == s[..i] && s[i] !in sub.chars
      requires s !in m && |s| <= NODE_MAX_SIZE
      modifies this
      ensures if done then Valid() && m == old(m)[s := data]
              else unchanged(this) && (|s| - i > 1 ==> sub.kids != []) && (|s| - i == 1 ==> ChildPos(sub.chars, s[i]) >= MAX_INLINE)
    {
      hide Rep, CtxRep, Denotes;
      Here(ctx, sub);
      if |heap[h].data| == 0 && |s| - i > 1 {
        CompressToLeaf(h, i, s, data, link, ctx, sub);
        return true;
      }
      var pos := FindChildPos(heap[h].data, s[i]);
      if |s| - i == 1 && pos < MAX_INLINE {
        assert s[..i] == s[..|s| - 1];
        AddInlineLeaf(h, s, data, link, ctx, sub);
        return true;
      }
      return false;
    }

    /** The walk is over and bytes of the key are left: the missing nodes are inserted. */
    method InsertRest(h0: Addr, i0: nat, s: Key, data: Val, link0: Link, ghost ctx0: seq<Frame>, ghost sub0: Tree)
      requires Mid(ctx0, sub0) && h0 == sub0.addr && link0 == LinkOf(ctx0) && !sub0.compr
      requires i0 < |s| && Path(ctx0) == s[..i0] && s[i0] !in sub0.chars
      requires s !in m && |s| <= NODE_MAX_SIZE
      modifies this
      ensures Valid() && m == old(m)[s := data]
    {
      hide State, Rep, CtxRep, Denotes, WF;
      var h, i, link := h0, i0, link0;
      ghost var ctx, sub := ctx0, sub0;
      while i < |s|
        invariant Mid(ctx, sub) && h == sub.addr && link == LinkOf(ctx) && !sub.compr && m == old(m)
        invariant i <= |s| && Path(ctx) == s[..i]
        invariant if i < |s| then s[i] !in sub.chars else sub == EmptyTree(h)
        decreases |s| - i
      {
        var done := InsertLast(h, i, s, data, link, ctx, sub);
        if done {
          return;
        }
        TakeOneMore(s, i);
        h, link, ctx := AddChild(h, s[i], link, ctx, sub);
        sub := EmptyTree(h);
        i := i + 1;
      }
      assert Path(ctx) == s;
      FinishNode(h, s, data, link, ctx, sub);
    }

    /** The node just added for the last byte of the key receives the value. */
    method FinishNode(h0: Addr, s: Key, data: Val, link: Link, ghost ctx: seq<Frame>, ghost sub: Tree)
      requires Mid(ctx, sub) && h0 == sub.addr && link == LinkOf(ctx)
      requires Path(ctx) == s && s !in m && |s| <= NODE_MAX_SIZE
      modifies this
      ensures Valid() && m == old(m)[s := data]
    {
      hide Rep, CtxRep, Denotes;
      assert sub.key == None by {
        DenotesAt(ctx, sub, m, []);
        assert Path(ctx) + [] == s;
      }
      Here(ctx, sub);
      var h := ReallocForData(h0, data, link, ctx, sub);
      MovedDenotes(ctx, sub, h, m);
      if !heap[h].iskey {
        numele := numele + 1;
      }
      SetDataAt(h, data, ctx, sub.(addr := h), s);
    }

    /**
      raxGenericInsert: sets a key, or leaves it alone when it exists and overwrite
      is off. The result says whether the key is new; oldv is the value it had.
     */
    method GenericInsert(s: Key, data: Val, overwrite: bool) returns (inserted: bool, oldv: Option<Val>)
      requires Valid() && |s| <= NODE_MAX_SIZE
      modifies this
      ensures Valid()
      ensures inserted == (s !in old(m)) && oldv == Look(old(m), s)
      ensures m == if s in old(m) && !overwrite then old(m) else old(m)[s := data]
    {
      var i, h, link, j, inl, ts;
      ghost var ctx, sub;
      i, h, link, j, inl, ts, ctx, sub := LowWalk(s);
      StopsGet(s, ctx, sub, i, j, inl, link, m);
      if i == |s| && inl {
        inserted, oldv := false, Some(heap[h].slots[link.idx].v);
        assert s[..i] == s;
        if overwrite {
          StoreInline(link, data, ctx, sub);
        }
      } else if inl {
        h, ctx, sub := MaterializeInline(link, ctx, sub);
        assert Path(ctx) == s[..i];
        InsertRest(h, i, s, data, link, ctx, sub);
        inserted, oldv := true, None;
      } else {
        StopsPath(s, ctx, sub, i, j, link);
        inserted, oldv := InsertAt(i, h, j, s, data, overwrite, link, ctx, sub);
      }
    }

    /** Insertion at the node where the walk stopped. */
    method InsertAt(i: nat, h0: Addr, j: nat, s: Key, data: Val, overwrite: bool, link0: Link, ghost ctx0: seq<Frame>, ghost sub0: Tree)
      returns (inserted: bool, oldv: Option<Val>)
      requires Mid(ctx0, sub0) && h0 == sub0.addr && link0 == LinkOf(ctx0)
      requires i <= |s| <= NODE_MAX_SIZE && StopsAt(s, ctx0, sub0, i, j)
      requires Look(m, s) == if i == |s| && j == 0 then sub0.key else None
      modifies this
      ensures Valid() && inserted == (s !in old(m)) && oldv == Look(old(m), s)
      ensures m == if s in old(m) && !overwrite then old(m) else old(m)[s := data]
    {
      hide Rep, CtxRep, Denotes;
      Here(ctx0, sub0);
      if i == |s| && (!heap[h0].iscompr || j == 0) {
        assert s[..i] == s;
        inserted, oldv := PutKey(h0, s, data, overwrite, link0, ctx0, sub0);
        return;
      }
      if heap[h0].iscompr && i == |s| {
        assert s == s[..i];
        CutInside(h0, j, s, data, link0, ctx0, sub0);
        return true, None;
      }
      var h, link := h0, link0;
      ghost var ctx, sub := ctx0, sub0;
      if heap[h0].iscompr {
        h, link, ctx, sub := SplitMismatch(h0, j, link0, ctx0, sub0);
      }
      InsertRest(h, i, s, data, link, ctx, sub);
      return true, None;
    }

    // ----------------------------------------------------------- removal

    /** Scans a node's slots for the pointer to a child. */
    static method FindChild(n: Node, child: Addr) returns (i: nat)
      requires exists k :: 0 <= k < |n.slots| && n.slots[k] == Child(child)
      ensures i < |n.slots| && n.slots[i] == Child(child)
      ensures forall k :: 0 <= k < i ==> n.slots[k] != Child(child)
    {
      i := 0;
      while n.slots[i] != Child(child)
        invariant i < |n.slots|
        invariant forall k :: 0 <= k < i ==> n.slots[k] != Child(child)
        decreases |n.slots| - i
      {
        i := i + 1;
      }
    }

    /**
      raxRemoveCleanup: frees node h, which holds nothing any more, and every
      ancestor left without key and children; unlinks the last one freed.
     */
    method RemoveCleanup(h0: Addr, ts0: seq<Addr>, ghost ctx0: seq<Frame>, ghost sub0: Tree)
      returns (h: Addr, ts: seq<Addr>, trycompress: bool, ghost ctx: seq<Frame>, ghost sub: Tree)
      requires Mid(ctx0, sub0) && h0 == sub0.addr && ts0 == AddrsOf(ctx0)
      requires sub0.kids == [] && sub0.key == None
      modifies this`heap, this`numnodes
      ensures Mid(ctx, sub) && h == sub.addr && ts == AddrsOf(ctx) && (ctx != [] ==> Occupied(sub))
      ensures trycompress <==> Chainable(sub)
    {
      hide State, Hollow, FrameWF, NodeHas, CtxAddrs, AddrsOf, KeyOf;
      h, ts, trycompress, ctx, sub := h0, ts0, false, ctx0, sub0;
      Start(ctx, sub);
      if h == head {
        return;
      }
      var child := h;
      while true
        invariant ctx != [] && child == h && child in heap
        invariant Hollow(heap, head, ctx, child, m) && CtxWF(ctx)
        invariant CtxAddrs(ctx) + multiset{child} == multiset(heap.Keys)
        invariant ts == AddrsOf(ctx) && CountsMatch(heap, m, numele, numnodes)
        decreases |ctx|
      {
        HollowFree(heap, head, ctx, child, m);
        Free(child);
        numnodes := numnodes - 1;
        HollowParent(heap, head, ctx, child, m);
        HollowParentHead(heap, head, ctx, child, m);
        h, ts := ts[|ts| - 1], ts[..|ts| - 1];
        if heap[h].iskey || (!heap[h].iscompr && |heap[h].data| != 1) || h == head {
          break;
        }
        HollowUp(heap, head, ctx, child, m);
        ctx := ctx[..|ctx| - 1];
        child := h;
      }
      trycompress, ctx, sub := Unlink(h, child, ctx);
    }

    /** The place where the last freed node was stored is removed from its parent. */
    method Unlink(h: Addr, child: Addr, ghost ctx0: seq<Frame>)
      returns (trycompress: bool, ghost ctx: seq<Frame>, ghost sub: Tree)
      requires Hollow(heap, head, ctx0, child, m) && ctx0 != [] && CtxAddrs(ctx0) == multiset(heap.Keys)
      requires h == ctx0[|ctx0| - 1].t.addr && child !in heap && CountsMatch(heap, m, numele, numnodes)
      requires |ctx0| > 1 ==> !Chainable(ctx0[|ctx0| - 1].t)
      modifies this`heap
      ensures Mid(ctx, sub) && h == sub.addr && ctx == ctx0[..|ctx0| - 1] && (ctx != [] ==> Occupied(sub))
      ensures trycompress <==> Chainable(sub)
    {
      ghost var f := ctx0[|ctx0| - 1];
      ctx, sub := ctx0[..|ctx0| - 1], Without(f.t, f.idx);
      HollowParent(heap, head, ctx0, child, m);
      HollowSlots(heap, head, ctx0, child, m);
      var i := FindChild(heap[h], child);
      heap := heap[h := RemoveChildRecord(heap[h], i)];
      UnlinkHollow(old(heap), head, ctx0, child, m, heap);
      trycompress := |heap[h].data| == 1 && !heap[h].iskey;
      FocusNode(heap, head, ctx, sub, multiset{});
    }

    /** First scan of a chain: how many nodes it has and how long the joined string is. */
    method CountChain(start: Addr, ghost ctx: seq<Frame>, ghost t0: Tree) returns (comprsize: nat, nodes: nat)
      requires Mid(ctx, t0) && Chainable(t0) && start == t0.addr
      ensures nodes == ChainNodes(t0) && comprsize == |ChainChars(t0)|
    {
      hide CtxRep, CtxAddrs, Denotes, Rep, WF;
      ChainFits(ctx, t0, m);
      ghost var t := t0;
      var h := start;
      ChainNode(heap, t);
      comprsize, nodes := |heap[h].data|, 1;
      while |heap[h].data| != 0
        invariant h == t.addr && h in heap && heap[h].data == t.chars && t.chars != []
        invariant Rep(heap, t) && WF(t) && Chainable(t)
        invariant comprsize + |ChainChars(t)| == |t.chars| + |ChainChars(t0)|
        invariant nodes + ChainNodes(t) == 1 + ChainNodes(t0)
        decreases t
      {
        ChainNode(heap, t);
        var n := heap[h];
        var slot := n.slots[if n.iscompr then 0 else |n.data| - 1];
        if slot.Inline? {
          break;
        }
        h := slot.p;
        if heap[h].iskey || (!heap[h].iscompr && |heap[h].data| != 1) {
          break;
        }
        t := t.kids[0].t;
        ChainHead(t);
        ChainNode(heap, t);
        if comprsize + |heap[h].data| > NODE_MAX_SIZE {
          break;
        }
        nodes, comprsize := nodes + 1, comprsize + |heap[h].data|;
      }
    }

    /** One node of the second scan: its string and its slot are kept, the node is freed. */
    method DrainOne(h: Addr, ghost start: Addr, ghost new_: Addr, ghost ctx: seq<Frame>, ghost t: Tree) returns (data: Key, last: Slot)
      requires Draining(heap, head, ctx, start, Sub(t), new_) && WF(t) && Chainable(t) && h == t.addr
      requires numnodes == |heap|
      modifies this`heap, this`numnodes
      ensures |t.kids| == 1 && data == t.chars && last == SlotOf(t.kids[0])
      ensures Draining(heap, head, ctx, start, t.kids[0], new_) && heap == old(heap) - {h}
      ensures numnodes == |heap|
    {
      hide CtxRep, CtxAddrs, Rep, WF, Draining;
      DrainRep(heap, head, ctx, start, t, new_);
      ChainNode(heap, t);
      DrainStep(heap, head, ctx, start, t, new_);
      var n := heap[h];
      data, last := n.data, n.slots[if n.iscompr then 0 else |n.data| - 1];
      Free(h);
      numnodes := numnodes - 1;
    }

    /** Second scan: joins the strings and frees the nodes of the chain. */
    method DrainChain(start: Addr, ghost new_: Addr, ghost ctx: seq<Frame>, ghost t0: Tree) returns (data: Key, last: Slot)
      requires Draining(heap, head, ctx, start, Sub(t0), new_) && WF(t0) && Chainable(t0) && start == t0.addr
      requires numnodes == |heap|
      modifies this`heap, this`numnodes
      ensures data == ChainChars(t0) && last == SlotOf(ChainEnd(t0))
      ensures Draining(heap, head, ctx, start, ChainEnd(t0), new_) && start !in heap
      ensures numnodes == |heap|
    {
      hide CtxRep, CtxAddrs, Rep, WF, Draining, Chainable, NodeRep;
      ghost var t := t0;
      var h := start;
      data := [];
      DrainRep(heap, head, ctx, start, t, new_);
      ChainNode(heap, t);
      last := Child(start);
      while |heap[h].data| != 0
        invariant h == t.addr && h in heap && heap[h].data == t.chars && t.chars != []
        invariant Draining(heap, head, ctx, start, Sub(t), new_) && WF(t) && Chainable(t)
        invariant data + ChainChars(t) == ChainChars(t0) && ChainEnd(t) == ChainEnd(t0)
        invariant t == t0 || start !in heap
        invariant numnodes == |heap|
        decreases t
      {
        var part;
        part, last := DrainOne(h, start, new_, ctx, t);
        data := data + part;
        if last.Inline? {
          break;
        }
        h := last.p;
        DrainNext(heap, head, ctx, start, t, new_);
        if heap[h].iskey || (!heap[h].iscompr && |heap[h].data| != 1) {
          break;
        }
        t := t.kids[0].t;
        ChainHead(t);
      }
    }

    /** Goes up while the parent has no key and a single child; parent is where this stops. */
    method Climb(h0: Addr, ts0: seq<Addr>, ghost ctx0: seq<Frame>, ghost sub0: Tree)
      returns (h: Addr, parent: Option<Addr>, ghost ctx: seq<Frame>, ghost sub: Tree)
      requires Mid(ctx0, sub0) && h0 == sub0.addr && ts0 == AddrsOf(ctx0) && Chainable(sub0)
      ensures Mid(ctx, sub) && h == sub.addr && Chainable(sub)
      ensures if parent == None then ctx == [] else ctx != [] && ctx[|ctx| - 1].t.addr == parent.value
    {
      hide State, AddrsOf, PlugFrame, StopsChain;
      h, ctx, sub := h0, ctx0, sub0;
      var ts := ts0;
      parent := None;
      while |ts| > 0
        invariant Mid(ctx, sub) && h == sub.addr && Chainable(sub) && ts == AddrsOf(ctx)
        decreases |ts|
      {
        AscendMid(ctx, sub);
        var p := ts[|ts| - 1];
        ts := ts[..|ts| - 1];
        if heap[p].iskey || (!heap[p].iscompr && |heap[p].data| != 1) {
          parent := Some(p);
          return;
        }
        ctx, sub := ctx[..|ctx| - 1], PlugFrame(ctx[|ctx| - 1], sub);
        h := p;
      }
    }

    lemma AscendMid(ctx: seq<Frame>, sub: Tree)
      requires Mid(ctx, sub) && Chainable(sub) && ctx != []
      ensures var up := ctx[..|ctx| - 1];
        var s := PlugFrame(ctx[|ctx| - 1], sub);
        && Mid(up, s) && s.addr == ctx[|ctx| - 1].t.addr && s.addr in heap
        && (heap[s.addr].iskey || (!heap[s.addr].iscompr && |heap[s.addr].data| != 1) <==> !Chainable(s))
        && AddrsOf(ctx)[|ctx| - 1] == s.addr && AddrsOf(ctx)[..|ctx| - 1] == AddrsOf(up)
    {
      hide State;
      StateAscend(heap, head, numele, numnodes, m, ctx, sub);
    }

    /** The place where the chain's first node is linked. */
    method ParentLink(parent: Option<Addr>, start: Addr, ghost ctx: seq<Frame>) returns (link: Link)
      requires CtxWF(ctx) && CtxRep(heap, ctx, start) && start !in heap
      requires if parent == None then ctx == [] else ctx != [] && ctx[|ctx| - 1].t.addr == parent.value
      ensures link == LinkOf(ctx)
    {
      hide CtxRep;
      if parent == None {
        return HeadLink;
      }
      SlotsUnique(heap, ctx, start);
      assert heap[parent.value].slots[ctx[|ctx| - 1].idx] == Child(start);
      var i := FindChild(heap[parent.value], start);
      return SlotLink(parent.value, i);
    }

    /** Joins the chain of keyless single-child nodes around h into one compressed node. */
    method Recompress(h0: Addr, ts0: seq<Addr>, ghost ctx0: seq<Frame>, ghost sub0: Tree)
      requires Mid(ctx0, sub0) && h0 == sub0.addr && ts0 == AddrsOf(ctx0) && Chainable(sub0)
      modifies this
      ensures Valid() && m == old(m)
    {
      hide CtxRep, CtxAddrs, Denotes, Rep, WF, AddrsOf;
      var start, parent;
      ghost var ctx, sub;
      start, parent, ctx, sub := Climb(h0, ts0, ctx0, sub0);
      var comprsize, nodes := CountChain(start, ctx, sub);
      if nodes > 1 {
        Join(start, parent, ctx, sub);
      } else {
        Seal(ctx, sub);
      }
    }

    method Join(start: Addr, parent: Option<Addr>, ghost ctx: seq<Frame>, ghost sub: Tree)
      requires Mid(ctx, sub) && start == sub.addr && Chainable(sub) && ChainNodes(sub) > 1
      requires if parent == None then ctx == [] else ctx != [] && ctx[|ctx| - 1].t.addr == parent.value
      modifies this
      ensures Valid() && m == old(m)
    {
      hide CtxRep, CtxAddrs, Denotes, Rep, WF, AddrsOf, Collapsed;
      var new_ := Malloc(Node(false, false, NULL, true, [], []));
      numnodes := numnodes + 1;
      DrainStart(old(heap), head, ctx, sub, new_, heap[new_]);
      var data, last := DrainChain(start, new_, ctx, sub);
      CollapsedFacts(ctx, sub, new_, m, heap, head, data, last);
      var link := ParentLink(parent, start, ctx);
      heap := heap[new_ := Node(false, false, NULL, true, data, [last])];
      StoreLink(link, new_, ctx);
      Seal(ctx, Collapsed(sub, new_));
    }

    /** raxRemove: deletes a key; the result says whether it was there, oldv what it held. */
    method Remove(s: Key) returns (removed: bool, oldv: Option<Val>)
      requires Valid()
      modifies this
      ensures Valid()
      ensures removed == (s in old(m)) && oldv == Look(old(m), s)
      ensures m == old(m) - {s}
    {
      hide State, Stops, WF;
      var i, h, link, j, inl, ts;
      ghost var ctx, sub;
      i, h, link, j, inl, ts, ctx, sub := LowWalk(s);
      Here(ctx, sub);
      StopsHere(s, ctx, sub, i, j, inl, link);
      if i == |s| && inl {
        oldv := Some(heap[h].slots[link.idx].v);
        sub := DropLeaf(h, link.idx, s, ctx, sub);
        Settle(h, ts, ctx, sub);
        return true, oldv;
      }
      if i != |s| || (heap[h].iscompr && j != 0) || !heap[h].iskey {
        assert m - {s} == m;
        return false, None;
      }
      oldv := Some(GetData(heap[h]));
      sub := UnsetKey(h, s, ctx, sub);
      Settle(h, ts, ctx, sub);
      return true, oldv;
    }

    /** What LowWalk's stop position means for the key, in the terms of the object. */
    lemma StopsHere(s: Key, ctx: seq<Frame>, sub: Tree, i: nat, j: nat, inl: bool, link: Link)
      requires Mid(ctx, sub) && Stops(s, ctx, sub, i, j, inl, link)
      ensures i <= |s| && (!inl && sub.compr ==> j < |sub.chars|) && (inl || !sub.compr ==> j == 0)
      ensures !inl ==> link == LinkOf(ctx)
      ensures inl ==> link.SlotLink? && link.idx < |sub.kids| && sub.kids[link.idx].Leaf?
                      && (i == |s| ==> s == Path(ctx) + EdgeOf(sub, link.idx))
      ensures !inl && i == |s| && j == 0 ==> s == Path(ctx)
      ensures Look(m, s) ==
              if inl then (if i == |s| then Some(sub.kids[link.idx].v) else None)
              else if i == |s| && j == 0 then sub.key else None
    {
      StopsGet(s, ctx, sub, i, j, inl, link, m);
      if i == |s| {
        assert s[..i] == s;
      }
    }

    method DropLeaf(h: Addr, idx: nat, s: Key, ghost ctx: seq<Frame>, ghost sub0: Tree) returns (ghost sub: Tree)
      requires Mid(ctx, sub0) && h == sub0.addr && idx < |sub0.kids| && sub0.kids[idx].Leaf?
      requires s == Path(ctx) + EdgeOf(sub0, idx) && s in m
      modifies this`heap, this`numele, this`m
      ensures Mid(ctx, sub) && m == old(m) - {s} && h == sub.addr
    {
      hide CtxRep, CtxAddrs, Denotes;
      DropLeafFocus(heap, head, ctx, sub0, idx, heap[h := RemoveChildRecord(heap[h], idx)]);
      numele := numele - 1;
      heap := heap[h := RemoveChildRecord(heap[h], idx)];
      sub := Without(sub0, idx);
      m := m - {s};
      DropLeafDenotes(ctx, sub0, idx, old(m));
      assert m.Keys == old(m).Keys - {s};
    }

    method UnsetKey(h: Addr, s: Key, ghost ctx: seq<Frame>, ghost sub0: Tree) returns (ghost sub: Tree)
      requires Mid(ctx, sub0) && h == sub0.addr && s == Path(ctx) && s in m
      modifies this`heap, this`numele, this`m
      ensures Mid(ctx, sub) && m == old(m) - {s} && h == sub.addr
    {
      hide CtxRep, CtxAddrs, Denotes;
      UnsetKeyFocus(heap, head, ctx, sub0, heap[h := heap[h].(iskey := false)]);
      heap := heap[h := heap[h].(iskey := false)];
      numele := numele - 1;
      sub := sub0.(key := None);
      m := m - {s};
      UnsetKeyDenotes(ctx, sub0, old(m));
      assert m.Keys == old(m).Keys - {s};
    }

    /** After a deletion at h: free what is useless, then join what can be joined. */
    method Settle(h0: Addr, ts0: seq<Addr>, ghost ctx0: seq<Frame>, ghost sub0: Tree)
      requires Mid(ctx0, sub0) && h0 == sub0.addr && ts0 == AddrsOf(ctx0)
      modifies this
      ensures Valid() && m == old(m)
    {
      hide State, WF;
      var h, ts, trycompress := h0, ts0, false;
      ghost var ctx, sub := ctx0, sub0;
      Here(ctx, sub);
      if |heap[h].data| == 0 && !heap[h].iskey {
        h, ts, trycompress, ctx, sub := RemoveCleanup(h, ts, ctx, sub);
      } else if |heap[h].data| == 1 && !heap[h].iskey {
        trycompress := true;
      }
      if trycompress {
        Recompress(h, ts, ctx, sub);
      } else {
        Seal(ctx, sub);
      }
    }
  }
}
