/** The ordered iterator: it walks the tree with an explicit stack of the nodes above it. */
module RaxIteration {
  import opened Common
  import opened RaxTree
  import opened RaxFocus
  import opened RaxEdits
  import opened RaxSearch
  import opened RaxRemoval
  import opened RaxOrder
  import opened RaxSeek
  import opened Rax

  lemma CutOff(p: Key, e: Key)
    ensures (p + e)[..|p + e| - |e|] == p
  {
  }

  lemma RecordEdge(n: Node, s: Tree, i: nat)
    requires NodeRep(n, s) && NodeWF(s) && i < |s.kids|
    ensures (if n.iscompr then |n.data| else 1) == |EdgeOf(s, i)|
  {
  }

  lemma RecordKey(n: Node, s: Tree)
    requires NodeRep(n, s)
    ensures n.iskey <==> s.key.Some?
    ensures n.iskey ==> s.key == Some(GetData(n))
  {
  }

  lemma NextIndex(chars: Key, i: nat)
    requires StrictlySorted(chars) && i < |chars|
    ensures ChildPos(chars, chars[i]) == i + 1
  {
    var p := ChildPos(chars, chars[i]);
    assert forall k :: 0 <= k <= i ==> chars[k] <= chars[i];
  }

  lemma LastIndex(chars: Key, c: byte)
    requires |chars| == 0 || (|chars| == 1 && c in chars)
    ensures ChildPos(chars, c) == |chars|
  {
  }

  class RaxIterator {
    const rt: Rax
    var justSeeked: bool
    var eof: bool
    /** The iterator is on a value stored in a slot of `node`. */
    var inlineLeaf: bool
    var key: Key
    var data: Val
    var node: Addr
    /** Index of the current node in its parent, or of the inline slot; -1 if unknown. */
    var nodeChild: int
    var stack: seq<Addr>
    ghost var ctx: seq<Frame>
    ghost var sub: Tree
    /** Index of the inline slot the iterator is on, known or not. */
    ghost var leaf: nat

    constructor (rt: Rax)
      requires rt.Valid()
      ensures Valid() && this.rt == rt && eof && !justSeeked
    {
      this.rt := rt;
      justSeeked, eof, inlineLeaf := false, true, false;
      key, data, node, nodeChild, stack := [], NULL, 0, -1, [];
      ctx, sub, leaf := [], EmptyTree(0), 0;
    }

    // ------------------------------------------------------------- positions

    /** The iterator is at a node of the tree, with the nodes above it on the stack. */
    ghost predicate At()
      reads this, rt
    {
      && rt.Valid() && rt.Mid(ctx, sub) && (ctx != [] ==> Occupied(sub))
      && node == sub.addr && node in rt.heap && NodeRep(rt.heap[node], sub) && NodeWF(sub)
      && stack == AddrsOf(ctx)
    }

    ghost predicate OnNode()
      reads this, rt
    {
      && At() && !inlineLeaf && key == Path(ctx)
      && (nodeChild == -1 || (ctx != [] && nodeChild == ctx[|ctx| - 1].idx))
    }

    ghost predicate OnLeaf()
      reads this, rt
    {
      && At() && inlineLeaf && leaf < |sub.kids| && (nodeChild == -1 || nodeChild == leaf)
      && sub.kids[leaf] == Leaf(data) && key == Path(ctx) + EdgeOf(sub, leaf)
    }

    /** The iterator is on a key. */
    ghost predicate Current()
      reads this, rt
    {
      OnLeaf() || (OnNode() && sub.key == Some(data))
    }

    ghost predicate Valid()
      reads this, rt
    {
      rt.Valid() && (eof || Current())
    }

    /** On a key, `key` and `data` are an association of the map. */
    lemma CurrentIsKey()
      requires Current()
      ensures key in rt.m && rt.m[key] == data
    {
      hide Rep, CtxRep, CtxAddrs;
      if OnLeaf() {
        GreatestAtInline(ctx, sub, rt.m, leaf);
      } else {
        SelfKey(ctx, sub, rt.m);
      }
    }

    // ---------------------------------------------------------- elementary steps

    /** raxIteratorEnterChild: one step down into child i. */
    method EnterChild(i: nat)
      requires At() && !inlineLeaf && key == Path(ctx) && i < |sub.kids|
      modifies this
      ensures eof == old(eof) && justSeeked == old(justSeeked)
      ensures key == old(key) + EdgeOf(old(sub), i)
      ensures if old(sub).kids[i].Leaf? then OnLeaf() && ctx == old(ctx) && sub == old(sub) && leaf == i
              else OnNode() && ctx == old(ctx) + [Frame(old(sub), i)] && sub == old(sub).kids[i].t && Occupied(sub)
                   && data == (if sub.key.Some? then sub.key.value else NULL)
    {
      hide State, NodeRep, NodeWF, AddrsOf, Path, CtxWF;
      SlotHere(i);
      var n := rt.heap[node];
      var k := key + if n.iscompr then n.data else [n.data[i]];
      if n.slots[i].Inline? {
        data, nodeChild, inlineLeaf, key := n.slots[i].v, i, true, k;
        leaf := i;
      } else {
        EnterNode(i, n.slots[i].p, k);
      }
    }

    method EnterNode(i: nat, p: Addr, k: Key)
      requires At() && !inlineLeaf && key == Path(ctx) && i < |sub.kids|
      requires SlotOf(sub.kids[i]) == Child(p) && (sub.compr || i < |sub.chars|) && k == key + EdgeOf(sub, i)
      modifies this
      ensures eof == old(eof) && justSeeked == old(justSeeked) && key == k
      ensures OnNode() && ctx == old(ctx) + [Frame(old(sub), i)] && sub == old(sub).kids[i].t && Occupied(sub)
      ensures data == (if sub.key.Some? then sub.key.value else NULL)
    {
      hide State, NodeRep, NodeWF, AddrsOf, Path, CtxWF;
      rt.DescendMid(ctx, sub, i);
      ghost var c := ctx + [Frame(sub, i)];
      ghost var t := sub.kids[i].t;
      rt.Here(c, t);
      var d := if rt.heap[p].iskey then GetData(rt.heap[p]) else NULL;
      RecordKey(rt.heap[p], t);
      stack, node, nodeChild, data, key := stack + [node], p, i, d, k;
      ctx, sub := c, t;
    }

    lemma SlotHere(i: nat)
      requires At() && i < |sub.kids|
      ensures node in rt.heap && i < |rt.heap[node].slots| && rt.heap[node].slots[i] == SlotOf(sub.kids[i])
      ensures !rt.heap[node].iscompr ==> i < |rt.heap[node].data|
      ensures sub.compr || i < |sub.chars|
      ensures (if rt.heap[node].iscompr then rt.heap[node].data else [rt.heap[node].data[i]]) == EdgeOf(sub, i)
    {
      hide State;
    }

    /** Back to the parent: the edge that was taken is cut off the key. */
    method Pop() returns (ghost e: Key, ghost i: nat)
      requires At() && !inlineLeaf && key == Path(ctx) && ctx != []
      modifies this
      ensures At() && !inlineLeaf && key == Path(ctx) && nodeChild == -1
      ensures eof == old(eof) && justSeeked == old(justSeeked) && |ctx| == |old(ctx)| - 1
      ensures i < |sub.kids| && e == EdgeOf(sub, i) && Path(ctx) + e == old(Path(ctx)) && i == old(ctx)[|ctx|].idx
    {
      hide State, NodeRep, NodeWF, AddrsOf, Path, CtxWF, PlugFrame, Occupied;
      i := ctx[|ctx| - 1].idx;
      PopFacts();
      ghost var c := ctx[..|ctx| - 1];
      ghost var t := PlugFrame(ctx[|ctx| - 1], sub);
      e := EdgeOf(t, i);
      var p := stack[|stack| - 1];
      RecordEdge(rt.heap[p], t, i);
      var todel := if rt.heap[p].iscompr then |rt.heap[p].data| else 1;
      CutOff(Path(c), e);
      node, stack, nodeChild, key := p, stack[..|stack| - 1], -1, key[..|key| - todel];
      ctx, sub := c, t;
    }

    lemma PopFacts()
      requires At() && ctx != []
      ensures FrameOK(ctx[|ctx| - 1])
      ensures var up := ctx[..|ctx| - 1];
        var f := ctx[|ctx| - 1];
        var s := PlugFrame(f, sub);
        && rt.Mid(up, s) && Occupied(s) && s.addr in rt.heap && NodeRep(rt.heap[s.addr], s) && NodeWF(s)
        && AddrsOf(ctx)[|ctx| - 1] == s.addr && AddrsOf(ctx)[..|ctx| - 1] == AddrsOf(up)
        && f.idx < |s.kids| && (s.compr || f.idx < |s.chars|) && Path(ctx) == Path(up) + EdgeOf(s, f.idx)
    {
      hide State, NodeRep;
      StateAscend(rt.heap, rt.head, rt.numele, rt.numnodes, rt.m, ctx, sub);
      rt.Here(ctx[..|ctx| - 1], PlugFrame(ctx[|ctx| - 1], sub));
    }

    // ---------------------------------------------------------------- forward

    /** "Go deeper": always into the first child, until a key is met. */
    method GoDeeper(ghost want: iset<Key>)
      requires OnNode() && sub.kids != [] && Ahead(rt.m, want, key)
      modifies this
      ensures eof == old(eof) && justSeeked == old(justSeeked)
      ensures Current() && IsLeast(rt.m, want, key)
    {
      hide State, Denotes, Ahead, AtOrAhead, IsLeast, NodeRep;
      while true
        invariant OnNode() && sub.kids != [] && Ahead(rt.m, want, key)
        invariant eof == old(eof) && justSeeked == old(justSeeked)
        decreases sub
      {
        MapHere();
        IntoFirst(ctx, sub, rt.m, want);
        EnterChild(0);
        MapHere();
        LeastHere(rt.m, want, key);
        if inlineLeaf {
          CurrentIsKey();
          return;
        }
        SelfKey(ctx, sub, rt.m);
        KeyHere();
        if rt.heap[node].iskey {
          return;
        }
      }
    }

    /** The tree below the iterator's node stands for the part of the map under its path. */
    lemma MapHere()
      requires At()
      ensures Denotes(ctx, sub, rt.m) && CtxWF(ctx) && NodeWF(sub)
    {
      hide Rep, CtxRep, CtxAddrs;
    }

    lemma KeyHere()
      requires At()
      ensures node in rt.heap && (rt.heap[node].iskey <==> sub.key.Some?)
      ensures sub.key.Some? ==> GetData(rt.heap[node]) == sub.key.value
      ensures |rt.heap[node].slots| == |sub.kids| && rt.heap[node].data == sub.chars && rt.heap[node].iscompr == sub.compr
    {
      hide State;
    }

    /** The head is the only node with nothing above it. */
    lemma HeadHere()
      requires At()
      ensures node == rt.head <==> ctx == []
    {
      hide Rep, CtxRep, CtxAddrs, KidsAddrs, Denotes, WF;
      if ctx != [] {
        CtxAddrsMember(ctx, 0);
        assert ctx[0].t.addr in FrameAddrs(ctx[0]) && node in Addrs(sub);
        assert multiset(rt.heap.Keys)[node] <= 1;
      }
    }

    /** Edge e of the current node was just left; idx is its index, or -1. */
    ghost predicate LeftEdge(e: Key, idx: int)
      reads this
    {
      && e != []
      && (if sub.compr then e == sub.chars else |e| == 1)
      && (idx == -1 || (0 <= idx < |sub.kids| && (sub.compr || (idx < |sub.chars| && e == [sub.chars[idx]]))))
    }

    /** Tries the first child with a greater byte than the edge just left. */
    method NextSibling(oldNoup: bool, prevchild: byte, prevchildidx: int, ghost e: Key, ghost want: iset<Key>)
      returns (entered: bool)
      requires At() && !inlineLeaf && key == Path(ctx) && LeftEdge(e, prevchildidx) && prevchild == e[|e| - 1]
      requires !oldNoup && !sub.compr ==> prevchild in sub.chars
      requires Past(rt.m, want, key + e)
      modifies this
      ensures eof == old(eof) && justSeeked == old(justSeeked)
      ensures entered ==> Entered() && AtOrAhead(rt.m, want, key)
      ensures !entered ==> unchanged(this) && Past(rt.m, want, key)
    {
      hide State, NodeRep, AddrsOf, Path, CtxWF, Past, AtOrAhead, ChildPos, StrictlySorted;
      MapHere();
      KeyHere();
      if rt.heap[node].iscompr {
        PastCompressed(ctx, sub, rt.m, want);
        return false;
      }
      assert e == [prevchild];
      ToNextSibling(ctx, sub, rt.m, want, prevchild, ChildPos(sub.chars, prevchild));
      if |rt.heap[node].data| > (if oldNoup then 0 else 1) {
        var i;
        if prevchildidx != -1 {
          i := prevchildidx + 1;
          NextIndex(sub.chars, prevchildidx);
        } else {
          i := Rax.FindChildPos(rt.heap[node].data, prevchild);
        }
        if i != |rt.heap[node].data| {
          EnterChild(i);
          return true;
        }
      } else {
        LastIndex(sub.chars, prevchild);
      }
      return false;
    }

    /** The state after stepping into a child: a value in a slot, or a node that holds or leads to a key. */
    ghost predicate Entered()
      reads this, rt
    {
      OnLeaf() || (OnNode() && Occupied(sub) && data == (if sub.key.Some? then sub.key.value else NULL))
    }

    /** To the node whose next child is to be tried: the parent, or with noup the current node. */
    method StepBack(noup: bool, ghost e0: Key) returns (prevchild: byte, prevchildidx: int, ghost e: Key)
      requires At() && !inlineLeaf
      requires if noup then key == Path(ctx) + e0 && LeftEdge(e0, nodeChild) else OnNode() && ctx != []
      modifies this
      ensures eof == old(eof) && justSeeked == old(justSeeked)
      ensures At() && !inlineLeaf && key == Path(ctx) && LeftEdge(e, prevchildidx) && prevchild == e[|e| - 1]
      ensures key + e == old(key) && (!noup && !sub.compr ==> prevchild in sub.chars)
      ensures if noup then |ctx| == |old(ctx)| else |ctx| == |old(ctx)| - 1 && nodeChild == -1
    {
      hide State, NodeRep, AddrsOf, CtxWF, Path;
      prevchildidx := nodeChild;
      if noup {
        prevchild := key[|key| - 1];
        CutKey(e0);
        e := e0;
      } else {
        ghost var i;
        prevchild := LastByte();
        e, i := Pop();
      }
    }

    /** "Go upper" until a node has a further child; false when there is none up to the head. */
    method UpNext(noup0: bool, ghost e0: Key, ghost want: iset<Key>) returns (found: bool)
      requires At() && !inlineLeaf && Past(rt.m, want, key)
      requires if noup0 then key == Path(ctx) + e0 && LeftEdge(e0, nodeChild) else OnNode()
      modifies this
      ensures eof == old(eof) && justSeeked == old(justSeeked)
      ensures found ==> Entered() && AtOrAhead(rt.m, want, key)
      ensures !found ==> rt.Valid() && NoneWanted(rt.m, want)
    {
      hide State, NodeRep, AddrsOf, CtxWF, Past, AtOrAhead, NoneWanted;
      var noup := noup0;
      while true
        invariant At() && !inlineLeaf && Past(rt.m, want, key)
        invariant if noup then key == Path(ctx) + e0 && LeftEdge(e0, nodeChild) else OnNode()
        invariant eof == old(eof) && justSeeked == old(justSeeked)
        decreases |ctx| + if noup then 1 else 0
      {
        var oldNoup := noup;
        HeadHere();
        if !noup && node == rt.head {
          PastEverything(rt.m, want);
          return false;
        }
        var prevchild, prevchildidx;
        ghost var e;
        prevchild, prevchildidx, e := StepBack(noup, e0);
        noup := false;
        var entered := NextSibling(oldNoup, prevchild, prevchildidx, e, want);
        if entered {
          return true;
        }
        if oldNoup {
          nodeChild := -1;
        }
      }
    }

    /** The last byte of the key, when the current node is not the head. */
    method LastByte() returns (b: byte)
      requires At() && !inlineLeaf && key == Path(ctx) && ctx != []
      ensures key != [] && b == key[|key| - 1]
    {
      hide State, NodeRep;
      PopFacts();
      b := key[|key| - 1];
    }

    /** Cuts the edge that was just left off the key, without moving. */
    method CutKey(ghost e: Key)
      requires At() && !inlineLeaf && key == Path(ctx) + e && LeftEdge(e, nodeChild)
      modifies this`key
      ensures At() && key == Path(ctx)
    {
      hide State, NodeRep, AddrsOf, Path, CtxWF;
      KeyHere();
      var todel := if rt.heap[node].iscompr then |rt.heap[node].data| else 1;
      CutOff(Path(ctx), e);
      key := key[..|key| - todel];
    }

    /** The keys wanted by a forward step are those after the position. */
    ghost predicate ForwardFrom(noup: bool, e: Key, want: iset<Key>)
      reads this, rt
    {
      if inlineLeaf then OnLeaf() && Ahead(rt.m, want, key)
      else if noup then At() && key == Path(ctx) + e && LeftEdge(e, nodeChild) && Past(rt.m, want, key)
      else OnNode() && Ahead(rt.m, want, key)
    }

    /**
      raxIteratorNextStep, past its checks of the flags: moves to the least wanted
      key, or sets EOF and stays where it is when there is none.
     */
    method NextStep(noup0: bool, ghost e0: Key, ghost want: iset<Key>)
      requires !eof && !justSeeked && ForwardFrom(noup0, e0, want)
      modifies this
      ensures Valid() && !justSeeked
      ensures if eof then NoneWanted(rt.m, want) && key == old(key) && data == old(data)
              else Current() && IsLeast(rt.m, want, key)
    {
      hide State, Denotes, Ahead, AtOrAhead, Past, IsLeast, NoneWanted, NodeRep, CtxWF, AddrsOf, Path;
      var origKey, origStack, origNode, origData, origNodeChild, origInline := key, stack, node, data, nodeChild, inlineLeaf;
      ghost var origCtx, origSub := ctx, sub;
      var noup := noup0;
      ghost var e := e0;
      if inlineLeaf {
        e := LeaveLeaf(want);
        noup := true;
      }
      KeyHere();
      if !noup && |rt.heap[node].data| != 0 {
        ChildrenHere();
        GoDeeper(want);
        return;
      }
      if !noup {
        ChildrenHere();
        MapHere();
        PastLeaf(ctx, sub, rt.m, want);
      }
      var found := UpNext(noup, e, want);
      if !found {
        key, stack, node, data, nodeChild := origKey, origStack, origNode, origData, origNodeChild;
        inlineLeaf, eof, ctx, sub := origInline, true, origCtx, origSub;
        return;
      }
      Arrive(want);
      if inlineLeaf {
        return;
      }
      KeyHere();
      if rt.heap[node].iskey {
        return;
      }
      GoDeeper(want);
    }

    lemma ChildrenHere()
      requires At()
      ensures node in rt.heap && (sub.kids == [] <==> |rt.heap[node].data| == 0)
    {
      hide State;
    }

    /** Stepping off an inline leaf: its slot counts as the edge just left. */
    method LeaveLeaf(ghost want: iset<Key>) returns (ghost e: Key)
      requires OnLeaf()
      modifies this`inlineLeaf
      ensures At() && !inlineLeaf && key == Path(ctx) + e && LeftEdge(e, nodeChild)
      ensures e == EdgeOf(sub, leaf) && leaf < |sub.kids|
      ensures Ahead(rt.m, want, key) ==> Past(rt.m, want, key)
    {
      hide State, NodeRep, CtxWF, AddrsOf, Path, Past, Ahead;
      MapHere();
      e := EdgeOf(sub, leaf);
      inlineLeaf := false;
      if Ahead(rt.m, want, key) {
        PastInline(ctx, sub, rt.m, want, leaf);
      }
    }

    /** At a child just entered: it is the wanted key, or the wanted keys lie below it. */
    lemma Arrive(want: iset<Key>)
      requires Entered() && AtOrAhead(rt.m, want, key)
      ensures inlineLeaf ==> OnLeaf() && Current() && IsLeast(rt.m, want, key)
      ensures !inlineLeaf ==> OnNode() && if sub.key.Some? then Current() && IsLeast(rt.m, want, key)
                                          else sub.kids != [] && Ahead(rt.m, want, key)
    {
      hide State, NodeRep, CtxWF, AddrsOf, Path, AtOrAhead, Ahead, IsLeast;
      LeastHere(rt.m, want, key);
      if inlineLeaf {
        CurrentIsKey();
      } else {
        MapHere();
        SelfKey(ctx, sub, rt.m);
      }
    }

    /** raxNext: false at the end; otherwise the iterator is on the next key. */
    method Next() returns (r: bool)
      requires Valid()
      modifies this
      ensures Valid() && r == !eof
      ensures if old(eof) then eof else !justSeeked
      ensures !old(eof) && old(justSeeked) ==> !eof && key == old(key) && data == old(data)
      ensures !old(eof) && !old(justSeeked) ==>
                if eof then NoneWanted(rt.m, Wanted(Greater, old(key)))
                else IsLeast(rt.m, Wanted(Greater, old(key)), key)
      ensures !eof ==> key in rt.m && rt.m[key] == data
    {
      hide State, Denotes, IsLeast, NoneWanted, NodeRep, CtxWF, AddrsOf, Path;
      if eof {
        return false;
      }
      if justSeeked {
        justSeeked := false;
        CurrentIsKey();
        return true;
      }
      NextStep(false, [], Wanted(Greater, key));
      if !eof {
        CurrentIsKey();
      }
      return !eof;
    }

    // --------------------------------------------------------------- backward

    /** raxSeekGreatest: always into the last child, down to the greatest key under the node. */
    method SeekGreatest()
      requires OnNode() && Occupied(sub)
      modifies this
      ensures eof == old(eof) && justSeeked == old(justSeeked)
      ensures OnLeaf() || (OnNode() && sub.key.Some?)
      ensures GreatestUnder(rt.m, old(key), key)
    {
      hide State, Denotes, GreatestUnder, NodeRep, CtxWF, AddrsOf, Path, NodeWF;
      ghost var p := key;
      ChildrenHere();
      while |rt.heap[node].data| != 0
        invariant OnNode() && Occupied(sub) && node in rt.heap
        invariant |rt.heap[node].data| == 0 <==> sub.kids == []
        invariant eof == old(eof) && justSeeked == old(justSeeked)
        invariant forall k :: GreatestUnder(rt.m, key, k) ==> GreatestUnder(rt.m, p, k)
        decreases sub
      {
        KeyHere();
        LastHere();
        var lastidx := if rt.heap[node].iscompr then 0 else |rt.heap[node].data| - 1;
        EnterChild(lastidx);
        if inlineLeaf {
          MapHere();
          GreatestAtInline(ctx, sub, rt.m, leaf);
          return;
        }
        ChildrenHere();
      }
      MapHere();
      GreatestAtLeaf(ctx, sub, rt.m);
    }

    /** The greatest key under a node lies under its last child. */
    lemma LastHere()
      requires At() && sub.kids != []
      ensures |sub.kids| == if sub.compr then 1 else |sub.chars|
      ensures forall k :: GreatestUnder(rt.m, Path(ctx) + EdgeOf(sub, |sub.kids| - 1), k) ==> GreatestUnder(rt.m, Path(ctx), k)
    {
      hide State, Denotes, GreatestUnder, NodeRep, CtxWF, AddrsOf, Path;
      MapHere();
      forall k | GreatestUnder(rt.m, Path(ctx) + EdgeOf(sub, |sub.kids| - 1), k)
        ensures GreatestUnder(rt.m, Path(ctx), k)
      {
        GreatestInLast(ctx, sub, rt.m, k);
      }
    }

    static method FindLastBelow(data: Key, c: byte) returns (i: int)
      ensures -1 <= i < |data| && (i >= 0 ==> data[i] < c)
      ensures forall k :: i < k < |data| ==> data[k] >= c
    {
      i := |data| - 1;
      while i >= 0
        invariant -1 <= i < |data|
        invariant forall k :: i < k < |data| ==> data[k] >= c
      {
        if data[i] < c {
          break;
        }
        i := i - 1;
      }
    }

    /** Tries the last child with a smaller byte than the edge just left, down to its greatest key. */
    method PrevSibling(oldNoup: bool, prevchild: byte, prevchildidx: int, ghost e: Key, ghost want: iset<Key>)
      returns (entered: bool)
      requires At() && !inlineLeaf && key == Path(ctx) && LeftEdge(e, prevchildidx) && prevchild == e[|e| - 1]
      requires !oldNoup && !sub.compr ==> prevchild in sub.chars
      requires Behind(rt.m, want, key + e)
      modifies this
      ensures eof == old(eof) && justSeeked == old(justSeeked)
      ensures entered ==> (OnLeaf() || (OnNode() && sub.key.Some?)) && IsGreatest(rt.m, want, key)
      ensures !entered ==> unchanged(this) && (sub.key.Some? ==> IsGreatest(rt.m, want, key))
                           && (sub.key.None? ==> Behind(rt.m, want, key))
    {
      hide State, Denotes, NodeRep, AddrsOf, Path, CtxWF, Behind, IsGreatest, GreatestUnder;
      MapHere();
      KeyHere();
      SelfKey(ctx, sub, rt.m);
      if rt.heap[node].iscompr {
        ToNodeItself(ctx, sub, rt.m, want, e);
        return false;
      }
      assert e == [prevchild];
      if |rt.heap[node].data| > (if oldNoup then 0 else 1) {
        var i;
        if prevchildidx != -1 {
          i := prevchildidx - 1;
        } else {
          i := FindLastBelow(rt.heap[node].data, prevchild);
        }
        assert i >= 0 ==> sub.chars[i] < prevchild;
        assert forall k :: i < k < |sub.chars| ==> sub.chars[k] >= prevchild;
        if i != -1 {
          ghost var c0, s0 := ctx, sub;
          EnterChild(i);
          Deepest();
          ToPrevSibling(c0, s0, rt.m, want, prevchild, i, key);
          return true;
        }
      }
      ToNodeItself(ctx, sub, rt.m, want, e);
      return false;
    }

    /** From a child just entered to the greatest key under it. */
    method Deepest()
      requires Entered()
      modifies this
      ensures eof == old(eof) && justSeeked == old(justSeeked)
      ensures OnLeaf() || (OnNode() && sub.key.Some?)
      ensures GreatestUnder(rt.m, old(key), key)
    {
      hide State, Denotes, NodeRep, AddrsOf, Path, CtxWF, GreatestUnder, NodeWF;
      if inlineLeaf {
        MapHere();
        GreatestAtInline(ctx, sub, rt.m, leaf);
        return;
      }
      SeekGreatest();
    }

    /** The keys wanted by a backward step are those before the position. */
    ghost predicate BackwardFrom(noup: bool, e: Key, want: iset<Key>)
      reads this, rt
    {
      && Behind(rt.m, want, key)
      && if inlineLeaf then OnLeaf()
         else if noup then At() && key == Path(ctx) + e && LeftEdge(e, nodeChild)
         else OnNode()
    }

    /** Back from node to node until one has an earlier child or is a key; false when there is none up to the head. */
    method UpPrev(noup0: bool, ghost e0: Key, ghost want: iset<Key>) returns (found: bool)
      requires At() && !inlineLeaf && Behind(rt.m, want, key)
      requires if noup0 then key == Path(ctx) + e0 && LeftEdge(e0, nodeChild) else OnNode()
      modifies this
      ensures eof == old(eof) && justSeeked == old(justSeeked)
      ensures found ==> Current() && IsGreatest(rt.m, want, key)
      ensures !found ==> rt.Valid() && NoneWanted(rt.m, want)
    {
      hide State, Denotes, NodeRep, AddrsOf, Path, CtxWF, Behind, IsGreatest, NoneWanted;
      var noup := noup0;
      while true
        invariant At() && !inlineLeaf && Behind(rt.m, want, key)
        invariant if noup then key == Path(ctx) + e0 && LeftEdge(e0, nodeChild) else OnNode()
        invariant eof == old(eof) && justSeeked == old(justSeeked)
        decreases |ctx| + if noup then 1 else 0
      {
        var oldNoup := noup;
        HeadHere();
        if !noup && node == rt.head {
          HeadPath();
          BehindNothing(rt.m, want);
          return false;
        }
        var prevchild, prevchildidx;
        ghost var e;
        prevchild, prevchildidx, e := StepBack(noup, e0);
        noup := false;
        var entered := PrevSibling(oldNoup, prevchild, prevchildidx, e, want);
        if oldNoup {
          nodeChild := -1;
        }
        KeyHere();
        if inlineLeaf || rt.heap[node].iskey {
          if !inlineLeaf {
            data := GetData(rt.heap[node]);
          }
          return true;
        }
      }
    }

    /** raxIteratorPrevStep, past its checks of the flags: the mirror image of NextStep. */
    method PrevStep(noup0: bool, ghost e0: Key, ghost want: iset<Key>)
      requires !eof && !justSeeked && BackwardFrom(noup0, e0, want)
      modifies this
      ensures Valid() && !justSeeked
      ensures if eof then NoneWanted(rt.m, want) && key == old(key) && data == old(data)
              else Current() && IsGreatest(rt.m, want, key)
    {
      hide State, Denotes, Behind, Ahead, Past, IsGreatest, NoneWanted, NodeRep, CtxWF, AddrsOf, Path;
      var origKey, origStack, origNode, origData, origNodeChild, origInline := key, stack, node, data, nodeChild, inlineLeaf;
      ghost var origCtx, origSub := ctx, sub;
      var noup := noup0;
      ghost var e := e0;
      if inlineLeaf {
        e := LeaveLeaf(want);
        noup := true;
      }
      var found := UpPrev(noup, e, want);
      if !found {
        key, stack, node, data, nodeChild := origKey, origStack, origNode, origData, origNodeChild;
        inlineLeaf, eof, ctx, sub := origInline, true, origCtx, origSub;
      }
    }

    lemma HeadPath()
      requires At() && ctx == []
      ensures Path(ctx) == []
    {
    }

    /** raxPrev: false at the end; otherwise the iterator is on the previous key. */
    method Prev() returns (r: bool)
      requires Valid()
      modifies this
      ensures Valid() && r == !eof
      ensures if old(eof) then eof else !justSeeked
      ensures !old(eof) && old(justSeeked) ==> !eof && key == old(key) && data == old(data)
      ensures !old(eof) && !old(justSeeked) ==>
                if eof then NoneWanted(rt.m, Wanted(Less, old(key)))
                else IsGreatest(rt.m, Wanted(Less, old(key)), key)
      ensures !eof ==> key in rt.m && rt.m[key] == data
    {
      hide State, Denotes, IsGreatest, NoneWanted, NodeRep, CtxWF, AddrsOf, Path;
      if eof {
        return false;
      }
      if justSeeked {
        justSeeked := false;
        CurrentIsKey();
        return true;
      }
      PrevStep(false, [], Wanted(Less, key));
      if !eof {
        CurrentIsKey();
      }
      return !eof;
    }

    // ---------------------------------------------------------------- seeking

    /** The key of the current node, spelled by the edges between the nodes on the stack. */
    method RebuildKey()
      requires At() && key == []
      modifies this`key
      ensures At() && key == Path(ctx)
    {
      hide State, NodeRep, CtxWF, Path;
      var stk := stack + [node];
      var j := 1;
      PathStart();
      while j < |stk|
        invariant At() && stk == AddrsOf(ctx) + [node] && 1 <= j <= |stk|
        invariant CtxWF(ctx[..j - 1]) && key == Path(ctx[..j - 1])
      {
        LevelHere(j - 1);
        PathSnoc(ctx, j - 1);
        var n := rt.heap[stk[j - 1]];
        if n.iscompr {
          key := key + n.data;
        } else {
          assert n.slots[ctx[j - 1].idx] == Child(stk[j]);
          var i := Rax.FindChild(n, stk[j]);
          key := key + [n.data[i]];
        }
        j := j + 1;
      }
      assert ctx[..|ctx|] == ctx;
    }

    lemma PathStart()
      requires At()
      ensures CtxWF(ctx[..0]) && Path(ctx[..0]) == []
    {
    }

    lemma LevelHere(k: nat)
      requires At() && k < |ctx|
      ensures CtxWF(ctx) && var t := ctx[k].t;
        && t.addr in rt.heap && rt.heap[t.addr].iscompr == t.compr && rt.heap[t.addr].data == t.chars
        && FrameOK(ctx[k]) && |rt.heap[t.addr].slots| == |t.kids| && (!t.compr ==> |t.chars| == |t.kids|)
        && forall i :: 0 <= i < |t.kids| ==>
             (rt.heap[t.addr].slots[i] == Child(HoleAddr(ctx, k, sub.addr)) <==> i == ctx[k].idx)
    {
      hide Rep, CtxRep, CtxAddrs, Denotes, WF, NodeRep;
      LevelRecord(rt.heap, rt.head, ctx, sub, multiset{}, k);
    }

    /** raxSeek with "$": down from the head along the last children. */
    method SeekLast(ghost ele: Key)
      requires rt.Valid() && rt.numele != 0 && key == [] && stack == [] && nodeChild == -1
      requires !inlineLeaf && !eof
      modifies this
      ensures Valid() && !eof && justSeeked == old(justSeeked)
      ensures Sought(rt.m, Last, ele, key)
    {
      hide State, NodeRep, CtxWF, GreatestUnder, IsGreatest, AddrsOf;
      node := rt.head;
      ctx, sub := [], rt.tree;
      HeadOccupied();
      SeekGreatest();
      GreatestOfAll(rt.m, key, ele);
      if !inlineLeaf {
        KeyHere();
        data := GetData(rt.heap[node]);
      }
    }

    lemma HeadOccupied()
      requires rt.Valid() && rt.numele != 0
      ensures rt.Mid([], rt.tree) && Occupied(rt.tree) && rt.head == rt.tree.addr && rt.head in rt.heap
      ensures NodeRep(rt.heap[rt.head], rt.tree) && NodeWF(rt.tree) && Path([]) == [] && AddrsOf([]) == []
    {
      hide Rep, CtxRep, CtxAddrs, Get, NodeRep;
      rt.Here([], rt.tree);
      var k :| k in rt.m;
      assert Get(Plug([], rt.tree), k) == Look(rt.m, k);
      SomeKeyOccupies(rt.tree, k);
    }

    /**
      raxSeek: positions the iterator on the least or greatest key that the operator
      string asks for, or sets EOF; false for a string that is no operator.
     */
    method Seek(op: string, ele: Key) returns (ok: bool)
      requires rt.Valid()
      modifies this
      ensures justSeeked && ok == ParseOp(op).Some?
      ensures ok <==> op != "" && op[0] in {'>', '<', '=', '^', '$'}
      ensures !ok ==> !eof && key == []
      ensures ok ==> Valid() && Lands(rt.m, op, ele, eof, key)
      ensures ok ==> if eof then NoneWanted(rt.m, Wanted(ParseOp(op).value, ele))
                     else Sought(rt.m, ParseOp(op).value, ele, key) && key in rt.m && rt.m[key] == data
      decreases if op != "" && op[0] == '^' then 1 else 0
    {
      hide State, NodeRep, CtxWF, Path, AddrsOf, NoneWanted, IsGreatest, IsLeast, Wanted, Lands;
      WantedIsAsked(op, ele);
      stack, justSeeked, eof, inlineLeaf, key, node, nodeChild := [], true, false, false, [], 0, -1;
      if ParseOp(op).None? {
        return false;
      }
      var o := ParseOp(op).value;
      if rt.numele == 0 {
        eof := true;
        NothingStored(o, ele);
        LandsRight(rt.m, op, ele, eof, key);
        return true;
      }
      if o.First? {
        ok := Seek(">=", []);
        FirstIsLeast(rt.m, ele);
        LandsRight(rt.m, op, ele, eof, key);
        return;
      }
      if o.Last? {
        SeekLast(ele);
      } else {
        SeekKey(o, ele);
      }
      if !eof {
        CurrentIsKey();
      }
      LandsRight(rt.m, op, ele, eof, key);
      return true;
    }

    lemma NothingStored(o: Op, ele: Key)
      requires rt.Valid() && rt.numele == 0
      ensures NoneWanted(rt.m, Wanted(o, ele))
    {
      hide Rep, CtxRep, CtxAddrs, Denotes, WF;
      assert rt.m == map[];
    }

    /** The operators that look for a given string: walk to it, and step off it where it is not wanted. */
    method SeekKey(o: Op, ele: Key)
      requires rt.Valid() && !o.First? && !o.Last?
      requires justSeeked && !eof && !inlineLeaf && key == [] && nodeChild == -1
      modifies this
      ensures Valid() && justSeeked
      ensures if eof then NoneWanted(rt.m, Wanted(o, ele)) else Sought(rt.m, o, ele, key)
    {
      hide State, NodeRep, CtxWF, Path, AddrsOf, NoneWanted, IsGreatest, IsLeast, Wanted, Stops, NodeWF;
      var i, h, link, j, inl, ts;
      ghost var c, t;
      i, h, link, j, inl, ts, c, t := rt.LowWalk(ele);
      rt.Here(c, t);
      rt.StopsHere(ele, c, t, i, j, inl, link);
      node, stack := h, ts;
      ctx, sub := c, t;
      KeyHere();
      if inl {
        SeekFromInline(o, ele, i, link);
      } else if (o.GreaterEq? || o.LessEq? || o.Equal?) && i == |ele| && (!rt.heap[node].iscompr || j == 0) && rt.heap[node].iskey {
        key, data := ele, GetData(rt.heap[node]);
        SoughtEqual(rt.m, o, ele);
      } else if !o.Equal? {
        SeekFromNode(o, ele, i, j);
      } else {
        NotThere(ele);
        eof := true;
      }
    }

    lemma NotThere(ele: Key)
      requires ele !in rt.m
      ensures NoneWanted(rt.m, Wanted(Equal, ele))
    {
    }

    /** Stopped at an inline leaf that spells the first i bytes of the string. */
    method SeekFromInline(o: Op, ele: Key, i: nat, link: Link)
      requires At() && !o.First? && !o.Last? && justSeeked && !eof
      requires i <= |ele| && Stops(ele, ctx, sub, i, 0, true, link)
      modifies this
      ensures Valid() && justSeeked
      ensures if eof then NoneWanted(rt.m, Wanted(o, ele)) else Sought(rt.m, o, ele, key)
    {
      hide State, NodeRep, CtxWF, Path, AddrsOf, NoneWanted, IsGreatest, IsLeast, Wanted, Ahead, Behind, Sought, NodeWF;
      SlotHere(link.idx);
      key, data, nodeChild, inlineLeaf := ele[..i], rt.heap[node].slots[link.idx].v, link.idx, true;
      leaf := link.idx;
      InlineWhole(ele, i);
      if (o.GreaterEq? || o.LessEq? || o.Equal?) && i == |ele| {
        SoughtEqual(rt.m, o, ele);
        return;
      }
      if o.Equal? {
        NotThere(ele);
        eof := true;
        return;
      }
      ghost var want := Wanted(o, ele);
      StrictWanted(rt.m, o, ele);
      MapHere();
      StopAtInline(ctx, sub, rt.m, want, ele, leaf);
      justSeeked := false;
      if o.Greater? || o.GreaterEq? {
        NextStep(false, [], want);
      } else if i == |ele| {
        PrevStep(false, [], want);
      }
      ForwardFinds(o, ele);
      justSeeked := true;
    }

    /** On the inline leaf the string is a key exactly when it has been used up. */
    lemma InlineWhole(ele: Key, i: nat)
      requires OnLeaf() && i <= |ele| && key == ele[..i]
      ensures key <= ele && (i == |ele| <==> key == ele)
      ensures ele in rt.m <==> i == |ele|
    {
      hide State, NodeRep, AddrsOf, Path;
      MapHere();
      GreatestAtInline(ctx, sub, rt.m, leaf);
      if ele in rt.m {
        InlineIs(ctx, sub, rt.m, leaf, ele);
      }
    }

    /** What the steps find is what the operator seeks. */
    lemma ForwardFinds(o: Op, ele: Key)
      ensures (o.Greater? || o.GreaterEq?) && IsLeast(rt.m, Wanted(o, ele), key) ==> Sought(rt.m, o, ele, key)
      ensures (o.Less? || o.LessEq?) && IsGreatest(rt.m, Wanted(o, ele), key) ==> Sought(rt.m, o, ele, key)
    {
    }

    /** Stopped at a node: its own key is rebuilt, and the position depends on why the walk stopped. */
    method SeekFromNode(o: Op, ele: Key, i: nat, j: nat)
      requires At() && !o.First? && !o.Last? && !o.Equal? && justSeeked && !eof && !inlineLeaf && key == [] && nodeChild == -1
      requires i <= |ele| && Stops(ele, ctx, sub, i, j, false, LinkOf(ctx))
      requires !(i == |ele| && j == 0 && sub.key.Some?) || o.Greater? || o.Less?
      modifies this
      ensures Valid() && justSeeked
      ensures if eof then NoneWanted(rt.m, Wanted(o, ele)) else Sought(rt.m, o, ele, key)
    {
      hide State, NodeRep, CtxWF, Path, AddrsOf, NoneWanted, IsGreatest, IsLeast, Wanted, Ahead, Behind, Sought, NodeWF;
      RebuildKey();
      KeyHere();
      ghost var want := Wanted(o, ele);
      WantedHere(o, ele, i, j);
      justSeeked := false;
      if i != |ele| && !rt.heap[node].iscompr {
        SeekPlainMismatch(o, ele, i, want);
      } else if i != |ele| {
        SeekComprMismatch(o, ele, i, j, want);
      } else {
        SeekNoMismatch(o, ele, j, want);
      }
      ForwardFinds(o, ele);
      justSeeked := true;
    }

    lemma WantedHere(o: Op, ele: Key, i: nat, j: nat)
      requires At() && !o.First? && !o.Last? && !o.Equal?
      requires i <= |ele| && Stops(ele, ctx, sub, i, j, false, LinkOf(ctx))
      requires !(i == |ele| && j == 0 && sub.key.Some?) || o.Greater? || o.Less?
      ensures o.Greater? || o.GreaterEq? ==> Ahead(rt.m, Wanted(o, ele), ele)
      ensures o.Less? || o.LessEq? ==> Behind(rt.m, Wanted(o, ele), ele)
      ensures Path(ctx) <= ele && i == |Path(ctx)| + j && (sub.compr ==> j < |sub.chars|) && (!sub.compr ==> j == 0)
      ensures i < |ele| ==> if sub.compr then sub.chars[j] != ele[i] && Path(ctx) + sub.chars[..j] + [ele[i]] <= ele
                            else ele[i] !in sub.chars && Path(ctx) + [ele[i]] <= ele
      ensures i == |ele| ==> ele == if sub.compr then Path(ctx) + sub.chars[..j] else Path(ctx)
    {
      hide State, NodeRep, AddrsOf, Path, Wanted, Ahead, Behind;
      rt.StopsHere(ele, ctx, sub, i, j, false, LinkOf(ctx));
      StrictWanted(rt.m, o, ele);
      var p := |Path(ctx)|;
      assert ele[..p] == Path(ctx);
      assert ele[..i] == ele[..p] + ele[p..i];
      if i < |ele| {
        assert ele[..i + 1] == ele[..i] + [ele[i]];
      } else {
        assert ele[..i] == ele;
      }
    }

    /** A plain node without the next byte: scan from that byte, without going up first. */
    method SeekPlainMismatch(o: Op, ele: Key, i: nat, ghost want: iset<Key>)
      requires OnNode() && !eof && !justSeeked && nodeChild == -1
      requires i < |ele| && !sub.compr && ele[i] !in sub.chars && Path(ctx) + [ele[i]] <= ele
      requires o.Greater? || o.GreaterEq? ==> Ahead(rt.m, want, ele)
      requires o.Less? || o.LessEq? ==> Behind(rt.m, want, ele)
      requires !o.First? && !o.Last? && !o.Equal?
      modifies this
      ensures Valid() && !justSeeked
      ensures if eof then NoneWanted(rt.m, want)
              else if o.Less? || o.LessEq? then IsGreatest(rt.m, want, key) else IsLeast(rt.m, want, key)
    {
      hide State, NodeRep, CtxWF, Path, AddrsOf, NoneWanted, IsGreatest, IsLeast, Ahead, Behind, Past, NodeWF;
      MapHere();
      StopAtEdges(ctx, sub, rt.m, want, ele, ele[i]);
      key := key + [ele[i]];
      if o.Less? || o.LessEq? {
        PrevStep(true, [ele[i]], want);
      } else {
        NextStep(true, [ele[i]], want);
      }
    }

    /** Stopped inside a compressed string, which is greater or smaller than the rest of ele. */
    method SeekComprMismatch(o: Op, ele: Key, i: nat, j: nat, ghost want: iset<Key>)
      requires OnNode() && !eof && !justSeeked && nodeChild == -1 && sub.compr
      requires i < |ele| && j < |sub.chars| && sub.chars[j] != ele[i] && Path(ctx) + sub.chars[..j] + [ele[i]] <= ele
      requires o.Greater? || o.GreaterEq? ==> Ahead(rt.m, want, ele)
      requires o.Less? || o.LessEq? ==> Behind(rt.m, want, ele)
      requires !o.First? && !o.Last? && !o.Equal?
      modifies this
      ensures Valid() && !justSeeked
      ensures if eof then NoneWanted(rt.m, want)
              else if o.Less? || o.LessEq? then IsGreatest(rt.m, want, key) else IsLeast(rt.m, want, key)
    {
      hide State, NodeRep, CtxWF, Path, AddrsOf, NoneWanted, IsGreatest, IsLeast, Ahead, Behind, Past, GreatestUnder;
      MapHere();
      KeyHere();
      StopMismatch(ctx, sub, rt.m, want, ele, j, ele[i]);
      var nodechar, keychar := rt.heap[node].data[j], ele[i];
      if o.Greater? || o.GreaterEq? {
        if nodechar > keychar {
          NextStep(false, [], want);
        } else {
          key := key + rt.heap[node].data;
          NextStep(true, sub.chars, want);
        }
      } else if nodechar < keychar {
        ghost var c, t := ctx, sub;
        assert Occupied(sub);
        SeekGreatest();
        StopMismatchGreatest(c, t, rt.m, want, ele, j, ele[i], key);
        if !inlineLeaf {
          KeyHere();
          data := GetData(rt.heap[node]);
        }
      } else {
        key := key + rt.heap[node].data;
        PrevStep(true, sub.chars, want);
      }
    }

    /** The string ended at the node or inside its compressed string. */
    method SeekNoMismatch(o: Op, ele: Key, j: nat, ghost want: iset<Key>)
      requires OnNode() && !eof && !justSeeked && nodeChild == -1
      requires if sub.compr then j < |sub.chars| && ele == Path(ctx) + sub.chars[..j] else j == 0 && ele == Path(ctx)
      requires o.Greater? || o.GreaterEq? ==> Ahead(rt.m, want, ele)
      requires o.Less? || o.LessEq? ==> Behind(rt.m, want, ele)
      requires !o.First? && !o.Last? && !o.Equal?
      modifies this
      ensures Valid() && !justSeeked
      ensures if eof then NoneWanted(rt.m, want)
              else if o.Less? || o.LessEq? then IsGreatest(rt.m, want, key) else IsLeast(rt.m, want, key)
    {
      hide State, NodeRep, CtxWF, Path, AddrsOf, NoneWanted, IsGreatest, IsLeast, Ahead, Behind, Past, GreatestUnder, NodeWF;
      MapHere();
      KeyHere();
      SelfKey(ctx, sub, rt.m);
      StopNoMismatch(ctx, sub, rt.m, want, ele, j);
      if rt.heap[node].iscompr && rt.heap[node].iskey && j != 0 && (o.Less? || o.LessEq?) {
        data := GetData(rt.heap[node]);
      } else if o.Less? || o.LessEq? {
        PrevStep(false, [], want);
      } else {
        NextStep(false, [], want);
      }
    }
  }
}
