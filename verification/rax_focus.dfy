/** What has to hold of a heap so that a method may work at one place of the tree. */
module RaxFocus {
  import opened Common
  import opened RaxTree

  /**
    The heap holds the tree Plug(ctx, s), rooted at `root`, plus the nodes in
    `spare` that are allocated but not linked. Multisets count, so the equality
    says at once that no node is shared, dangling or leaked.
   */
  ghost predicate Focus(h: Heap, root: Addr, ctx: seq<Frame>, s: Tree, spare: multiset<Addr>) {
    && CtxWF(ctx) && CtxRep(h, ctx, s.addr) && Rep(h, s)
    && root == RootAddr(ctx, s.addr)
    && CtxAddrs(ctx) + Addrs(s) + spare == multiset(h.Keys)
  }

  /** The tree associates with every key what the map does. */
  ghost predicate Denotes(ctx: seq<Frame>, s: Tree, m: map<Key, Val>)
    requires CtxWF(ctx)
  {
    forall k :: Get(Plug(ctx, s), k) == Look(m, k)
  }

  ghost predicate CountsMatch(h: Heap, m: map<Key, Val>, numele: nat, numnodes: nat) {
    && numele == |m| && numnodes == |h|
    && forall k :: k in m ==> |k| <= NODE_MAX_SIZE
  }

  /** The fields of a tree object, seen from the place ctx, hold the finite map m. */
  ghost predicate State(h: Heap, root: Addr, numele: nat, numnodes: nat, m: map<Key, Val>, ctx: seq<Frame>, s: Tree) {
    && Focus(h, root, ctx, s, multiset{}) && WF(s) && Denotes(ctx, s, m)
    && CountsMatch(h, m, numele, numnodes)
  }

  /** A place where a child pointer is stored: the tree head or a slot of a node. */
  datatype Link = HeadLink | SlotLink(p: Addr, idx: nat)

  ghost function LinkOf(ctx: seq<Frame>): Link {
    if ctx == [] then HeadLink else SlotLink(ctx[|ctx| - 1].t.addr, ctx[|ctx| - 1].idx)
  }

  ghost function AddrsOf(ctx: seq<Frame>): (r: seq<Addr>)
    ensures |r| == |ctx|
  {
    seq(|ctx|, i requires 0 <= i < |ctx| => ctx[i].t.addr)
  }

  /** A represented context is a represented outer context and a last frame. */
  lemma CtxRepSnoc(h: Heap, ctx: seq<Frame>, a: Addr)
    requires ctx != []
    ensures var n := |ctx| - 1;
      CtxRep(h, ctx, a) <==> CtxRep(h, ctx[..n], ctx[n].t.addr) && FrameRep(h, ctx[n], a)
  {
    var n := |ctx| - 1;
    var up := ctx[..n];
    assert HoleAddr(ctx, n, a) == a;
    forall k | 0 <= k < n
      ensures up[k] == ctx[k] && HoleAddr(up, k, ctx[n].t.addr) == HoleAddr(ctx, k, a)
    {
    }
    if CtxRep(h, ctx, a) {
      assert FrameRep(h, ctx[n], HoleAddr(ctx, n, a));
      forall k | 0 <= k < n
        ensures FrameRep(h, up[k], HoleAddr(up, k, ctx[n].t.addr))
      {
        assert FrameRep(h, ctx[k], HoleAddr(ctx, k, a));
      }
    }
    if CtxRep(h, up, ctx[n].t.addr) && FrameRep(h, ctx[n], a) {
      forall k | 0 <= k < |ctx|
        ensures FrameRep(h, ctx[k], HoleAddr(ctx, k, a))
      {
        if k < n {
          assert FrameRep(h, up[k], HoleAddr(up, k, ctx[n].t.addr));
        }
      }
    }
  }

  /** Moving the focus to a child. */
  lemma DescendFrame(h: Heap, root: Addr, ctx: seq<Frame>, s: Tree, spare: multiset<Addr>, i: nat)
    requires Focus(h, root, ctx, s, spare) && FrameWF(Frame(s, i)) && s.kids[i].Sub?
    ensures var c := ctx + [Frame(s, i)];
      && Focus(h, root, c, s.kids[i].t, spare)
      && Plug(c, s.kids[i].t) == Plug(ctx, s)
      && Path(c) == Path(ctx) + EdgeOf(s, i)
  {
    hide FrameRep, Rep, CtxRep, KidsAddrs, WF;
    var f := Frame(s, i);
    var t := s.kids[i].t;
    var c := ctx + [f];
    assert s.kids == s.kids[i := Sub(t)];
    assert PlugFrame(f, t) == s;
    assert c[..|c| - 1] == ctx;
    PlugFrameRep(h, f, t);
    PlugFrameAddrs(f, t);
    CtxRepSnoc(h, c, t.addr);
  }

  lemma Descend(h: Heap, root: Addr, ctx: seq<Frame>, s: Tree, spare: multiset<Addr>, i: nat)
    requires Focus(h, root, ctx, s, spare) && WF(s)
    requires i < |s.kids| && s.kids[i].Sub?
    ensures var c := ctx + [Frame(s, i)];
      && Focus(h, root, c, s.kids[i].t, spare)
      && Plug(c, s.kids[i].t) == Plug(ctx, s)
      && Path(c) == Path(ctx) + EdgeOf(s, i)
      && WF(s.kids[i].t) && Occupied(s.kids[i].t)
  {
    DescendFrame(h, root, ctx, s, spare, i);
  }

  lemma StateDescend(h: Heap, root: Addr, numele: nat, numnodes: nat, m: map<Key, Val>, ctx: seq<Frame>, s: Tree, i: nat)
    requires State(h, root, numele, numnodes, m, ctx, s) && i < |s.kids| && s.kids[i].Sub?
    ensures var c := ctx + [Frame(s, i)];
      var t := s.kids[i].t;
      && CtxWF(c) && State(h, root, numele, numnodes, m, c, t) && Occupied(t) && Plug(c, t) == Plug(ctx, s)
      && Path(c) == Path(ctx) + EdgeOf(s, i)
      && s.addr in h && NodeRep(h[s.addr], s)
  {
    Descend(h, root, ctx, s, multiset{}, i);
  }

  lemma AddrsOfSnoc(ctx: seq<Frame>, f: Frame)
    ensures AddrsOf(ctx + [f]) == AddrsOf(ctx) + [f.t.addr]
    ensures LinkOf(ctx + [f]) == SlotLink(f.t.addr, f.idx)
  {
  }

  lemma Ascend(h: Heap, root: Addr, ctx: seq<Frame>, s: Tree, spare: multiset<Addr>)
    requires Focus(h, root, ctx, s, spare) && ctx != []
    ensures var up := ctx[..|ctx| - 1];
      && Focus(h, root, up, PlugFrame(ctx[|ctx| - 1], s), spare)
      && Plug(up, PlugFrame(ctx[|ctx| - 1], s)) == Plug(ctx, s)
  {
    var n := |ctx| - 1;
    var up := ctx[..n];
    CtxRepSnoc(h, ctx, s.addr);
    PlugFrameRep(h, ctx[n], s);
    PlugFrameAddrs(ctx[n], s);
  }

  lemma CloseUp(h: Heap, root: Addr, ctx: seq<Frame>, s: Tree, spare: multiset<Addr>)
    requires Focus(h, root, ctx, s, spare)
    ensures Focus(h, root, [], Plug(ctx, s), spare)
  {
    PlugRep(h, ctx, s);
    PlugAddrs(ctx, s);
    PlugAddr(ctx, s);
  }

  lemma CtxAddrsMember(ctx: seq<Frame>, k: nat)
    requires CtxOK(ctx) && k < |ctx|
    ensures FrameAddrs(ctx[k]) <= CtxAddrs(ctx)
    decreases |ctx|
  {
    if k < |ctx| - 1 {
      CtxAddrsMember(ctx[..|ctx| - 1], k);
    }
  }

  lemma FrameRepFrame(h: Heap, h2: Heap, f: Frame, hole: Addr)
    requires FrameRep(h, f, hole) && SameOn(h, h2, FrameAddrs(f))
    ensures FrameRep(h2, f, hole)
  {
    forall i | 0 <= i < |f.t.kids| && i != f.idx
      ensures KidRep(h2, f.t.kids[i])
    {
      SiblingAddrs(f, i);
      if f.t.kids[i].Sub? {
        RepFrame(h, h2, f.t.kids[i].t);
      }
    }
  }

  lemma SiblingAddrs(f: Frame, i: nat)
    requires FrameOK(f) && i < |f.t.kids| && i != f.idx
    ensures multiset{f.t.addr} + KidAddrs(f.t.kids[i]) <= FrameAddrs(f)
  {
    if i < f.idx {
      KidsAddrsMember(f.t.kids[..f.idx], i);
    } else {
      KidsAddrsMember(f.t.kids[f.idx + 1..], i - f.idx - 1);
    }
  }

  ghost predicate Linkable(h: Heap, ctx: seq<Frame>) {
    ctx != [] ==>
      var f := ctx[|ctx| - 1];
      f.t.addr in h && f.idx < |h[f.t.addr].slots|
  }

  /** Heap and root after writing pointer b at the place the context's hole is stored. */
  ghost function LinkedHeap(h: Heap, ctx: seq<Frame>, b: Addr): Heap
    requires Linkable(h, ctx)
  {
    if ctx == [] then h
    else var f := ctx[|ctx| - 1]; h[f.t.addr := SetSlot(h[f.t.addr], f.idx, Child(b))]
  }

  ghost function LinkedRoot(root: Addr, ctx: seq<Frame>, b: Addr): Addr {
    if ctx == [] then b else root
  }

  /** The record at the focus. */
  lemma FocusNode(h: Heap, root: Addr, ctx: seq<Frame>, s: Tree, spare: multiset<Addr>)
    requires Focus(h, root, ctx, s, spare)
    ensures s.addr in h && NodeRep(h[s.addr], s)
  {
  }

  lemma CtxSplit(ctx: seq<Frame>)
    requires CtxOK(ctx) && ctx != []
    ensures CtxAddrs(ctx) == CtxAddrs(ctx[..|ctx| - 1]) + FrameAddrs(ctx[|ctx| - 1])
  {
  }

  lemma CtxRepFrame(h: Heap, h1: Heap, ctx: seq<Frame>, a: Addr)
    requires CtxWF(ctx) && CtxRep(h, ctx, a)
    requires SameOn(h, h1, CtxAddrs(ctx))
    ensures CtxRep(h1, ctx, a)
  {
    forall k | 0 <= k < |ctx|
      ensures FrameRep(h1, ctx[k], HoleAddr(ctx, k, a))
    {
      CtxAddrsMember(ctx, k);
      FrameRepFrame(h, h1, ctx[k], HoleAddr(ctx, k, a));
    }
  }

  lemma CtxRepEmpty(h: Heap, a: Addr)
    ensures CtxRep(h, [], a)
  {
  }

  lemma FrameNode(h: Heap, f: Frame, hole: Addr)
    requires FrameRep(h, f, hole)
    ensures FrameOK(f) && f.t.addr in h && f.idx < |h[f.t.addr].slots| && h[f.t.addr].slots[f.idx] == Child(hole)
  {
  }

  lemma CtxRelink(h1: Heap, ctx: seq<Frame>, a: Addr, b: Addr)
    requires CtxWF(ctx) && CtxRep(h1, ctx, a) && ctx != []
    requires CtxAddrs(ctx)[ctx[|ctx| - 1].t.addr] <= 1
    ensures Linkable(h1, ctx)
    ensures CtxRep(LinkedHeap(h1, ctx, b), ctx, b)
  {
    hide FrameRep, Rep, KidRep, KidsAddrs, CtxAddrs;
    var n := |ctx| - 1;
    var f := ctx[n];
    CtxRepSnoc(h1, ctx, a);
    FrameNode(h1, f, a);
    CtxSplit(ctx);
    var h2 := LinkedHeap(h1, ctx, b);
    assert FrameAddrs(f)[f.t.addr] == 1 && f.t.addr !in CtxAddrs(ctx[..n]);
    CtxRepFrame(h1, h2, ctx[..n], f.t.addr);
    LastFrameRelinked(h1, h2, f, a, b);
    CtxRepSnoc(h2, ctx, b);
  }

  /**
    Replacing the tree in the hole: the context was left alone, a new tree s2 is
    represented, and its address is stored where the old one was.
   */
  lemma Refocus(h: Heap, root: Addr, ctx: seq<Frame>, a: Addr, h1: Heap, s2: Tree, spare2: multiset<Addr>)
    requires CtxWF(ctx) && CtxRep(h, ctx, a) && root == RootAddr(ctx, a)
    requires SameOn(h, h1, CtxAddrs(ctx))
    requires Rep(h1, s2)
    requires CtxAddrs(ctx) + Addrs(s2) + spare2 == multiset(h1.Keys)
    ensures Linkable(h1, ctx)
    ensures Focus(LinkedHeap(h1, ctx, s2.addr), LinkedRoot(root, ctx, s2.addr), ctx, s2, spare2)
  {
    hide CtxRep, Rep, FrameWF, KidsAddrs, CtxAddrs;
    CtxRepFrame(h, h1, ctx, a);
    if ctx == [] {
      CtxRepEmpty(h1, s2.addr);
    } else {
      var p := ctx[|ctx| - 1].t.addr;
      var all := multiset(h1.Keys);
      assert all[p] <= 1;
      CtxSplit(ctx);
      assert CtxAddrs(ctx)[p] >= 1;
      assert p !in Addrs(s2);
      CtxRelink(h1, ctx, a, s2.addr);
      var h2 := LinkedHeap(h1, ctx, s2.addr);
      assert h2.Keys == h1.Keys by { assert p in h1; }
      assert SameOn(h1, h2, Addrs(s2));
      RepFrame(h1, h2, s2);
    }
  }

  lemma LastFrameRelinked(h1: Heap, h2: Heap, f: Frame, a: Addr, b: Addr)
    requires FrameRep(h1, f, a) && FrameAddrs(f)[f.t.addr] == 1
    requires h2 == h1[f.t.addr := SetSlot(h1[f.t.addr], f.idx, Child(b))]
    ensures FrameRep(h2, f, b)
  {
    hide KidsAddrs, Rep;
    forall i | 0 <= i < |f.t.kids| && i != f.idx
      ensures KidRep(h2, f.t.kids[i])
    {
      SiblingAddrs(f, i);
      if f.t.kids[i].Sub? {
        assert f.t.addr !in Addrs(f.t.kids[i].t);
        RepFrame(h1, h2, f.t.kids[i].t);
      }
    }
  }

  /** A focus where only the tree in the hole was rewritten at the same address. */
  lemma RefocusInPlace(h: Heap, root: Addr, ctx: seq<Frame>, h1: Heap, s2: Tree, spare2: multiset<Addr>)
    requires CtxWF(ctx) && CtxRep(h, ctx, s2.addr) && root == RootAddr(ctx, s2.addr)
    requires SameOn(h, h1, CtxAddrs(ctx))
    requires Rep(h1, s2)
    requires CtxAddrs(ctx) + Addrs(s2) + spare2 == multiset(h1.Keys)
    ensures Focus(h1, root, ctx, s2, spare2)
  {
    CtxRepFrame(h, h1, ctx, s2.addr);
  }

  /** How the map changes when the tree in the hole does. */
  lemma DenotesChange(ctx: seq<Frame>, s: Tree, s2: Tree, m: map<Key, Val>, m2: map<Key, Val>)
    requires CtxWF(ctx) && Denotes(ctx, s, m)
    requires forall k | !(Path(ctx) <= k) :: Look(m2, k) == Look(m, k)
    requires forall r :: Get(s2, r) == Look(m2, Path(ctx) + r)
    ensures Denotes(ctx, s2, m2)
  {
    forall k
      ensures Get(Plug(ctx, s2), k) == Look(m2, k)
    {
      if Path(ctx) <= k {
        PlugGet(ctx, s2, k);
        assert k == Path(ctx) + k[|Path(ctx)|..];
      } else {
        PlugGetOff(ctx, s, s2, k);
      }
    }
  }

  lemma DenotesAt(ctx: seq<Frame>, s: Tree, m: map<Key, Val>, r: Key)
    requires CtxWF(ctx) && Denotes(ctx, s, m)
    ensures Get(s, r) == Look(m, Path(ctx) + r)
  {
    PlugGet(ctx, s, Path(ctx) + r);
    assert (Path(ctx) + r)[|Path(ctx)|..] == r;
  }

  /** The hole's tree changes at the single key r. */
  lemma DenotesPoint(ctx: seq<Frame>, s: Tree, s2: Tree, m: map<Key, Val>, m2: map<Key, Val>, r: Key)
    requires CtxWF(ctx) && Denotes(ctx, s, m)
    requires forall k :: Get(s2, k) == if k == r then Look(m2, Path(ctx) + r) else Get(s, k)
    requires forall k | k != Path(ctx) + r :: Look(m2, k) == Look(m, k)
    ensures Denotes(ctx, s2, m2)
  {
    forall k
      ensures Get(s2, k) == Look(m2, Path(ctx) + k)
    {
      DenotesAt(ctx, s, m, k);
      assert (Path(ctx) + k)[|Path(ctx)|..] == k;
      assert (Path(ctx) + r)[|Path(ctx)|..] == r;
    }
    DenotesChange(ctx, s, s2, m, m2);
  }

  lemma DenotesSame(ctx: seq<Frame>, s: Tree, s2: Tree, m: map<Key, Val>)
    requires CtxWF(ctx) && Denotes(ctx, s, m)
    requires forall k :: Get(s2, k) == Get(s, k)
    ensures Denotes(ctx, s2, m)
  {
    DenotesAt(ctx, s, m, []);
    DenotesPoint(ctx, s, s2, m, m, []);
  }

  // ------------------------------------------------------ heap accounting

  lemma FocusMalloc(h: Heap, root: Addr, ctx: seq<Frame>, s: Tree, spare: multiset<Addr>, a: Addr, n: Node)
    requires Focus(h, root, ctx, s, spare) && a !in h
    ensures Focus(h[a := n], root, ctx, s, spare + multiset{a})
  {
    hide CtxRep, Rep, FrameWF;
    var h1 := h[a := n];
    KeysAdded(h, a, n);
    FocusFrame(h, root, ctx, s, spare, h1);
  }

  lemma KeysAdded(h: Heap, a: Addr, n: Node)
    requires a !in h
    ensures multiset(h[a := n].Keys) == multiset(h.Keys) + multiset{a}
  {
    assert h[a := n].Keys == h.Keys + {a};
  }

  lemma FocusFrame(h: Heap, root: Addr, ctx: seq<Frame>, s: Tree, spare: multiset<Addr>, h1: Heap)
    requires Focus(h, root, ctx, s, spare)
    requires SameOn(h, h1, CtxAddrs(ctx)) && SameOn(h, h1, Addrs(s))
    ensures CtxRep(h1, ctx, s.addr) && Rep(h1, s)
  {
    CtxRepFrame(h, h1, ctx, s.addr);
    RepFrame(h, h1, s);
  }

  lemma FocusFree(h: Heap, root: Addr, ctx: seq<Frame>, s: Tree, spare: multiset<Addr>, a: Addr)
    requires Focus(h, root, ctx, s, spare + multiset{a})
    ensures a in h && Focus(h - {a}, root, ctx, s, spare)
  {
    hide CtxRep, Rep, FrameWF;
    var h1 := h - {a};
    assert multiset(h.Keys)[a] <= 1;
    assert a in multiset(h.Keys);
    assert h1.Keys == h.Keys - {a};
    assert multiset(h1.Keys) == multiset(h.Keys) - multiset{a};
    FocusFrame(h, root, ctx, s, spare + multiset{a}, h1);
  }

  /** The node in the hole is reallocated, rewritten and linked again. */
  lemma FocusRewrite(h: Heap, root: Addr, ctx: seq<Frame>, s: Tree, spare: multiset<Addr>,
                     n2: Node, s2: Tree, spare2: multiset<Addr>, h1: Heap)
    requires Focus(h, root, ctx, s, spare)
    requires s2.addr == s.addr || s2.addr !in h
    requires NodeRep(n2, s2) && KidsRep(h, s2.kids)
    requires KidsAddrs(s2.kids) + spare2 == KidsAddrs(s.kids) + spare
    requires h1 == (h - {s.addr})[s2.addr := n2]
    ensures Linkable(h1, ctx)
    ensures Focus(LinkedHeap(h1, ctx, s2.addr), LinkedRoot(root, ctx, s2.addr), ctx, s2, spare2)
  {
    hide CtxRep, Rep, FrameWF;
    RewriteFacts(h, root, ctx, s, spare, n2, s2, spare2, h1);
    Refocus(h, root, ctx, s.addr, h1, s2, spare2);
  }

  /** The node in the hole is rewritten where it is. */
  lemma InPlace(h: Heap, root: Addr, ctx: seq<Frame>, s: Tree, spare: multiset<Addr>,
                n2: Node, s2: Tree, spare2: multiset<Addr>, h1: Heap)
    requires Focus(h, root, ctx, s, spare)
    requires s2.addr == s.addr
    requires NodeRep(n2, s2) && KidsRep(h, s2.kids)
    requires KidsAddrs(s2.kids) + spare2 == KidsAddrs(s.kids) + spare
    requires h1 == h[s.addr := n2]
    ensures Focus(h1, root, ctx, s2, spare2)
  {
    assert h1 == (h - {s.addr})[s.addr := n2];
    RewriteFacts(h, root, ctx, s, spare, n2, s2, spare2, h1);
    RefocusInPlace(h, root, ctx, h1, s2, spare2);
  }

  lemma RewriteFacts(h: Heap, root: Addr, ctx: seq<Frame>, s: Tree, spare: multiset<Addr>,
                     n2: Node, s2: Tree, spare2: multiset<Addr>, h1: Heap)
    requires Focus(h, root, ctx, s, spare)
    requires s2.addr == s.addr || s2.addr !in h
    requires NodeRep(n2, s2) && KidsRep(h, s2.kids)
    requires KidsAddrs(s2.kids) + spare2 == KidsAddrs(s.kids) + spare
    requires h1 == (h - {s.addr})[s2.addr := n2]
    ensures SameOn(h, h1, CtxAddrs(ctx)) && Rep(h1, s2)
    ensures CtxAddrs(ctx) + Addrs(s2) + spare2 == multiset(h1.Keys)
  {
    hide CtxRep, Rep, FrameWF, KidsAddrs, CtxAddrs, NodeRep;
    var kids := KidsAddrs(s2.kids);
    assert multiset(h.Keys) == CtxAddrs(ctx) + multiset{s.addr} + (kids + spare2);
    assert multiset(h.Keys)[s.addr] <= 1;
    KeysMoved(h, s.addr, s2.addr, n2);
    RewriteRep(h, s.addr, n2, s2);
  }

  lemma KeysMoved(h: Heap, a: Addr, b: Addr, n: Node)
    requires a in h && (b == a || b !in h)
    ensures multiset((h - {a})[b := n].Keys) == multiset(h.Keys) - multiset{a} + multiset{b}
  {
    assert (h - {a})[b := n].Keys == h.Keys - {a} + {b};
  }

  lemma RewriteRep(h: Heap, a: Addr, n2: Node, s2: Tree)
    requires s2.addr == a || s2.addr !in h
    requires NodeRep(n2, s2) && KidsRep(h, s2.kids) && a !in KidsAddrs(s2.kids)
    ensures Rep((h - {a})[s2.addr := n2], s2)
  {
    var h1 := (h - {a})[s2.addr := n2];
    KidsAddrsInHeap(h, s2.kids);
    assert SameOn(h, h1, KidsAddrs(s2.kids));
    KidsRepFrame(h, h1, s2.kids);
    RepFromKids(h1, s2);
  }

  lemma RepFromKids(h: Heap, t: Tree)
    requires t.addr in h && NodeRep(h[t.addr], t) && KidsRep(h, t.kids)
    ensures Rep(h, t)
  {
    forall i | 0 <= i < |t.kids| && t.kids[i].Sub?
      ensures Rep(h, t.kids[i].t)
    {
      assert KidRep(h, t.kids[i]);
    }
  }

  lemma KidsOfRep(h: Heap, t: Tree)
    requires Rep(h, t)
    ensures KidsRep(h, t.kids)
  {
  }

  lemma {:induction false} AddrsInHeap(h: Heap, t: Tree)
    requires Rep(h, t)
    ensures forall a :: a in Addrs(t) ==> a in h
    decreases t, 1
  {
    KidsOfRep(h, t);
    KidsAddrsInHeap(h, t.kids);
  }

  lemma {:induction false} KidsAddrsInHeap(h: Heap, kids: seq<Kid>)
    requires KidsRep(h, kids)
    ensures forall a :: a in KidsAddrs(kids) ==> a in h
    decreases kids, 0
  {
    if kids != [] {
      KidAddrsInHeap(h, kids[0]);
      KidsAddrsInHeap(h, kids[1..]);
    }
  }

  lemma {:induction false} KidAddrsInHeap(h: Heap, d: Kid)
    requires KidRep(h, d)
    ensures forall a :: a in KidAddrs(d) ==> a in h
    decreases d, 2
  {
    if d.Sub? {
      AddrsInHeap(h, d.t);
    }
  }

  lemma KidsRepMalloc(h: Heap, kids: seq<Kid>, a: Addr, n: Node)
    requires KidsRep(h, kids) && a !in h
    ensures KidsRep(h[a := n], kids)
  {
    KidsAddrsInHeap(h, kids);
    KidsRepFrame(h, h[a := n], kids);
  }

  /** A freshly allocated node whose kids are represented already. */
  lemma GrowRep(h: Heap, a: Addr, n: Node, t: Tree)
    requires a !in h && t.addr == a && NodeRep(n, t) && KidsRep(h, t.kids)
    ensures Rep(h[a := n], t)
  {
    KidsRepMalloc(h, t.kids, a, n);
    RepFromKids(h[a := n], t);
  }

  lemma OneKid(h: Heap, d: Kid)
    ensures KidsRep(h, [d]) <==> KidRep(h, d)
    ensures KidsAddrs([d]) == KidAddrs(d)
  {
    assert [d][0] == d && [d][1..] == [];
  }
}
