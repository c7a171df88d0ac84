/** The steps of an insertion: the records they write, and what they do to heap, tree and map. */
module RaxInsertion {
  import opened Common
  import opened RaxTree
  import opened RaxFocus
  import opened RaxEdits
  import opened RaxSearch

  lemma SplitAt(s: Key, i: nat)
    requires i <= |s|
    ensures s == s[..i] + s[i..]
  {
  }

  lemma TakeOneMore(s: Key, i: nat)
    requires i < |s|
    ensures s[..i + 1] == s[..i] + [s[i]]
  {
  }

  /** A stop that is not at an inline leaf, relative to the node it stops at. */
  ghost predicate StopsAt(s: Key, ctx: seq<Frame>, sub: Tree, i: nat, j: nat)
    requires CtxWF(ctx) && i <= |s|
  {
    if sub.compr then
      j < |sub.chars| && s[..i] == Path(ctx) + sub.chars[..j] && (i < |s| ==> sub.chars[j] != s[i])
    else
      j == 0 && s[..i] == Path(ctx) && (i < |s| ==> s[i] !in sub.chars)
  }

  lemma StopsPath(s: Key, ctx: seq<Frame>, sub: Tree, i: nat, j: nat, link: Link)
    requires CtxWF(ctx) && Stops(s, ctx, sub, i, j, false, link)
    ensures StopsAt(s, ctx, sub, i, j)
  {
    if sub.compr {
      assert s[..i] == s[..|Path(ctx)|] + s[|Path(ctx)|..i];
    }
  }

  lemma ChainDenotes(ctx: seq<Frame>, s: Tree, a: Addr, chars: Key, v: Val, m: map<Key, Val>)
    requires CtxWF(ctx) && WF(s) && Denotes(ctx, s, m) && s.kids == [] && |chars| >= 2
    ensures var t := ChainTree(s, a, chars, v);
      WF(t) && Occupied(t) && Denotes(ctx, t, m[Path(ctx) + chars := v])
  {
    var t := ChainTree(s, a, chars, v);
    forall k
      ensures Get(t, k) == if k == chars then Some(v) else Get(s, k)
    {
      ChainTreeGet(s, a, chars, v, k);
    }
    DenotesPoint(ctx, s, t, m, m[Path(ctx) + chars := v], chars);
  }

  lemma AddedLeafGet(s: Tree, pos: nat, c: byte, v: Val, s2: Tree, k: Key)
    requires NodeWF(s) && c !in s.chars && !s.compr && Added(s, pos, c, Leaf(v), s2)
    ensures Get(s2, k) == if k == [c] then Some(v) else Get(s, k)
  {
    hide FrameWF;
    if k != [] && k[0] == c {
      EdgeIndexAbsent(s.chars, c);
      assert k == [c] + k[1..];
    }
  }

  lemma AddedLeafDenotes(ctx: seq<Frame>, s: Tree, pos: nat, c: byte, v: Val, s2: Tree, m: map<Key, Val>)
    requires CtxWF(ctx) && WF(s) && Denotes(ctx, s, m) && c !in s.chars && !s.compr && pos < MAX_INLINE
    requires Added(s, pos, c, Leaf(v), s2)
    ensures WF(s2) && Occupied(s2) && Denotes(ctx, s2, m[Path(ctx) + [c] := v])
  {
    hide Denotes, CtxWF, Get;
    WFOfFrame(s2, pos);
    forall k
      ensures Get(s2, k) == if k == [c] then Some(v) else Get(s, k)
    {
      AddedLeafGet(s, pos, c, v, s2, k);
    }
    DenotesPoint(ctx, s, s2, m, m[Path(ctx) + [c] := v], [c]);
  }

  lemma AddedEmptyDenotes(ctx: seq<Frame>, s: Tree, pos: nat, c: byte, a: Addr, s2: Tree, m: map<Key, Val>)
    requires CtxWF(ctx) && WF(s) && Denotes(ctx, s, m) && c !in s.chars && !s.compr
    requires Added(s, pos, c, Sub(EmptyTree(a)), s2)
    ensures Denotes(ctx, s2, m)
  {
    forall k
      ensures Get(s2, k) == Get(s, k)
    {
      if k != [] && k[0] == c {
        EdgeIndexAbsent(s.chars, c);
        EmptyGet(a, k[1..]);
      }
    }
    DenotesSame(ctx, s, s2, m);
  }

  lemma AddedDescend(h: Heap, root: Addr, ctx: seq<Frame>, s: Tree, pos: nat, c: byte, a: Addr, s2: Tree, m: map<Key, Val>)
    requires Focus(h, root, ctx, s2, multiset{})
    requires WF(s) && Denotes(ctx, s, m) && c !in s.chars && !s.compr
    requires Added(s, pos, c, Sub(EmptyTree(a)), s2)
    ensures var c2 := ctx + [Frame(s2, pos)];
      && Focus(h, root, c2, EmptyTree(a), multiset{}) && WF(EmptyTree(a)) && Denotes(c2, EmptyTree(a), m)
      && Path(c2) == Path(ctx) + [c] && LinkOf(c2) == SlotLink(s2.addr, pos)
  {
    AddedEmptyDenotes(ctx, s, pos, c, a, s2, m);
    DescendFrame(h, root, ctx, s2, multiset{}, pos);
  }

  lemma EmptySpare(h: Heap, root: Addr, ctx: seq<Frame>, s: Tree, a: Addr)
    requires Focus(h, root, ctx, s, multiset{}) && a !in h
    ensures var d := Sub(EmptyTree(a));
      Focus(h[a := NewNode()], root, ctx, s, KidAddrs(d)) && KidRep(h[a := NewNode()], d)
  {
    FocusMalloc(h, root, ctx, s, multiset{}, a, NewNode());
    assert Addrs(EmptyTree(a)) == multiset{a};
    assert multiset{} + multiset{a} == multiset{a};
  }

  lemma EmptyGet(a: Addr, k: Key)
    ensures Get(EmptyTree(a), k) == None
  {
  }

  lemma PlainShape(s: Tree)
    requires WF(s) && !s.compr
    ensures |s.kids| == |s.chars|
  {
  }

  ghost predicate Spilled(s: Tree, pos: nat, s1: Tree) {
    && WF(s1) && s1.(kids := s.kids) == s && |s1.kids| == |s.kids|
    && (pos <= MAX_INLINE - 1 < |s1.kids| ==> s1.kids[MAX_INLINE - 1].Sub?)
    && forall k :: Get(s1, k) == Get(s, k)
  }

  lemma SpillFacts(h: Heap, s: Tree, i: nat, v: Val, a: Addr, h2: Heap)
    requires Rep(h, s) && WF(s) && i == MAX_INLINE - 1 < |s.kids| && s.kids[i] == Leaf(v)
    requires a !in h && h2 == h[a := SetData(NewNode(), v)]
    ensures var s1 := s.(kids := s.kids[i := Sub(LeafTree(a, v))]);
      && KidsRep(h2, s1.kids) && KidsAddrs(s1.kids) == KidsAddrs(s.kids) + multiset{a}
      && (forall k :: Get(s1, k) == Get(s, k)) && WF(s1)
  {
    var d := Sub(LeafTree(a, v));
    var s1 := s.(kids := s.kids[i := d]);
    KidsOfRep(h, s);
    KidsRepMalloc(h, s.kids, a, h2[a]);
    GrowRep(h, a, h2[a], LeafTree(a, v));
    KidsAddrsUpdate(s.kids, i, d);
    KidsAddrsAt(s.kids, i);
    LeafAddrs(a, v);
    MaterializeWF(s, i, a, v);
    forall k
      ensures Get(s1, k) == Get(s, k)
    {
      MaterializeGet(s, i, a, v, k);
    }
  }

  lemma KidsAddrsInsert(kids: seq<Kid>, pos: nat, d: Kid)
    requires pos <= |kids|
    ensures KidsAddrs(Insert(kids, pos, d)) == KidsAddrs(kids) + KidAddrs(d)
  {
    var a, b := kids[..pos], kids[pos..];
    assert kids == a + b;
    KidsAddrsConcat(a, b);
    KidsAddrsConcat(a + [d], b);
    KidsAddrsConcat(a, [d]);
    OneKid(map[], d);
  }

  lemma KidsRepInsert(h: Heap, kids: seq<Kid>, pos: nat, d: Kid)
    requires pos <= |kids| && KidsRep(h, kids) && KidRep(h, d)
    ensures KidsRep(h, Insert(kids, pos, d))
  {
    forall i | 0 <= i < |kids| + 1
      ensures KidRep(h, Insert(kids, pos, d)[i])
    {
      if i != pos {
        assert KidRep(h, kids[if i < pos then i else i - 1]);
      }
    }
  }

  lemma KidFrame(h: Heap, h2: Heap, d: Kid)
    requires KidRep(h, d) && Extends(h, h2)
    ensures KidRep(h2, d)
  {
    if d.Sub? {
      RepFrame(h, h2, d.t);
    }
  }

  /** Tree s2 is s with one more edge, as a frame around the new kid and as a map. */
  ghost predicate Added(s: Tree, pos: nat, c: byte, d: Kid, s2: Tree) {
    && FrameWF(Frame(s2, pos)) && !s2.compr && s2.kids[pos] == d && s2.chars[pos] == c
    && forall k :: Get(s2, k) == if k != [] && k[0] == c then GetKid(d, k[1..]) else Get(s, k)
  }

  lemma AddedFacts(s: Tree, s1: Tree, pos: nat, c: byte, d: Kid, s2: Tree)
    requires WF(s) && !s.compr && c !in s.chars && pos == ChildPos(s.chars, c) && Spilled(s, pos, s1)
    requires s2 == AddKid(s1, pos, c, d).(addr := s2.addr)
    ensures Added(s, pos, c, d, s2)
  {
    var t := AddKid(s1, pos, c, d);
    AddKidFrameWF(s1, pos, c, d);
    forall k
      ensures Get(s2, k) == if k != [] && k[0] == c then GetKid(d, k[1..]) else Get(s, k)
    {
      AddKidGet(s1, pos, c, d, k);
      assert Get(s2, k) == Get(t, k);
    }
  }

  lemma CutRecords(n: Node, s: Tree, j: nat, data: Val, ta: Addr, pa: Addr)
    requires NodeRep(n, s) && WF(s) && s.compr && 0 < j < |s.chars|
    ensures NodeRep(SetData(PostfixRecord(n, j), data), Rest(s.chars, j, s.kids[0], Some(data), pa).t)
    ensures NodeRep(TrimRecord(n, j, pa), CutTree(s, j, data, ta, pa))
  {
  }

  lemma CutFocus(h: Heap, root: Addr, ctx: seq<Frame>, s: Tree, j: nat, data: Val, ta: Addr, pa: Addr, h2: Heap)
    requires Focus(h, root, ctx, s, multiset{}) && Extends(h, h2) && WF(s) && s.compr && 0 < j < |s.chars|
    requires pa in h2 && NodeRep(h2[pa], Rest(s.chars, j, s.kids[0], Some(data), pa).t)
    requires ta in h2 && NodeRep(h2[ta], CutTree(s, j, data, ta, pa))
    requires multiset(h2.Keys) == multiset(h.Keys) + (multiset{pa} + multiset{ta})
    ensures var t := CutTree(s, j, data, ta, pa);
      && Linkable(h2, ctx)
      && Focus(LinkedHeap(h2, ctx, t.addr), LinkedRoot(root, ctx, t.addr), ctx, t, multiset{} + multiset{s.addr})
  {
    var t := CutTree(s, j, data, ta, pa);
    var r := Rest(s.chars, j, s.kids[0], Some(data), pa);
    RestRep(h, s, j, pa, Some(data), h2);
    OneKid(h2, r);
    RepFromKids(h2, t);
    RestAddrs(s, j, pa, Some(data));
    OneKidAddrs(t);
    OneKidAddrs(s);
    Supplant(h, root, ctx, s, h2, t, multiset{pa} + multiset{ta}, KidAddrs(s.kids[0]));
  }

  lemma CutDenotes(ctx: seq<Frame>, s: Tree, j: nat, data: Val, ta: Addr, pa: Addr, m: map<Key, Val>)
    requires CtxWF(ctx) && WF(s) && Denotes(ctx, s, m) && s.compr && 0 < j < |s.chars|
    ensures var t := CutTree(s, j, data, ta, pa);
      WF(t) && Occupied(t) && Denotes(ctx, t, m[Path(ctx) + s.chars[..j] := data])
  {
    var t := CutTree(s, j, data, ta, pa);
    CutTreeWF(s, j, data, ta, pa);
    forall k
      ensures Get(t, k) == if k == s.chars[..j] then Some(data) else Get(s, k)
    {
      CutTreeGet(s, j, data, ta, pa, k);
    }
    DenotesPoint(ctx, s, t, m, m[Path(ctx) + s.chars[..j] := data], s.chars[..j]);
  }

  /** The end of a split string: what remains of compressed node n from index j on. */
  function PostfixRecord(n: Node, j: nat): Node
    requires j <= |n.data| && |n.slots| == 1
  {
    Node(false, false, NULL, |n.data| - j > 1, n.data[j..], n.slots)
  }

  function SplitRecord(n: Node, j: nat, rest: Slot): Node
    requires j < |n.data|
  {
    var splitnode := Node(false, false, NULL, false, [n.data[j]], [rest]);
    if j == 0 && n.iskey then SetData(splitnode, GetData(n)) else splitnode
  }

  /** The first j bytes of compressed node n, with its key, above another node. */
  function TrimRecord(n: Node, j: nat, child: Addr): Node
    requires j <= |n.data|
  {
    Node(n.iskey, n.isnull, n.value, j > 1, n.data[..j], [Child(child)])
  }

  lemma SplitRecords(n: Node, s: Tree, j: nat, ta: Addr, sa: Addr, pa: Addr)
    requires NodeRep(n, s) && WF(s) && s.compr && j < |s.chars|
    ensures var r := Rest(s.chars, j + 1, s.kids[0], None, pa);
      && (j + 1 < |s.chars| ==> NodeRep(PostfixRecord(n, j + 1), r.t))
      && NodeRep(SplitRecord(n, j, SlotOf(r)), SplitNode(sa, if j == 0 then s.key else None, s.chars[j], r))
      && (j != 0 ==> NodeRep(TrimRecord(n, j, sa), SplitTree(s, j, ta, sa, pa)))
  {
  }

  lemma SplitShape(s: Tree, j: nat, ta: Addr, sa: Addr, pa: Addr)
    requires WF(s) && s.compr && j < |s.chars|
    ensures var t := SplitTree(s, j, ta, sa, pa);
      var st := if j == 0 then t else t.kids[0].t;
      && !st.compr && st.addr == sa && st.chars == [s.chars[j]]
      && (j != 0 ==> t.addr == ta && |t.kids| == 1 && t.kids[0] == Sub(st) && |t.chars| > 0 && EdgeOf(t, 0) == s.chars[..j])
  {
  }

  ghost predicate Extends(h: Heap, h2: Heap) {
    forall a :: a in h ==> a in h2 && h2[a] == h[a]
  }

  lemma RestRep(h: Heap, s: Tree, j: nat, pa: Addr, key: Option<Val>, h2: Heap)
    requires Rep(h, s) && Extends(h, h2) && s.compr && |s.kids| == 1 && j <= |s.chars|
    requires j < |s.chars| ==> pa in h2 && NodeRep(h2[pa], Rest(s.chars, j, s.kids[0], key, pa).t)
    ensures KidRep(h2, Rest(s.chars, j, s.kids[0], key, pa))
  {
    RepFrame(h, h2, s);
    KidsOfRep(h2, s);
    assert KidRep(h2, s.kids[0]);
    OneKid(h2, s.kids[0]);
    if j < |s.chars| {
      RepFromKids(h2, Rest(s.chars, j, s.kids[0], key, pa).t);
    }
  }

  lemma SplitRep(h: Heap, s: Tree, j: nat, ta: Addr, sa: Addr, pa: Addr, h2: Heap)
    requires Rep(h, s) && Extends(h, h2) && WF(s) && s.compr && j < |s.chars|
    requires SplitNodes(s, j, ta, sa, pa, h2)
    ensures Rep(h2, SplitTree(s, j, ta, sa, pa))
  {
    RestRep(h, s, j + 1, pa, None, h2);
    var r := Rest(s.chars, j + 1, s.kids[0], None, pa);
    var st := SplitNode(sa, if j == 0 then s.key else None, s.chars[j], r);
    OneKid(h2, r);
    RepFromKids(h2, st);
    if j != 0 {
      OneKid(h2, Sub(st));
      RepFromKids(h2, SplitTree(s, j, ta, sa, pa));
    }
  }

  /** The records the split allocates. */
  ghost predicate SplitNodes(s: Tree, j: nat, ta: Addr, sa: Addr, pa: Addr, h2: Heap)
    requires WF(s) && s.compr && j < |s.chars|
  {
    var r := Rest(s.chars, j + 1, s.kids[0], None, pa);
    && (j + 1 < |s.chars| ==> pa in h2 && NodeRep(h2[pa], r.t))
    && sa in h2 && NodeRep(h2[sa], SplitNode(sa, if j == 0 then s.key else None, s.chars[j], r))
    && (j != 0 ==> ta in h2 && NodeRep(h2[ta], SplitTree(s, j, ta, sa, pa)))
  }

  ghost function NewAddrs(s: Tree, j: nat, ta: Addr, sa: Addr, pa: Addr): multiset<Addr> {
    multiset{sa} + (if j == 0 then multiset{} else multiset{ta}) + (if j + 1 == |s.chars| then multiset{} else multiset{pa})
  }

  lemma OneKidAddrs(t: Tree)
    requires |t.kids| == 1
    ensures Addrs(t) == multiset{t.addr} + KidAddrs(t.kids[0])
  {
    assert t.kids == [t.kids[0]];
    OneKid(map[], t.kids[0]);
  }

  lemma RestAddrs(s: Tree, j: nat, pa: Addr, key: Option<Val>)
    requires |s.kids| == 1 && j <= |s.chars|
    ensures KidAddrs(Rest(s.chars, j, s.kids[0], key, pa)) ==
            KidAddrs(s.kids[0]) + (if j == |s.chars| then multiset{} else multiset{pa})
  {
    if j < |s.chars| {
      OneKidAddrs(Rest(s.chars, j, s.kids[0], key, pa).t);
    }
  }

  lemma SplitAddrs(s: Tree, j: nat, ta: Addr, sa: Addr, pa: Addr)
    requires WF(s) && s.compr && j < |s.chars|
    ensures Addrs(SplitTree(s, j, ta, sa, pa)) == NewAddrs(s, j, ta, sa, pa) + KidAddrs(s.kids[0])
  {
    var r := Rest(s.chars, j + 1, s.kids[0], None, pa);
    var st := SplitNode(sa, if j == 0 then s.key else None, s.chars[j], r);
    RestAddrs(s, j + 1, pa, None);
    OneKidAddrs(st);
    if j != 0 {
      OneKidAddrs(SplitTree(s, j, ta, sa, pa));
      assert KidAddrs(Sub(st)) == Addrs(st);
    }
  }

  /** The new nodes take the place of the old one, which is no longer linked. */
  lemma Supplant(h: Heap, root: Addr, ctx: seq<Frame>, s: Tree, h2: Heap, t: Tree, added: multiset<Addr>, kids: multiset<Addr>)
    requires Focus(h, root, ctx, s, multiset{}) && Extends(h, h2)
    requires Rep(h2, t) && Addrs(s) == multiset{s.addr} + kids && Addrs(t) == added + kids
    requires multiset(h2.Keys) == multiset(h.Keys) + added
    ensures Linkable(h2, ctx)
    ensures Focus(LinkedHeap(h2, ctx, t.addr), LinkedRoot(root, ctx, t.addr), ctx, t, multiset{} + multiset{s.addr})
  {
    hide CtxRep, Rep, KidsAddrs, CtxAddrs, FrameWF;
    var c := CtxAddrs(ctx);
    assert c + Addrs(t) + multiset{s.addr} == (c + (multiset{s.addr} + kids)) + added;
    Refocus(h, root, ctx, s.addr, h2, t, multiset{s.addr});
    assert multiset{} + multiset{s.addr} == multiset{s.addr};
  }

  lemma SplitFocus(h: Heap, root: Addr, ctx: seq<Frame>, s: Tree, j: nat, ta: Addr, sa: Addr, pa: Addr, h2: Heap)
    requires Focus(h, root, ctx, s, multiset{}) && Extends(h, h2) && WF(s) && s.compr && j < |s.chars|
    requires SplitNodes(s, j, ta, sa, pa, h2)
    requires multiset(h2.Keys) == multiset(h.Keys) + NewAddrs(s, j, ta, sa, pa)
    ensures var t := SplitTree(s, j, ta, sa, pa);
      && Linkable(h2, ctx)
      && Focus(LinkedHeap(h2, ctx, t.addr), LinkedRoot(root, ctx, t.addr), ctx, t, multiset{} + multiset{s.addr})
  {
    SplitRep(h, s, j, ta, sa, pa, h2);
    SplitAddrs(s, j, ta, sa, pa);
    OneKidAddrs(s);
    Supplant(h, root, ctx, s, h2, SplitTree(s, j, ta, sa, pa), NewAddrs(s, j, ta, sa, pa), KidAddrs(s.kids[0]));
  }

  lemma SplitDenotes(ctx: seq<Frame>, s: Tree, j: nat, ta: Addr, sa: Addr, pa: Addr, m: map<Key, Val>)
    requires CtxWF(ctx) && WF(s) && Denotes(ctx, s, m) && s.compr && j < |s.chars|
    ensures var t := SplitTree(s, j, ta, sa, pa);
      WF(t) && Occupied(t) && Denotes(ctx, t, m)
  {
    SplitTreeWF(s, j, ta, sa, pa);
    forall k
      ensures Get(SplitTree(s, j, ta, sa, pa), k) == Get(s, k)
    {
      SplitTreeGet(s, j, ta, sa, pa, k);
    }
    DenotesSame(ctx, s, SplitTree(s, j, ta, sa, pa), m);
  }

  lemma SetDataFocus(h: Heap, root: Addr, ctx: seq<Frame>, s: Tree, data: Val, h1: Heap)
    requires Focus(h, root, ctx, s, multiset{}) && h1 == h[s.addr := SetData(h[s.addr], data)]
    ensures Focus(h1, root, ctx, s.(key := Some(data)), multiset{}) && |h1| == |h|
  {
    KidsOfRep(h, s);
    InPlace(h, root, ctx, s, multiset{}, h1[s.addr], s.(key := Some(data)), multiset{}, h1);
  }

  lemma LinkedKeeps(h1: Heap, ctx: seq<Frame>, b: Addr, root: Addr, s: Tree)
    requires Linkable(h1, ctx) && s.addr == b && b in h1
    requires Focus(LinkedHeap(h1, ctx, b), root, ctx, s, multiset{})
    ensures b in LinkedHeap(h1, ctx, b) && LinkedHeap(h1, ctx, b)[b] == h1[b]
  {
    if ctx != [] {
      CtxSplit(ctx);
      var p := ctx[|ctx| - 1].t.addr;
      assert p in CtxAddrs(ctx) && b in Addrs(s);
      var all := multiset(LinkedHeap(h1, ctx, b).Keys);
      assert all[p] <= 1 && all == CtxAddrs(ctx) + Addrs(s);
    }
  }

  /** A node's address is of no concern to lookups. */
  lemma MovedDenotes(ctx: seq<Frame>, s: Tree, a: Addr, m: map<Key, Val>)
    requires CtxWF(ctx) && WF(s) && Denotes(ctx, s, m)
    ensures WF(s.(addr := a)) && Denotes(ctx, s.(addr := a), m)
  {
    DenotesSame(ctx, s, s.(addr := a), m);
  }

  lemma SetKeyDenotes(ctx: seq<Frame>, s: Tree, v: Val, m: map<Key, Val>)
    requires CtxWF(ctx) && WF(s) && Denotes(ctx, s, m)
    ensures Denotes(ctx, s.(key := Some(v)), m[Path(ctx) := v]) && WF(s.(key := Some(v)))
  {
    assert Path(ctx) + [] == Path(ctx);
    DenotesPoint(ctx, s, s.(key := Some(v)), m, m[Path(ctx) := v], []);
  }

  lemma LeafAddrs(a: Addr, v: Val)
    ensures KidAddrs(Sub(LeafTree(a, v))) == multiset{a} && KidAddrs(Leaf(v)) == multiset{}
  {
    assert Addrs(LeafTree(a, v)) == multiset{a};
  }

  lemma MaterializeFocus(h: Heap, root: Addr, ctx: seq<Frame>, s: Tree, i: nat, a: Addr, v: Val, h2: Heap)
    requires Focus(h, root, ctx, s, multiset{}) && WF(s)
    requires i < |s.kids| && s.kids[i] == Leaf(v) && a !in h
    requires var h1 := h[a := SetData(NewNode(), v)];
      s.addr in h1 && i < |h1[s.addr].slots| && h2 == h1[s.addr := SetSlot(h1[s.addr], i, Child(a))]
    ensures Focus(h2, root, ctx, s.(kids := s.kids[i := Sub(LeafTree(a, v))]), multiset{})
    ensures WF(s.(kids := s.kids[i := Sub(LeafTree(a, v))]))
  {
    hide CtxRep, FrameWF, CtxAddrs, WF, KidsAddrs, KidAddrs;
    var n := SetData(NewNode(), v);
    var h1 := h[a := n];
    var d := Sub(LeafTree(a, v));
    var s2 := s.(kids := s.kids[i := d]);
    FocusMalloc(h, root, ctx, s, multiset{}, a, n);
    GrowRep(h, a, n, LeafTree(a, v));
    KidsOfRep(h1, s);
    KidsAddrsUpdate(s.kids, i, d);
    KidsAddrsAt(s.kids, i);
    MaterializeWF(s, i, a, v);
    LeafAddrs(a, v);
    InPlace(h1, root, ctx, s, multiset{a}, h2[s.addr], s2, multiset{}, h2);
  }

  lemma MaterializeDenotes(ctx: seq<Frame>, s: Tree, i: nat, a: Addr, v: Val, m: map<Key, Val>)
    requires CtxWF(ctx) && Denotes(ctx, s, m)
    requires i < |s.kids| && s.kids[i] == Leaf(v)
    ensures Denotes(ctx, s.(kids := s.kids[i := Sub(LeafTree(a, v))]), m)
  {
    forall k
      ensures Get(s.(kids := s.kids[i := Sub(LeafTree(a, v))]), k) == Get(s, k)
    {
      MaterializeGet(s, i, a, v, k);
    }
    DenotesSame(ctx, s, s.(kids := s.kids[i := Sub(LeafTree(a, v))]), m);
  }

  lemma LeafUpdateDenotes(ctx: seq<Frame>, s: Tree, i: nat, v: Val, m: map<Key, Val>)
    requires CtxWF(ctx) && WF(s) && Denotes(ctx, s, m)
    requires i < |s.kids| && s.kids[i].Leaf?
    ensures Denotes(ctx, s.(kids := s.kids[i := Leaf(v)]), m[Path(ctx) + EdgeOf(s, i) := v])
  {
    var s2 := s.(kids := s.kids[i := Leaf(v)]);
    forall k
      ensures Get(s2, k) == if k == EdgeOf(s, i) then Some(v) else Get(s, k)
    {
      LeafUpdateGet(s, i, v, k);
    }
    DenotesPoint(ctx, s, s2, m, m[Path(ctx) + EdgeOf(s, i) := v], EdgeOf(s, i));
  }

  lemma LeafUpdateGet(s: Tree, i: nat, v: Val, k: Key)
    requires WF(s) && i < |s.kids| && s.kids[i].Leaf?
    ensures Get(s.(kids := s.kids[i := Leaf(v)]), k) == if k == EdgeOf(s, i) then Some(v) else Get(s, k)
  {
    var s2 := s.(kids := s.kids[i := Leaf(v)]);
    if k == EdgeOf(s, i) {
      assert WF(s2);
      KidGet(s2, i, k);
    } else if s.compr {
      SingleGet(s, k);
      SingleGet(s2, k);
      assert s.chars <= k && k[|s.chars|..] == [] ==> k == s.chars;
    } else if k != [] {
      assert k[1..] == [] ==> k == [k[0]];
    }
  }

  lemma LeafUpdate(h: Heap, root: Addr, ctx: seq<Frame>, s: Tree, i: nat, v: Val, h1: Heap)
    requires Focus(h, root, ctx, s, multiset{}) && WF(s)
    requires i < |s.kids| && s.kids[i].Leaf?
    requires h1 == h[s.addr := SetSlot(h[s.addr], i, Inline(v))]
    ensures Focus(h1, root, ctx, s.(kids := s.kids[i := Leaf(v)]), multiset{})
    ensures WF(s.(kids := s.kids[i := Leaf(v)]))
  {
    var s2 := s.(kids := s.kids[i := Leaf(v)]);
    KidsAddrsUpdate(s.kids, i, Leaf(v));
    KidsAddrsAt(s.kids, i);
    InPlace(h, root, ctx, s, multiset{}, h1[s.addr], s2, multiset{}, h1);
  }
}
