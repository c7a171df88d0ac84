/**
  The radix tree as the program stores it (node records in an addressed heap)
  and as it is reasoned about (an algebraic tree that remembers the address of
  every node), with the relation between the two.
 */
module RaxTree {
  import opened Common

  type Addr = nat
  type Val = nat
  type Key = seq<byte>

  /** A NULL value is never stored in a node; the isnull bit stands for it. */
  const NULL: Val := 0
  /** Only the first 13 slots have a bit in the inline-leaf bitmap. */
  const MAX_INLINE := 13
  const NODE_MAX_SIZE := 65535

  /** A child word, told apart by its bitmap bit: an inline value or a pointer. */
  datatype Slot = Inline(v: Val) | Child(p: Addr)

  /** One allocated node. `size` in the header is |data|; a compressed node has one slot. */
  datatype Node = Node(iskey: bool, isnull: bool, value: Val, iscompr: bool, data: Key, slots: seq<Slot>)

  function GetData(n: Node): Val {
    if n.isnull then NULL else n.value
  }

  function SetData(n: Node, data: Val): Node {
    if data != NULL then n.(iskey := true, isnull := false, value := data)
    else n.(iskey := true, isnull := true)
  }

  function NewNode(): Node {
    Node(false, false, NULL, false, [], [])
  }

  /** Slot number idx of a node receives word w. */
  function SetSlot(n: Node, idx: nat, w: Slot): Node
    requires idx < |n.slots|
  {
    n.(slots := n.slots[idx := w])
  }

  function Insert<T>(s: seq<T>, pos: nat, x: T): (r: seq<T>)
    requires pos <= |s|
    ensures |r| == |s| + 1
  {
    s[..pos] + [x] + s[pos..]
  }

  function Delete<T>(s: seq<T>, pos: nat): (r: seq<T>)
    requires pos < |s|
    ensures |r| == |s| - 1
  {
    s[..pos] + s[pos + 1..]
  }

  /** A plain node with edge c and slot w inserted at index pos. */
  function InsertEdge(n: Node, pos: nat, c: byte, w: Slot): Node
    requires pos <= |n.data| == |n.slots|
  {
    n.(data := Insert(n.data, pos, c), slots := Insert(n.slots, pos, w))
  }

  /** A plain node without the edge and slot at index pos. */
  function DeleteEdge(n: Node, pos: nat): Node
    requires pos < |n.data| == |n.slots|
  {
    n.(data := Delete(n.data, pos), slots := Delete(n.slots, pos))
  }

  function KeyOf(n: Node): Option<Val> {
    if n.iskey then Some(GetData(n)) else None
  }

  // ---------------------------------------------------------------- trees

  datatype Kid = Leaf(v: Val) | Sub(t: Tree)
  datatype Tree = Tree(addr: Addr, key: Option<Val>, compr: bool, chars: Key, kids: seq<Kid>)

  function EmptyTree(a: Addr): Tree {
    Tree(a, None, false, [], [])
  }

  /** Index of the first occurrence of c, or |chars|. */
  function EdgeIndex(chars: Key, c: byte): (i: nat)
    ensures i <= |chars|
    ensures i < |chars| ==> chars[i] == c
    ensures forall k :: 0 <= k < i ==> chars[k] != c
  {
    if chars == [] then 0
    else if chars[0] == c then 0
    else 1 + EdgeIndex(chars[1..], c)
  }

  /** The value the tree associates with a key: what a search is supposed to find. */
  function Get(t: Tree, k: Key): Option<Val>
    decreases t
  {
    if k == [] then t.key
    else if t.compr then
      if |t.kids| == 1 && t.chars <= k then GetKid(t.kids[0], k[|t.chars|..]) else None
    else
      var i := EdgeIndex(t.chars, k[0]);
      if i < |t.kids| then GetKid(t.kids[i], k[1..]) else None
  }

  function GetKid(d: Kid, k: Key): Option<Val>
    decreases d
  {
    match d
    case Leaf(v) => if k == [] then Some(v) else None
    case Sub(t) => Get(t, k)
  }

  ghost predicate StrictlySorted(s: Key) {
    forall i, j :: 0 <= i < j < |s| ==> s[i] < s[j]
  }

  /** A node other than the root either has a child or is a key. */
  ghost predicate Occupied(t: Tree) {
    t.kids != [] || t.key.Some?
  }

  ghost predicate NodeWF(t: Tree) {
    && (t.compr ==> |t.chars| >= 2 && |t.kids| == 1)
    && (!t.compr ==> |t.kids| == |t.chars| && StrictlySorted(t.chars))
  }

  ghost predicate WF(t: Tree) {
    && NodeWF(t)
    && forall i :: 0 <= i < |t.kids| ==>
         if t.kids[i].Leaf? then i < MAX_INLINE else WF(t.kids[i].t) && Occupied(t.kids[i].t)
  }

  ghost predicate KidWF(d: Kid, i: nat) {
    if d.Leaf? then i < MAX_INLINE else WF(d.t) && Occupied(d.t)
  }

  // ------------------------------------------------- addresses of a tree

  ghost function Addrs(t: Tree): multiset<Addr>
    decreases t, 1
  {
    multiset{t.addr} + KidsAddrs(t.kids)
  }

  ghost function KidsAddrs(kids: seq<Kid>): multiset<Addr>
    decreases kids, 0
  {
    if kids == [] then multiset{} else KidAddrs(kids[0]) + KidsAddrs(kids[1..])
  }

  ghost function KidAddrs(d: Kid): multiset<Addr>
    decreases d, 2
  {
    match d
    case Leaf(_) => multiset{}
    case Sub(t) => Addrs(t)
  }

  lemma {:induction false} KidsAddrsConcat(a: seq<Kid>, b: seq<Kid>)
    ensures KidsAddrs(a + b) == KidsAddrs(a) + KidsAddrs(b)
  {
    if a == [] {
      assert a + b == b;
    } else {
      assert (a + b)[1..] == a[1..] + b;
      KidsAddrsConcat(a[1..], b);
    }
  }

  lemma KidsAddrsAt(kids: seq<Kid>, i: nat)
    requires i < |kids|
    ensures KidsAddrs(kids) == KidsAddrs(kids[..i]) + KidAddrs(kids[i]) + KidsAddrs(kids[i + 1..])
  {
    assert kids == kids[..i] + ([kids[i]] + kids[i + 1..]);
    KidsAddrsConcat(kids[..i], [kids[i]] + kids[i + 1..]);
  }

  lemma KidsAddrsUpdate(kids: seq<Kid>, i: nat, d: Kid)
    requires i < |kids|
    ensures KidsAddrs(kids[i := d]) == KidsAddrs(kids[..i]) + KidAddrs(d) + KidsAddrs(kids[i + 1..])
  {
    var u := kids[i := d];
    KidsAddrsAt(u, i);
    assert u[..i] == kids[..i] && u[i + 1..] == kids[i + 1..];
  }

  // --------------------------------------------- heaps representing trees

  type Heap = map<Addr, Node>

  function SlotOf(d: Kid): Slot {
    match d
    case Leaf(v) => Inline(v)
    case Sub(t) => Child(t.addr)
  }

  /** The node record n is the root record of t. */
  ghost predicate NodeRep(n: Node, t: Tree) {
    && KeyOf(n) == t.key && n.iscompr == t.compr && n.data == t.chars
    && |n.slots| == |t.kids|
    && forall i :: 0 <= i < |t.kids| ==> n.slots[i] == SlotOf(t.kids[i])
  }

  ghost predicate Rep(h: Heap, t: Tree) {
    && t.addr in h && NodeRep(h[t.addr], t)
    && forall i :: 0 <= i < |t.kids| && t.kids[i].Sub? ==> Rep(h, t.kids[i].t)
  }

  ghost predicate KidRep(h: Heap, d: Kid) {
    d.Sub? ==> Rep(h, d.t)
  }

  ghost predicate KidsRep(h: Heap, kids: seq<Kid>) {
    forall i :: 0 <= i < |kids| ==> KidRep(h, kids[i])
  }

  ghost predicate SameOn(h: Heap, h2: Heap, dom: multiset<Addr>) {
    forall a :: a in dom && a in h ==> a in h2 && h2[a] == h[a]
  }

  lemma KidsAddrsMember(kids: seq<Kid>, i: nat)
    requires i < |kids|
    ensures KidAddrs(kids[i]) <= KidsAddrs(kids)
  {
    KidsAddrsAt(kids, i);
  }

  /** A tree is read only through its own addresses. */
  lemma {:induction false} RepFrame(h: Heap, h2: Heap, t: Tree)
    requires Rep(h, t) && SameOn(h, h2, Addrs(t))
    ensures Rep(h2, t)
  {
    forall i | 0 <= i < |t.kids| && t.kids[i].Sub?
      ensures Rep(h2, t.kids[i].t)
    {
      KidsAddrsMember(t.kids, i);
      RepFrame(h, h2, t.kids[i].t);
    }
  }

  lemma KidsRepFrame(h: Heap, h2: Heap, kids: seq<Kid>)
    requires KidsRep(h, kids) && SameOn(h, h2, KidsAddrs(kids))
    ensures KidsRep(h2, kids)
  {
    forall i | 0 <= i < |kids|
      ensures KidRep(h2, kids[i])
    {
      assert KidRep(h, kids[i]);
      KidsAddrsMember(kids, i);
      if kids[i].Sub? {
        RepFrame(h, h2, kids[i].t);
      }
    }
  }

  // --------------------------------------------------- contexts (zippers)

  /** A tree node whose child number idx is the hole. */
  datatype Frame = Frame(t: Tree, idx: nat)

  ghost predicate FrameOK(f: Frame) {
    f.idx < |f.t.kids|
  }

  ghost function PlugFrame(f: Frame, s: Tree): Tree
    requires FrameOK(f)
  {
    f.t.(kids := f.t.kids[f.idx := Sub(s)])
  }

  ghost predicate CtxOK(ctx: seq<Frame>) {
    forall k :: 0 <= k < |ctx| ==> FrameOK(ctx[k])
  }

  /** The whole tree with s in the hole of the innermost frame. */
  ghost function Plug(ctx: seq<Frame>, s: Tree): Tree
    requires CtxOK(ctx)
  {
    if ctx == [] then s
    else Plug(ctx[..|ctx| - 1], PlugFrame(ctx[|ctx| - 1], s))
  }

  function EdgeOf(t: Tree, idx: nat): Key
    requires t.compr || idx < |t.chars|
  {
    if t.compr then t.chars else [t.chars[idx]]
  }

  ghost predicate FrameWF(f: Frame) {
    && FrameOK(f) && NodeWF(f.t)
    && forall i :: 0 <= i < |f.t.kids| && i != f.idx ==> KidWF(f.t.kids[i], i)
  }

  ghost predicate CtxWF(ctx: seq<Frame>) {
    CtxOK(ctx) && forall k :: 0 <= k < |ctx| ==> FrameWF(ctx[k])
  }

  /** The bytes on the way from the root to the hole. */
  ghost function Path(ctx: seq<Frame>): Key
    requires CtxWF(ctx)
  {
    if ctx == [] then []
    else Path(ctx[..|ctx| - 1]) + EdgeOf(ctx[|ctx| - 1].t, ctx[|ctx| - 1].idx)
  }

  ghost function FrameAddrs(f: Frame): multiset<Addr>
    requires FrameOK(f)
  {
    multiset{f.t.addr} + KidsAddrs(f.t.kids[..f.idx]) + KidsAddrs(f.t.kids[f.idx + 1..])
  }

  ghost function CtxAddrs(ctx: seq<Frame>): multiset<Addr>
    requires CtxOK(ctx)
  {
    if ctx == [] then multiset{}
    else CtxAddrs(ctx[..|ctx| - 1]) + FrameAddrs(ctx[|ctx| - 1])
  }

  /** The node record of a frame points at `hole` and represents the siblings. */
  ghost predicate FrameRep(h: Heap, f: Frame, hole: Addr) {
    && FrameOK(f)
    && f.t.addr in h
    && var n := h[f.t.addr];
    && KeyOf(n) == f.t.key && n.iscompr == f.t.compr && n.data == f.t.chars
    && |n.slots| == |f.t.kids| && n.slots[f.idx] == Child(hole)
    && forall i :: 0 <= i < |f.t.kids| && i != f.idx ==>
         n.slots[i] == SlotOf(f.t.kids[i]) && KidRep(h, f.t.kids[i])
  }

  ghost function HoleAddr(ctx: seq<Frame>, k: nat, a: Addr): Addr
    requires k < |ctx|
  {
    if k + 1 < |ctx| then ctx[k + 1].t.addr else a
  }

  ghost predicate CtxRep(h: Heap, ctx: seq<Frame>, a: Addr) {
    forall k :: 0 <= k < |ctx| ==> FrameRep(h, ctx[k], HoleAddr(ctx, k, a))
  }

  ghost function RootAddr(ctx: seq<Frame>, a: Addr): Addr {
    if ctx == [] then a else ctx[0].t.addr
  }

  lemma {:induction false} PlugAddr(ctx: seq<Frame>, s: Tree)
    requires CtxOK(ctx)
    ensures Plug(ctx, s).addr == RootAddr(ctx, s.addr)
    decreases |ctx|
  {
    if ctx != [] {
      PlugAddr(ctx[..|ctx| - 1], PlugFrame(ctx[|ctx| - 1], s));
    }
  }

  lemma PlugFrameRep(h: Heap, f: Frame, s: Tree)
    requires FrameOK(f)
    ensures Rep(h, PlugFrame(f, s)) <==> FrameRep(h, f, s.addr) && Rep(h, s)
  {
    var t := PlugFrame(f, s);
    assert t.kids[f.idx] == Sub(s);
    assert forall i :: 0 <= i < |f.t.kids| && i != f.idx ==> t.kids[i] == f.t.kids[i];
  }

  /** Zipping up: the parts represented separately make the whole represented. */
  lemma {:induction false} PlugRep(h: Heap, ctx: seq<Frame>, s: Tree)
    requires CtxOK(ctx)
    requires CtxRep(h, ctx, s.addr) && Rep(h, s)
    ensures Rep(h, Plug(ctx, s))
    decreases |ctx|
  {
    if ctx != [] {
      var n := |ctx| - 1;
      var up := ctx[..n];
      assert FrameRep(h, ctx[n], HoleAddr(ctx, n, s.addr));
      PlugFrameRep(h, ctx[n], s);
      forall k | 0 <= k < |up|
        ensures FrameRep(h, up[k], HoleAddr(up, k, ctx[n].t.addr))
      {
        assert FrameRep(h, ctx[k], HoleAddr(ctx, k, s.addr));
      }
      PlugRep(h, up, PlugFrame(ctx[n], s));
    }
  }

  lemma PlugFrameAddrs(f: Frame, s: Tree)
    requires FrameOK(f)
    ensures Addrs(PlugFrame(f, s)) == FrameAddrs(f) + Addrs(s)
  {
    KidsAddrsUpdate(f.t.kids, f.idx, Sub(s));
  }

  lemma {:induction false} PlugAddrs(ctx: seq<Frame>, s: Tree)
    requires CtxOK(ctx)
    ensures Addrs(Plug(ctx, s)) == CtxAddrs(ctx) + Addrs(s)
    decreases |ctx|
  {
    if ctx != [] {
      PlugFrameAddrs(ctx[|ctx| - 1], s);
      PlugAddrs(ctx[..|ctx| - 1], PlugFrame(ctx[|ctx| - 1], s));
    }
  }

  lemma PlugFrameWF(f: Frame, s: Tree)
    requires FrameOK(f)
    ensures WF(PlugFrame(f, s)) <==> FrameWF(f) && WF(s) && Occupied(s)
    ensures Occupied(PlugFrame(f, s))
  {
    var t := PlugFrame(f, s);
    assert t.kids[f.idx] == Sub(s);
    assert forall i :: 0 <= i < |f.t.kids| && i != f.idx ==> t.kids[i] == f.t.kids[i];
  }

  lemma {:induction false} PlugWF(ctx: seq<Frame>, s: Tree)
    requires CtxWF(ctx) && WF(s) && (ctx != [] ==> Occupied(s))
    ensures WF(Plug(ctx, s))
    decreases |ctx|
  {
    if ctx != [] {
      PlugFrameWF(ctx[|ctx| - 1], s);
      PlugWF(ctx[..|ctx| - 1], PlugFrame(ctx[|ctx| - 1], s));
    }
  }

  // ----------------------------------------------- searching under a context

  lemma {:induction false} EdgeIndexSorted(chars: Key, i: nat)
    requires StrictlySorted(chars) && i < |chars|
    ensures EdgeIndex(chars, chars[i]) == i
  {
    var j := EdgeIndex(chars, chars[i]);
    assert j <= i && chars[j] == chars[i];
  }

  lemma FrameGet(f: Frame, s: Tree, k: Key)
    requires FrameWF(f)
    ensures var e := EdgeOf(f.t, f.idx);
      e <= k ==> Get(PlugFrame(f, s), k) == Get(s, k[|e|..])
  {
    var e := EdgeOf(f.t, f.idx);
    if e <= k && !f.t.compr {
      EdgeIndexSorted(f.t.chars, f.idx);
    }
  }

  lemma FrameGetOff(f: Frame, s: Tree, s2: Tree, k: Key)
    requires FrameWF(f)
    requires !(EdgeOf(f.t, f.idx) <= k)
    ensures Get(PlugFrame(f, s), k) == Get(PlugFrame(f, s2), k)
  {
    if k != [] && !f.t.compr {
      assert k[..1] == [k[0]];
    }
  }

  /** A key that goes through the hole is looked up in the hole's tree. */
  lemma {:induction false} PlugGet(ctx: seq<Frame>, s: Tree, k: Key)
    requires CtxWF(ctx)
    ensures Path(ctx) <= k ==> Get(Plug(ctx, s), k) == Get(s, k[|Path(ctx)|..])
    decreases |ctx|
  {
    if ctx != [] && Path(ctx) <= k {
      var f := ctx[|ctx| - 1];
      var up := ctx[..|ctx| - 1];
      var e := EdgeOf(f.t, f.idx);
      PlugGet(up, PlugFrame(f, s), k);
      var rest := k[|Path(up)|..];
      assert Path(up) <= k;
      assert e <= rest && rest[|e|..] == k[|Path(ctx)|..];
      FrameGet(f, s, rest);
    }
  }

  lemma PrefixConcat(a: Key, b: Key, k: Key)
    ensures a + b <= k <==> a <= k && b <= k[|a|..]
  {
    if a <= k && b <= k[|a|..] {
      assert k == a + k[|a|..];
    }
  }

  /** A key that does not go through the hole does not see what is in the hole. */
  lemma {:induction false} PlugGetOff(ctx: seq<Frame>, s: Tree, s2: Tree, k: Key)
    requires CtxWF(ctx)
    requires !(Path(ctx) <= k)
    ensures Get(Plug(ctx, s), k) == Get(Plug(ctx, s2), k)
    decreases |ctx|
  {
    var f := ctx[|ctx| - 1];
    var up := ctx[..|ctx| - 1];
    var e := EdgeOf(f.t, f.idx);
    if Path(up) <= k {
      PlugGet(up, PlugFrame(f, s), k);
      PlugGet(up, PlugFrame(f, s2), k);
      var rest := k[|Path(up)|..];
      PrefixConcat(Path(up), e, k);
      FrameGetOff(f, s, s2, rest);
    } else {
      PlugGetOff(up, PlugFrame(f, s), PlugFrame(f, s2), k);
    }
  }
}
