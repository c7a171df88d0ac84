/** What the place where a search for `ele` stopped says about the keys after and before it. */
module RaxSeek {
  import opened Common
  import opened RaxTree
  import opened RaxFocus
  import opened RaxEdits
  import opened LexOrder
  import opened RaxOrder

  /** The seek operators: > >= < <= = ^ $ */
  datatype Op = Greater | GreaterEq | Less | LessEq | Equal | First | Last

  function ParseOp(op: string): Option<Op> {
    if op == "" then None
    else
      var eq := |op| > 1 && op[1] == '=';
      match op[0]
      case '>' => Some(if eq then GreaterEq else Greater)
      case '<' => Some(if eq then LessEq else Less)
      case '=' => Some(Equal)
      case '^' => Some(First)
      case '$' => Some(Last)
      case _ => None
  }

  ghost function Wanted(op: Op, ele: Key): iset<Key> {
    match op
    case Greater => iset x: Key | Lt(ele, x)
    case GreaterEq => iset x: Key | !Lt(x, ele)
    case Less => iset x: Key | Lt(x, ele)
    case LessEq => iset x: Key | !Lt(ele, x)
    case Equal => iset{ele}
    case First => iset x: Key | |x| >= 0
    case Last => iset x: Key | |x| >= 0
  }

  /** Operators that look for the greatest matching key. */
  predicate Backward(op: Op) {
    op.Less? || op.LessEq? || op.Last?
  }

  /** The key an operator is to find: the least or the greatest that matches. */
  ghost predicate Sought(m: map<Key, Val>, op: Op, ele: Key, k: Key) {
    if Backward(op) then IsGreatest(m, Wanted(op, ele), k) else IsLeast(m, Wanted(op, ele), k)
  }

  /**
    Key x is one that the operator string asks for: ">" those after ele, "<" those before it, either with a
    "=" behind it also ele itself, "=" only ele, "^" and "$" any key. Nothing else starts an operator.
   */
  predicate Asked(op: string, ele: Key, x: Key) {
    && op != ""
    && var eq := |op| > 1 && op[1] == '=';
       || (op[0] == '>' && (Lt(ele, x) || (eq && x == ele)))
       || (op[0] == '<' && (Lt(x, ele) || (eq && x == ele)))
       || (op[0] == '=' && x == ele)
       || op[0] == '^' || op[0] == '$'
  }

  /** A seek ended on the greatest key asked for with "<" and "$", on the least with the others, or at the end for want of any. */
  ghost predicate Lands(m: map<Key, Val>, op: string, ele: Key, eof: bool, k: Key) {
    if eof then forall x :: x in m ==> !Asked(op, ele, x)
    else
      && k in m && Asked(op, ele, k)
      && forall x :: x in m && Asked(op, ele, x) ==> if op[0] == '<' || op[0] == '$' then !Lt(k, x) else !Lt(x, k)
  }

  /** The strings mean what they say. */
  lemma WantedIsAsked(op: string, ele: Key)
    ensures ParseOp(op).Some? <==> op != "" && op[0] in {'>', '<', '=', '^', '$'}
    ensures ParseOp(op).Some? ==> forall x :: x in Wanted(ParseOp(op).value, ele) <==> Asked(op, ele, x)
    ensures ParseOp(op).Some? ==> (Backward(ParseOp(op).value) <==> op[0] == '<' || op[0] == '$')
    ensures ParseOp(op).Some? ==> (ParseOp(op).value.Equal? <==> op[0] == '=')
  {
    forall x: Key
      ensures !(Lt(x, ele) && Lt(ele, x)) && !Lt(ele, ele)
      ensures Lt(x, ele) || Lt(ele, x) || x == ele
    {
      LtTrichotomy(x, ele);
      LtTrichotomy(ele, ele);
    }
  }

  lemma LandsRight(m: map<Key, Val>, op: string, ele: Key, eof: bool, k: Key)
    requires ParseOp(op).Some?
    requires if eof then NoneWanted(m, Wanted(ParseOp(op).value, ele)) else Sought(m, ParseOp(op).value, ele, k)
    ensures Lands(m, op, ele, eof, k)
  {
    hide ParseOp, Wanted, Asked, Backward;
    WantedIsAsked(op, ele);
  }

  /** The searched string itself, when it is a key and the operator admits equality. */
  lemma SoughtEqual(m: map<Key, Val>, op: Op, ele: Key)
    requires ele in m && (op.GreaterEq? || op.LessEq? || op.Equal?)
    ensures Sought(m, op, ele, ele)
  {
    LtTrichotomy(ele, ele);
  }

  /** Otherwise the operator wants the keys strictly after, or strictly before. */
  lemma StrictWanted(m: map<Key, Val>, op: Op, ele: Key)
    requires ele !in m || op.Greater? || op.Less?
    ensures op.Greater? || op.GreaterEq? ==> Ahead(m, Wanted(op, ele), ele)
    ensures op.Less? || op.LessEq? ==> Behind(m, Wanted(op, ele), ele)
  {
    forall x | x in m
      ensures x != ele ==> (Lt(x, ele) <==> !Lt(ele, x))
    {
      LtTrichotomy(x, ele);
    }
  }

  // ------------------------------------------ stopped at a plain node's edges

  lemma NoSuchEdge(s: Tree, c: byte, r: Key)
    requires NodeWF(s) && !s.compr && c !in s.chars && [c] <= r
    ensures Get(s, r) == None
  {
    EdgeIndexAbsent(s.chars, c);
  }

  lemma StopAtEdges(ctx: seq<Frame>, s: Tree, m: map<Key, Val>, want: iset<Key>, ele: Key, c: byte)
    requires CtxWF(ctx) && NodeWF(s) && Denotes(ctx, s, m) && !s.compr && c !in s.chars
    requires Path(ctx) + [c] <= ele
    ensures Ahead(m, want, ele) ==> Past(m, want, Path(ctx) + [c])
    ensures Behind(m, want, ele) ==> Behind(m, want, Path(ctx) + [c])
  {
    hide Denotes, Get, Path, CtxWF;
    var p := Path(ctx);
    var b := p + [c];
    var rest := ele[|b|..];
    assert ele == b + rest;
    forall x | x in m
      ensures !(b <= x)
      ensures Lt(ele, x) <==> Lt(b, x)
      ensures Lt(x, ele) <==> Lt(x, b)
    {
      PrefixConcat(p, [c], x);
      if b <= x {
        UnderNode(ctx, s, m, x);
        NoSuchEdge(s, c, x[|p|..]);
      }
      OutsideOrder(x, b, rest);
    }
  }

  // ----------------------------------- stopped inside a compressed node's string

  /** Every key under a compressed node is the node itself or starts with its string. */
  lemma UnderCompressed(ctx: seq<Frame>, s: Tree, m: map<Key, Val>, x: Key)
    requires CtxWF(ctx) && NodeWF(s) && Denotes(ctx, s, m) && s.compr && x in m && Path(ctx) <= x
    ensures x == Path(ctx) || Path(ctx) + s.chars <= x
  {
    hide Denotes, Get, Path, CtxWF;
    UnderNode(ctx, s, m, x);
    var r := x[|Path(ctx)|..];
    if r != [] {
      var j := EdgeFor(s, r);
      PrefixConcat(Path(ctx), s.chars, x);
    } else {
      assert Path(ctx) + [] == Path(ctx);
    }
  }

  /** Comparing strings that part at byte j of the first. */
  lemma PartAt(p: Key, chars: Key, j: nat, c: byte, x: Key, ele: Key)
    requires j < |chars| && chars[j] != c
    requires p + chars[..j] + [c] <= ele && p + chars <= x
    ensures chars[j] < c ==> Lt(x, ele)
    ensures chars[j] > c ==> Lt(ele, x)
  {
    var q := p + chars[..j];
    PrefixConcat(q, [c], ele);
    assert chars == chars[..j] + chars[j..];
    assert p + chars == q + chars[j..];
    PrefixConcat(q, chars[j..], x);
    var a := x[|q|..];
    var b := ele[|q|..];
    assert x == q + a && ele == q + b;
    assert a[0] == chars[j] && b[0] == c;
    LtPrefix(q, a, b);
    LtPrefix(q, b, a);
  }

  lemma StopMismatch(ctx: seq<Frame>, s: Tree, m: map<Key, Val>, want: iset<Key>, ele: Key, j: nat, c: byte)
    requires CtxWF(ctx) && NodeWF(s) && Denotes(ctx, s, m) && s.compr && j < |s.chars| && s.chars[j] != c
    requires Path(ctx) + s.chars[..j] + [c] <= ele
    ensures Ahead(m, want, ele) ==> if s.chars[j] > c then Ahead(m, want, Path(ctx)) else Past(m, want, Path(ctx) + s.chars)
    ensures Behind(m, want, ele) && s.chars[j] > c ==> Behind(m, want, Path(ctx) + s.chars)
  {
    hide Denotes, Get, Path, CtxWF;
    var p := Path(ctx);
    var b := p + s.chars;
    PrefixConcat(p, s.chars[..j] + [c], ele);
    assert p + s.chars[..j] + [c] == p + (s.chars[..j] + [c]);
    var rest := ele[|p|..];
    assert ele == p + rest && rest != [];
    forall x | x in m
      ensures s.chars[j] > c ==> (Lt(ele, x) <==> Lt(p, x))
      ensures s.chars[j] < c ==> (Lt(ele, x) <==> Beyond(x, b))
      ensures s.chars[j] > c ==> (Lt(x, ele) <==> Lt(x, b))
    {
      LtTrichotomy(x, ele);
      if p <= x {
        UnderCompressed(ctx, s, m, x);
        LtExtend(p, rest);
        LtTrichotomy(p, p);
        LtExtend(p, s.chars);
        if x != p {
          PartAt(p, s.chars, j, c, x, ele);
          assert x == b + x[|b|..];
          LtExtend(b, x[|b|..]);
          assert x == p + x[|p|..];
          LtExtend(p, x[|p|..]);
          LtTrichotomy(x, b);
        }
      } else {
        OutsideOrder(x, p, rest);
        OutsideOrder(x, p, s.chars);
        PrefixConcat(p, s.chars, x);
      }
    }
  }

  /** When the string of the node is smaller, so are all keys under it. */
  lemma StopMismatchGreatest(ctx: seq<Frame>, s: Tree, m: map<Key, Val>, want: iset<Key>, ele: Key, j: nat, c: byte, k: Key)
    requires CtxWF(ctx) && NodeWF(s) && Denotes(ctx, s, m) && s.compr && j < |s.chars| && s.chars[j] < c
    requires Path(ctx) + s.chars[..j] + [c] <= ele
    requires Behind(m, want, ele) && GreatestUnder(m, Path(ctx), k)
    ensures IsGreatest(m, want, k)
  {
    hide Denotes, Get, Path, CtxWF;
    var p := Path(ctx);
    PrefixConcat(p, s.chars[..j] + [c], ele);
    assert p + s.chars[..j] + [c] == p + (s.chars[..j] + [c]);
    var rest := ele[|p|..];
    assert ele == p + rest && rest != [];
    LtExtend(p, rest);
    forall x | x in m && p <= x
      ensures Lt(x, ele)
    {
      UnderCompressed(ctx, s, m, x);
      if x != p {
        PartAt(p, s.chars, j, c, x, ele);
      }
    }
    forall x | x in m && x in want
      ensures !Lt(k, x)
    {
      if !(p <= x) {
        OutsideOrder(x, p, rest);
        assert k == p + k[|p|..];
        OutsideOrder(x, p, k[|p|..]);
        LtTrichotomy(k, x);
      }
    }
  }

  // ------------------------------------------------------ the string ran out

  /** The string ends at the node, or inside its compressed string. */
  lemma StopNoMismatch(ctx: seq<Frame>, s: Tree, m: map<Key, Val>, want: iset<Key>, ele: Key, j: nat)
    requires CtxWF(ctx) && NodeWF(s) && Denotes(ctx, s, m)
    requires if s.compr then j < |s.chars| && ele == Path(ctx) + s.chars[..j] else j == 0 && ele == Path(ctx)
    ensures Ahead(m, want, ele) ==> Ahead(m, want, Path(ctx))
    ensures Behind(m, want, ele) && (j == 0 || Path(ctx) !in m) ==> Behind(m, want, Path(ctx))
    ensures Behind(m, want, ele) && j != 0 && Path(ctx) in m ==> IsGreatest(m, want, Path(ctx))
  {
    hide Denotes, Get, Path, CtxWF;
    var p := Path(ctx);
    if j == 0 {
      assert ele == p;
    } else {
      var e := s.chars[..j];
      LtExtend(p, e);
      forall x | x in m
        ensures Lt(ele, x) <==> Lt(p, x)
        ensures Lt(x, ele) <==> x == p || Lt(x, p)
        ensures Lt(x, p) ==> !Lt(p, x)
      {
        LtTrichotomy(x, ele);
        LtTrichotomy(x, p);
        if p <= x {
          UnderCompressed(ctx, s, m, x);
          if x != p {
            assert s.chars == e + s.chars[j..];
            assert p + s.chars == ele + s.chars[j..];
            PrefixConcat(ele, s.chars[j..], x);
            assert x == ele + x[|ele|..];
            LtExtend(ele, x[|ele|..]);
            assert x == p + x[|p|..];
            LtExtend(p, x[|p|..]);
          }
        } else {
          OutsideOrder(x, p, e);
        }
      }
      LtTrichotomy(p, p);
    }
  }

  // ----------------------------------------------------- stopped at an inline leaf

  /** The walk stopped at inline leaf k, of which ele is an extension. */
  lemma StopAtInline(ctx: seq<Frame>, s: Tree, m: map<Key, Val>, want: iset<Key>, ele: Key, i: nat)
    requires CtxWF(ctx) && NodeWF(s) && Denotes(ctx, s, m) && i < |s.kids| && s.kids[i].Leaf?
    requires Path(ctx) + EdgeOf(s, i) <= ele
    ensures var k := Path(ctx) + EdgeOf(s, i);
      && (Ahead(m, want, ele) ==> Ahead(m, want, k))
      && (Behind(m, want, ele) && k != ele ==> IsGreatest(m, want, k))
      && (Behind(m, want, ele) && k == ele ==> Behind(m, want, k))
  {
    hide Denotes, Get, Path, CtxWF;
    var k := Path(ctx) + EdgeOf(s, i);
    var rest := ele[|k|..];
    assert ele == k + rest;
    GreatestAtInline(ctx, s, m, i);
    LtExtend(k, rest);
    LtTrichotomy(k, k);
    forall x | x in m
      ensures Lt(ele, x) <==> Lt(k, x)
      ensures rest != [] ==> (Lt(x, ele) <==> x == k || Lt(x, k))
      ensures Lt(x, k) ==> !Lt(k, x)
    {
      LtTrichotomy(x, k);
      if k <= x {
        InlineIs(ctx, s, m, i, x);
      } else {
        OutsideOrder(x, k, rest);
      }
    }
    assert rest == [] ==> ele == k;
  }

  lemma InlineIs(ctx: seq<Frame>, s: Tree, m: map<Key, Val>, i: nat, x: Key)
    requires CtxWF(ctx) && NodeWF(s) && Denotes(ctx, s, m) && i < |s.kids| && s.kids[i].Leaf?
    requires x in m && Path(ctx) + EdgeOf(s, i) <= x
    ensures x == Path(ctx) + EdgeOf(s, i)
  {
    hide Denotes, Get, Path, CtxWF;
    PrefixConcat(Path(ctx), EdgeOf(s, i), x);
    UnderNode(ctx, s, m, x);
    InlineOnly(s, i, x[|Path(ctx)|..]);
  }

  // -------------------------------------------- the key spelled by the stack

  lemma {:induction false} TwoFrames(ctx: seq<Frame>, k: nat)
    requires CtxOK(ctx) && k + 1 < |ctx|
    ensures FrameAddrs(ctx[k]) + FrameAddrs(ctx[k + 1]) <= CtxAddrs(ctx)
  {
    var up := ctx[..|ctx| - 1];
    if k + 1 < |up| {
      TwoFrames(up, k);
    } else {
      CtxAddrsMember(up, k);
      assert FrameAddrs(up[k]) <= CtxAddrs(up);
    }
  }

  /** Level k of the stack: its record, and the only slot that points to the next level. */
  lemma LevelRecord(h: Heap, root: Addr, ctx: seq<Frame>, s: Tree, spare: multiset<Addr>, k: nat)
    requires Focus(h, root, ctx, s, spare) && k < |ctx|
    ensures var t := ctx[k].t;
      && t.addr in h && h[t.addr].iscompr == t.compr && h[t.addr].data == t.chars
      && FrameOK(ctx[k]) && |h[t.addr].slots| == |t.kids|
      && (!t.compr ==> |t.chars| == |t.kids|)
      && forall i :: 0 <= i < |t.kids| ==> (h[t.addr].slots[i] == Child(HoleAddr(ctx, k, s.addr)) <==> i == ctx[k].idx)
  {
    hide Rep, CtxAddrs, KidsAddrs;
    var f := ctx[k];
    var a := HoleAddr(ctx, k, s.addr);
    assert FrameRep(h, f, a) && FrameWF(f);
    forall i | 0 <= i < |f.t.kids| && i != f.idx
      ensures SlotOf(f.t.kids[i]) != Child(a)
    {
      SiblingAddrs(f, i);
      if f.t.kids[i].Sub? {
        SubAddr(f.t.kids[i].t);
        var b := f.t.kids[i].t.addr;
        assert b in FrameAddrs(f);
        if k + 1 < |ctx| {
          TwoFrames(ctx, k);
          FrameAddr(ctx[k + 1]);
          Once(h, FrameAddrs(f), FrameAddrs(ctx[k + 1]), b, a);
        } else {
          CtxAddrsMember(ctx, k);
          SubAddr(s);
          Once(h, FrameAddrs(f), Addrs(s), b, a);
        }
      }
    }
  }

  lemma SubAddr(t: Tree)
    ensures t.addr in Addrs(t)
  {
  }

  lemma FrameAddr(f: Frame)
    requires FrameOK(f)
    ensures f.t.addr in FrameAddrs(f)
  {
  }

  lemma Once(h: Heap, x: multiset<Addr>, y: multiset<Addr>, a: Addr, b: Addr)
    requires x + y <= multiset(h.Keys) && a in x && b in y
    ensures a != b
  {
    assert multiset(h.Keys)[a] <= 1;
    assert (x + y)[a] == x[a] + y[a];
  }

  lemma PathSnoc(ctx: seq<Frame>, k: nat)
    requires CtxWF(ctx) && k < |ctx|
    ensures CtxWF(ctx[..k]) && CtxWF(ctx[..k + 1]) && FrameOK(ctx[k]) && (ctx[k].t.compr || ctx[k].idx < |ctx[k].t.chars|)
    ensures Path(ctx[..k + 1]) == Path(ctx[..k]) + EdgeOf(ctx[k].t, ctx[k].idx)
  {
    assert FrameWF(ctx[k]);
    assert ctx[..k + 1][..k] == ctx[..k];
  }

  // ------------------------------------------------------------ whole maps

  /** A tree that holds a key has a child or a key at its root. */
  lemma SomeKeyOccupies(s: Tree, k: Key)
    requires NodeWF(s) && Get(s, k).Some?
    ensures Occupied(s)
  {
  }

  /** The greatest key under the root is the greatest of all. */
  lemma GreatestOfAll(m: map<Key, Val>, k: Key, ele: Key)
    requires GreatestUnder(m, [], k)
    ensures Sought(m, Last, ele, k)
  {
    assert forall x :: x in m ==> [] <= x;
  }

  /** Looking for the first key is looking for the least one that is not before the empty string. */
  lemma FirstIsLeast(m: map<Key, Val>, ele: Key)
    ensures forall k :: Sought(m, GreaterEq, [], k) ==> Sought(m, First, ele, k)
    ensures NoneWanted(m, Wanted(GreaterEq, [])) ==> NoneWanted(m, Wanted(First, ele))
  {
    assert forall x: Key :: x in Wanted(GreaterEq, []) && x in Wanted(First, ele);
  }
}
