/** Byte-pair merging of one piece of text, and the tokens it is emitted as. */
module BytePairs {
  import opened Common
  import opened ByteSymbols

  type Bytes = seq<byte>

  const SPACE: byte := 0x20
  const INT32_MAX := 0x7fff_ffff

  /**
    The vocabulary: token strings by id, ids by token string, and merge ranks by
    the two symbols joined with a space. `specials` are the ids of the seven
    chat markers, negative when one is missing.
   */
  datatype Vocab = Vocab(tokens: seq<Bytes>, tokenToId: map<Bytes, int>, mergeRank: map<Bytes, int>, specials: seq<int>)

  class TokenVec {
    var items: seq<int>

    constructor ()
      ensures items == []
    {
      items := [];
    }

    method Push(token: int)
      modifies this
      ensures items == old(items) + [token]
    {
      items := items + [token];
    }
  }

  /** bpe_rank: the rank of two adjacent symbols, -1 if they do not merge. */
  function Rank(v: Vocab, a: Bytes, b: Bytes): int {
    var key := a + [SPACE] + b;
    if key in v.mergeRank then v.mergeRank[key] else -1
  }

  /** Symbols i and i + 1 have a rank that the scan can pick. */
  predicate Mergeable(v: Vocab, syms: seq<Bytes>, i: int) {
    0 <= i && i + 1 < |syms| && 0 <= Rank(v, syms[i], syms[i + 1]) < INT32_MAX
  }

  function RankAt(v: Vocab, syms: seq<Bytes>, i: int): int
    requires 0 <= i && i + 1 < |syms|
  {
    Rank(v, syms[i], syms[i + 1])
  }

  /** Pair i has the lowest rank, and is the leftmost of that rank. */
  ghost predicate IsBest(v: Vocab, syms: seq<Bytes>, i: int) {
    && Mergeable(v, syms, i)
    && (forall j :: Mergeable(v, syms, j) ==> RankAt(v, syms, i) <= RankAt(v, syms, j))
    && (forall j :: Mergeable(v, syms, j) && j < i ==> RankAt(v, syms, i) < RankAt(v, syms, j))
  }

  function MergeAt(syms: seq<Bytes>, i: nat): (r: seq<Bytes>)
    requires i + 1 < |syms|
    ensures |r| == |syms| - 1
  {
    syms[..i] + [syms[i] + syms[i + 1]] + syms[i + 2..]
  }

  /** Merge the best pair for as long as there is one. */
  ghost function Merged(v: Vocab, syms: seq<Bytes>): seq<Bytes>
    decreases |syms|
  {
    if exists i :: IsBest(v, syms, i) then
      var i :| IsBest(v, syms, i);
      Merged(v, MergeAt(syms, i))
    else syms
  }

  lemma BestUnique(v: Vocab, syms: seq<Bytes>, i: int, j: int)
    requires IsBest(v, syms, i) && IsBest(v, syms, j)
    ensures i == j
  {
  }

  lemma MergedStep(v: Vocab, syms: seq<Bytes>, i: int)
    requires IsBest(v, syms, i)
    ensures Merged(v, syms) == Merged(v, MergeAt(syms, i))
  {
    var j :| IsBest(v, syms, j) && Merged(v, syms) == Merged(v, MergeAt(syms, j));
    BestUnique(v, syms, i, j);
  }

  /** Of several mergeable pairs there is a best one. */
  lemma {:induction false} SomeBest(v: Vocab, syms: seq<Bytes>, i: int)
    requires Mergeable(v, syms, i)
    ensures exists j :: IsBest(v, syms, j)
    decreases RankAt(v, syms, i), i
  {
    if !IsBest(v, syms, i) {
      var j :| Mergeable(v, syms, j)
               && (RankAt(v, syms, j) < RankAt(v, syms, i) || (RankAt(v, syms, j) == RankAt(v, syms, i) && j < i));
      SomeBest(v, syms, j);
    }
  }

  /** Merging stops only when no adjacent pair has a rank left. */
  lemma {:induction false} MergedIsDone(v: Vocab, syms: seq<Bytes>, k: int)
    ensures !Mergeable(v, Merged(v, syms), k)
    decreases |syms|
  {
    if i :| IsBest(v, syms, i) {
      MergedStep(v, syms, i);
      MergedIsDone(v, MergeAt(syms, i), k);
    } else if Mergeable(v, syms, k) {
      SomeBest(v, syms, k);
    }
  }

  /** Symbols i and i + 1, joined with a space, stand in the merge table under rank r. */
  ghost predicate Ranked(v: Vocab, syms: seq<Bytes>, i: nat, r: int) {
    i + 1 < |syms| && 0 <= r < 0x7fff_ffff
    && var key := syms[i] + [0x20] + syms[i + 1]; key in v.mergeRank && v.mergeRank[key] == r
  }

  /** The pair of the least rank, the leftmost if there are several, is joined first. */
  lemma LeastRankFirst(v: Vocab, syms: seq<Bytes>, i: nat, r: int)
    requires Ranked(v, syms, i, r)
    requires forall j: nat, q :: Ranked(v, syms, j, q) ==> r <= q && (j < i ==> r < q)
    ensures Merged(v, syms) == Merged(v, syms[..i] + [syms[i] + syms[i + 1]] + syms[i + 2..])
  {
    hide Merged;
    forall j | Mergeable(v, syms, j)
      ensures RankAt(v, syms, i) <= RankAt(v, syms, j) && (j < i ==> RankAt(v, syms, i) < RankAt(v, syms, j))
    {
      assert Ranked(v, syms, j, RankAt(v, syms, j));
    }
    MergedStep(v, syms, i);
  }

  lemma NoRankNoMerge(v: Vocab, syms: seq<Bytes>)
    requires forall j: nat, q :: !Ranked(v, syms, j, q)
    ensures Merged(v, syms) == syms
  {
    forall j
      ensures !Mergeable(v, syms, j)
    {
      assert 0 <= j && j + 1 < |syms| ==> !Ranked(v, syms, j, RankAt(v, syms, j));
    }
  }

  /** One scan over the adjacent pairs: the best of them, or -1. */
  method BestPair(v: Vocab, sym: array<Bytes>, n: nat) returns (best: int)
    requires n <= sym.Length
    ensures best < 0 ==> forall j :: !IsBest(v, sym[..n], j)
    ensures best >= 0 ==> IsBest(v, sym[..n], best)
  {
    ghost var syms := sym[..n];
    best := -1;
    var bestRank := INT32_MAX;
    var i := 0;
    while i + 1 < n
      invariant 0 <= i && (i < n || i == 0)
      invariant best == -1 ==> bestRank == INT32_MAX && forall j :: Mergeable(v, syms, j) ==> j >= i
      invariant best != -1 ==> 0 <= best < i && Mergeable(v, syms, best) && bestRank == RankAt(v, syms, best)
      invariant best != -1 ==> forall j :: Mergeable(v, syms, j) && j < i ==> bestRank <= RankAt(v, syms, j)
      invariant best != -1 ==> forall j :: Mergeable(v, syms, j) && j < best ==> bestRank < RankAt(v, syms, j)
    {
      var rank := Rank(v, sym[i], sym[i + 1]);
      assert rank == RankAt(v, syms, i);
      if 0 <= rank < bestRank {
        best, bestRank := i, rank;
      }
      i := i + 1;
    }
  }

  lemma NothingToMerge(v: Vocab, syms: seq<Bytes>)
    requires forall i :: !IsBest(v, syms, i)
    ensures Merged(v, syms) == syms
  {
  }

  lemma BestIsPair(v: Vocab, syms: seq<Bytes>, i: int)
    requires IsBest(v, syms, i)
    ensures 0 <= i && i + 1 < |syms|
  {
  }

  /** The merge loop of bpe_emit_piece, in place; n symbols are left. */
  method MergePairs(v: Vocab, sym: array<Bytes>, n0: nat) returns (n: nat)
    requires n0 <= sym.Length
    modifies sym
    ensures n <= sym.Length && sym[..n] == Merged(v, old(sym[..n0]))
  {
    hide Merged, IsBest;
    n := n0;
    while true
      invariant n <= sym.Length && Merged(v, sym[..n]) == Merged(v, old(sym[..n0]))
      decreases n
    {
      var best := BestPair(v, sym, n);
      if best < 0 {
        NothingToMerge(v, sym[..n]);
        return;
      }
      ghost var before := sym[..n];
      BestIsPair(v, before, best);
      sym[best] := sym[best] + sym[best + 1];
      CloseGap(sym, best + 1, n);
      n := n - 1;
      assert sym[..n] == MergeAt(before, best);
      MergedStep(v, before, best);
    }
  }

  /** Moves everything behind position i one place to the left. */
  method CloseGap(sym: array<Bytes>, i: nat, n: nat)
    requires i < n <= sym.Length
    modifies sym
    ensures sym[..n - 1] == old(sym[..i] + sym[i + 1..n])
  {
    var j := i;
    while j + 1 < n
      invariant i <= j < n
      invariant forall k :: 0 <= k < i ==> sym[k] == old(sym[k])
      invariant forall k :: i <= k < j ==> sym[k] == old(sym[k + 1])
      invariant forall k :: j <= k < n ==> sym[k] == old(sym[k])
    {
      sym[j] := sym[j + 1];
      j := j + 1;
    }
  }

  // -------------------------------------------------------------- one piece

  /** One symbol per byte. */
  function Symbols(x: Bytes): (r: seq<Bytes>)
    ensures |r| == |x|
  {
    seq(|x|, i requires 0 <= i < |x| => Symbol(x[i]))
  }

  /** The single bytes of a symbol that has no token; those without a token are dropped. */
  function ByteTokens(v: Vocab, s: Bytes): seq<int> {
    if s == [] then []
    else (if [s[0]] in v.tokenToId then [v.tokenToId[[s[0]]]] else []) + ByteTokens(v, s[1..])
  }

  function SymbolTokens(v: Vocab, s: Bytes): seq<int> {
    if s in v.tokenToId then [v.tokenToId[s]] else ByteTokens(v, s)
  }

  function Emitted(v: Vocab, syms: seq<Bytes>): seq<int> {
    if syms == [] then [] else SymbolTokens(v, syms[0]) + Emitted(v, syms[1..])
  }

  /** The tokens of one piece of text. */
  ghost function PieceTokens(v: Vocab, x: Bytes): seq<int> {
    Emitted(v, Merged(v, Symbols(x)))
  }

  /** Symbols that are tokens are emitted as their ids, one for one. */
  lemma {:induction false} EmittedIds(v: Vocab, syms: seq<Bytes>)
    requires forall i :: 0 <= i < |syms| ==> syms[i] in v.tokenToId
    ensures |Emitted(v, syms)| == |syms| && forall i :: 0 <= i < |syms| ==> Emitted(v, syms)[i] == v.tokenToId[syms[i]]
  {
    if syms != [] {
      EmittedIds(v, syms[1..]);
    }
  }

  /** The ids are those of the bytes of s that are tokens, each once and in order; `at` says where they stand. */
  ghost predicate Picks(v: Vocab, s: Bytes, at: seq<nat>, ids: seq<int>) {
    && |ids| == |at|
    && (forall k :: 0 <= k < |at| ==> at[k] < |s| && Look(v.tokenToId, [s[at[k]]]) == Some(ids[k]))
    && (forall j, k :: 0 <= j < k < |at| ==> at[j] < at[k])
    && (forall i: nat :: i < |s| && [s[i]] in v.tokenToId ==> i in at)
  }

  /** A symbol that is no token is emitted as the ids of those of its bytes that are tokens. */
  lemma EmittedBytes(v: Vocab, s: Bytes)
    requires s !in v.tokenToId
    ensures exists at :: Picks(v, s, at, Emitted(v, [s]))
  {
    var at := BytesEmitted(v, s);
    assert [s][1..] == [];
    assert Emitted(v, [s]) == ByteTokens(v, s);
  }

  lemma {:induction false} BytesEmitted(v: Vocab, s: Bytes) returns (at: seq<nat>)
    ensures Picks(v, s, at, ByteTokens(v, s))
  {
    at := [];
    if s != [] {
      var n := |s| - 1;
      ByteTokensLast(v, s);
      at := BytesEmitted(v, s[..n]);
      PicksMore(v, s, at, ByteTokens(v, s[..n]));
      if [s[n]] in v.tokenToId {
        at := at + [n];
      }
    }
  }

  lemma {:induction false} ByteTokensLast(v: Vocab, s: Bytes)
    requires s != []
    ensures ByteTokens(v, s) == ByteTokens(v, s[..|s| - 1]) + if [s[|s| - 1]] in v.tokenToId then [v.tokenToId[[s[|s| - 1]]]] else []
  {
    if |s| > 1 {
      ByteTokensLast(v, s[1..]);
      assert s[1..][..|s| - 2] == s[..|s| - 1][1..];
    }
  }

  lemma PicksMore(v: Vocab, s: Bytes, at: seq<nat>, ids: seq<int>)
    requires s != [] && Picks(v, s[..|s| - 1], at, ids)
    ensures var n := |s| - 1;
      if [s[n]] in v.tokenToId then Picks(v, s, at + [n], ids + [v.tokenToId[[s[n]]]]) else Picks(v, s, at, ids)
  {
    var n := |s| - 1;
    if [s[n]] in v.tokenToId {
      forall i: nat | i < |s| && [s[i]] in v.tokenToId
        ensures i in at + [n]
      {
        if i < n {
          assert s[..n][i] == s[i];
        }
      }
    } else {
      forall i: nat | i < |s| && [s[i]] in v.tokenToId
        ensures i in at
      {
        assert s[..n][i] == s[i];
      }
    }
  }

  /** Cuts the encoded piece into symbols by their first bytes. */
  method SplitSymbols(encoded: Bytes, ghost x: Bytes) returns (sym: array<Bytes>, n: nat)
    requires encoded == Encode(x)
    ensures fresh(sym) && n <= sym.Length && sym[..n] == Symbols(x)
  {
    hide Encode, Utf8Length, Symbol;
    sym := new Bytes[|encoded|];
    n := 0;
    var off := 0;
    EncodedLength(x);
    assert encoded[0..] == encoded && x[0..] == x;
    while off < |encoded|
      invariant 0 <= off <= |encoded| && n <= |x| && n <= off
      invariant encoded[off..] == Encode(x[n..])
      invariant forall k :: 0 <= k < n ==> sym[k] == Symbol(x[k])
      decreases |encoded| - off
    {
      NextSymbol(x, encoded, n, off);
      var end := CharEnd(encoded, off);
      sym[n] := encoded[off..end];
      n, off := n + 1, end;
    }
    EncodedLength(x[n..]);
    assert sym[..n] == Symbols(x);
  }

  lemma NextSymbol(x: Bytes, encoded: Bytes, n: nat, off: nat)
    requires n <= |x| && off < |encoded| && encoded[off..] == Encode(x[n..])
    ensures n < |x|
    ensures var end := CharEnd(encoded, off);
      encoded[off..end] == Symbol(x[n]) && encoded[end..] == Encode(x[n + 1..])
  {
    var e, y := encoded[off..], x[n..];
    assert e[0] == encoded[off] && y != [] && y[1..] == x[n + 1..];
    SymbolRead(y[0], Encode(y[1..]));
    var w := |Symbol(y[0])|;
    assert e[..w] == Symbol(y[0]) && e[w..] == Encode(y[1..]);
    assert e[..w] == encoded[off..off + w] && e[w..] == encoded[off + w..];
  }

  lemma {:induction false} EncodedLength(x: Bytes)
    ensures |Encode(x)| >= |x|
  {
    if x != [] {
      EncodedLength(x[1..]);
    }
  }

  method EmitBytes(v: Vocab, s: Bytes, out: TokenVec)
    modifies out
    ensures out.items == old(out.items) + ByteTokens(v, s)
  {
    var j := 0;
    assert s[0..] == s;
    while j < |s|
      invariant 0 <= j <= |s|
      invariant out.items + ByteTokens(v, s[j..]) == old(out.items) + ByteTokens(v, s)
    {
      assert s[j..][1..] == s[j + 1..];
      if [s[j]] in v.tokenToId {
        out.Push(v.tokenToId[[s[j]]]);
      }
      j := j + 1;
    }
  }

  /** Pushes the tokens of the n symbols that are left. */
  method EmitSymbols(v: Vocab, sym: array<Bytes>, n: nat, out: TokenVec)
    requires n <= sym.Length
    modifies out
    ensures out.items == old(out.items) + Emitted(v, old(sym[..n]))
  {
    hide ByteTokens;
    ghost var syms := sym[..n];
    var i := 0;
    assert syms[0..] == syms;
    while i < n
      invariant 0 <= i <= n && sym[..n] == syms
      invariant out.items + Emitted(v, syms[i..]) == old(out.items) + Emitted(v, syms)
    {
      assert syms[i..][1..] == syms[i + 1..];
      if sym[i] in v.tokenToId {
        out.Push(v.tokenToId[sym[i]]);
      } else {
        EmitBytes(v, sym[i], out);
      }
      i := i + 1;
    }
  }

  /** bpe_emit_piece: encode, cut into symbols, merge, and push the tokens. */
  method EmitPiece(v: Vocab, piece: Bytes, out: TokenVec)
    modifies out
    ensures out.items == old(out.items) + PieceTokens(v, piece)
  {
    hide Merged, Emitted;
    var encoded := ByteEncode(piece);
    var sym, n := SplitSymbols(encoded, piece);
    n := MergePairs(v, sym, n);
    EmitSymbols(v, sym, n, out);
  }

  // ------------------------------------------------------- reading it back

  /** The UTF-8 bytes of the fullwidth bar stand at position i. */
  predicate BarAt(s: Bytes, i: int) {
    0 <= i && i + 3 <= |s| && s[i..i + 3] == [0xef, 0xbd, 0x9c]
  }

  /** vocab_token_is_literal_special: the token holds a fullwidth bar. */
  ghost predicate HoldsBar(s: Bytes) {
    exists i :: BarAt(s, i)
  }

  /** ds4_token_text */
  ghost function TokenText(v: Vocab, id: int): Bytes {
    if id < 0 || id >= |v.tokens| then []
    else if HoldsBar(v.tokens[id]) then v.tokens[id]
    else Decode(v.tokens[id])
  }

  /** The texts of the tokens, one after the other. */
  ghost function Rendered(v: Vocab, ids: seq<int>): Bytes {
    if ids == [] then [] else TokenText(v, ids[0]) + Rendered(v, ids[1..])
  }

  method FindBar(s: Bytes) returns (found: bool)
    ensures found == HoldsBar(s)
  {
    if |s| < 3 {
      return false;
    }
    var i := 0;
    while i + 3 <= |s|
      invariant 0 <= i
      invariant forall k :: BarAt(s, k) ==> k >= i
    {
      if s[i..i + 3] == [0xef, 0xbd, 0x9c] {
        assert BarAt(s, i);
        return true;
      }
      i := i + 1;
    }
    return false;
  }

  method GetTokenText(v: Vocab, token: int) returns (text: Bytes)
    ensures text == TokenText(v, token)
  {
    if token < 0 || token >= |v.tokens| {
      return [];
    }
    var s := v.tokens[token];
    var bar := FindBar(s);
    if bar {
      return s;
    }
    text := DecodeText(s);
  }

  /** ds4_kvstore_render_tokens_text */
  method RenderTokens(v: Vocab, ids: seq<int>) returns (text: Bytes)
    ensures text == Rendered(v, ids)
  {
    hide TokenText;
    text := [];
    assert ids[0..] == ids;
    for i := 0 to |ids|
      invariant text + Rendered(v, ids[i..]) == Rendered(v, ids)
    {
      assert ids[i..][1..] == ids[i + 1..];
      var piece := GetTokenText(v, ids[i]);
      text := text + piece;
    }
  }

  lemma {:induction false} RenderedConcat(v: Vocab, a: seq<int>, b: seq<int>)
    ensures Rendered(v, a + b) == Rendered(v, a) + Rendered(v, b)
  {
    if a == [] {
      assert a + b == b;
    } else {
      assert (a + b)[1..] == a[1..] + b;
      RenderedConcat(v, a[1..], b);
    }
  }

  // ------------------------------------------------------- what is assumed

  /** A merge string without its first space: the symbol the merge makes. */
  function MergeResult(m: Bytes): Bytes {
    if m == [] then [] else if m[0] == SPACE then m[1..] else [m[0]] + MergeResult(m[1..])
  }

  /** Looking up a token string gives an id of that string, as loading the table makes sure. */
  ghost predicate Loaded(v: Vocab) {
    forall s :: s in v.tokenToId ==> 0 <= v.tokenToId[s] < |v.tokens| && v.tokens[v.tokenToId[s]] == s
  }

  /** Every byte symbol is a token, and so is every merge result. */
  ghost predicate MergeClosed(v: Vocab) {
    && (forall b: byte :: Symbol(b) in v.tokenToId)
    && (forall m :: m in v.mergeRank ==> MergeResult(m) in v.tokenToId)
  }

  // ----------------------------------------------------- pieces come back

  ghost predicate Encoded(s: Bytes) {
    Encode(Decode(s)) == s
  }

  /** The symbols encode x, cut somewhere, and each of them is a token. */
  ghost predicate Spells(v: Vocab, syms: seq<Bytes>, x: Bytes) {
    (forall k :: 0 <= k < |syms| ==> Encoded(syms[k]) && syms[k] in v.tokenToId) && Text(syms) == x
  }

  ghost function Text(syms: seq<Bytes>): Bytes {
    if syms == [] then [] else Decode(syms[0]) + Text(syms[1..])
  }

  lemma {:induction false} TextConcat(a: seq<Bytes>, b: seq<Bytes>)
    ensures Text(a + b) == Text(a) + Text(b)
  {
    if a == [] {
      assert a + b == b;
    } else {
      assert (a + b)[1..] == a[1..] + b;
      TextConcat(a[1..], b);
    }
  }

  /** Joining two encoded symbols joins what they spell. */
  lemma JoinEncoded(a: Bytes, b: Bytes)
    requires Encoded(a) && Encoded(b)
    ensures Encoded(a + b) && Decode(a + b) == Decode(a) + Decode(b)
  {
    EncodeConcat(Decode(a), Decode(b));
    DecodeEncode(Decode(a) + Decode(b));
  }

  lemma {:induction false} SpacelessResult(a: Bytes, b: Bytes)
    requires SPACE !in a
    ensures MergeResult(a + [SPACE] + b) == a + b
  {
    var m := a + [SPACE] + b;
    if a == [] {
      assert m[0] == SPACE && m[1..] == b && a + b == b;
    } else {
      assert m[0] == a[0] && m[1..] == a[1..] + [SPACE] + b;
      SpacelessResult(a[1..], b);
      assert [a[0]] + (a[1..] + b) == a + b;
    }
  }

  lemma MergeSpells(v: Vocab, syms: seq<Bytes>, i: nat, x: Bytes)
    requires MergeClosed(v) && Spells(v, syms, x) && Mergeable(v, syms, i)
    ensures Spells(v, MergeAt(syms, i), x)
  {
    hide Encode, Decode;
    var a, b := syms[i], syms[i + 1];
    JoinEncoded(a, b);
    EncodeBytes(Decode(a));
    SpacelessResult(a, b);
    assert a + [SPACE] + b in v.mergeRank;
    var m := MergeAt(syms, i);
    MergeText(syms, i, a + b);
    forall k | 0 <= k < |m|
      ensures Encoded(m[k]) && m[k] in v.tokenToId
    {
      assert m[k] == if k < i then syms[k] else if k == i then a + b else syms[k + 1];
    }
  }

  /** Replacing two neighbours by one symbol that spells both. */
  lemma MergeText(syms: seq<Bytes>, i: nat, c: Bytes)
    requires i + 1 < |syms| && Decode(c) == Decode(syms[i]) + Decode(syms[i + 1])
    ensures Text(syms[..i] + [c] + syms[i + 2..]) == Text(syms)
  {
    hide Decode, Text;
    var a, b, p, q := syms[i], syms[i + 1], syms[..i], syms[i + 2..];
    TextThree(p, [c], q);
    TextThree(p, [a] + [b], q);
    TextConcat([a], [b]);
    TextOne(a);
    TextOne(b);
    TextOne(c);
    Around(syms, i);
  }

  lemma Around(s: seq<Bytes>, i: nat)
    requires i + 1 < |s|
    ensures s == s[..i] + ([s[i]] + [s[i + 1]]) + s[i + 2..]
  {
  }

  lemma TextOne(a: Bytes)
    ensures Text([a]) == Decode(a)
  {
    assert Text([a][1..]) == [];
  }

  lemma TextThree(p: seq<Bytes>, m: seq<Bytes>, q: seq<Bytes>)
    ensures Text(p + m + q) == Text(p) + Text(m) + Text(q)
  {
    TextConcat(p + m, q);
    TextConcat(p, m);
  }

  lemma {:induction false} MergedSpells(v: Vocab, syms: seq<Bytes>, x: Bytes)
    requires MergeClosed(v) && Spells(v, syms, x)
    ensures Spells(v, Merged(v, syms), x)
    decreases |syms|
  {
    if i :| IsBest(v, syms, i) {
      MergedStep(v, syms, i);
      MergeSpells(v, syms, i, x);
      MergedSpells(v, MergeAt(syms, i), x);
    }
  }

  lemma {:induction false} SymbolsSpell(v: Vocab, x: Bytes)
    requires MergeClosed(v)
    ensures Spells(v, Symbols(x), x)
  {
    hide Encoded, Symbol, Decode;
    if x != [] {
      SymbolsSpell(v, x[1..]);
      assert Symbols(x) == [Symbol(x[0])] + Symbols(x[1..]);
      SymbolEncoded(x[0]);
    }
  }

  lemma SymbolEncoded(b: byte)
    ensures Encoded(Symbol(b)) && Decode(Symbol(b)) == [b]
  {
    assert Encode([b]) == Symbol(b);
    DecodeEncode([b]);
  }

  lemma NoBar(s: Bytes)
    requires Encoded(s)
    ensures !HoldsBar(s)
  {
    EncodeBytes(Decode(s));
    forall i
      ensures !BarAt(s, i)
    {
      if 0 <= i && i + 3 <= |s| {
        assert s[i..i + 3][0] == s[i];
      }
    }
  }

  lemma {:induction false} SpelledTokens(v: Vocab, syms: seq<Bytes>, x: Bytes)
    requires Loaded(v) && Spells(v, syms, x)
    ensures Rendered(v, Emitted(v, syms)) == x
  {
    if syms != [] {
      var id := v.tokenToId[syms[0]];
      NoBar(syms[0]);
      SpelledTokens(v, syms[1..], Text(syms[1..]));
      RenderedConcat(v, [id], Emitted(v, syms[1..]));
      assert [id][1..] == [];
    }
  }

  /** The tokens of a piece render to the piece. */
  lemma PieceReturns(v: Vocab, x: Bytes)
    requires Loaded(v) && MergeClosed(v)
    ensures Rendered(v, PieceTokens(v, x)) == x
  {
    SymbolsSpell(v, x);
    MergedSpells(v, Symbols(x), x);
    SpelledTokens(v, Merged(v, Symbols(x)), x);
  }
}
