/** Loading the vocabulary of a model file: the token strings, the merges, and the ids of the chat markers. */
module Vocabularies {
  import opened Common
  import opened LittleEndian
  import opened GgufValues
  import opened Gguf
  import GgufFile
  import H = HashTables
  import B = BytePairs
  import T = Tokenizer
  import S = ByteSymbols

  /** "tokenizer.ggml.tokens" */
  function TokensKey(): Bytes {
    T.Ascii("tokenizer.ggml.tokens")
  }

  /** "tokenizer.ggml.merges" */
  function MergesKey(): Bytes {
    T.Ascii("tokenizer.ggml.merges")
  }

  // ---------------------------------------------------- the strings of an array

  /** The n strings that stand one after the other from pos on. */
  function StringsAt(b: Bytes, pos: nat, n: nat): (r: Option<seq<Bytes>>)
    ensures r.Some? ==> |r.value| == n
    decreases n
  {
    if n == 0 then Some([])
    else
      match TextAt(b, pos)
      case None => None
      case Some(s) => Before(b[s.0..s.1], StringsAt(b, s.1, n - 1))
  }

  function Before(s: Bytes, rest: Option<seq<Bytes>>): Option<seq<Bytes>> {
    if rest.None? then None else Some([s] + rest.value)
  }

  /** The strings of the first entry with a key, when it is an array of strings. */
  function StringArray(b: Bytes, kvs: seq<Kv>, key: Bytes): Option<seq<Bytes>> {
    match GgufFile.Find(b, kvs, key)
    case None => None
    case Some(k) =>
      if k.kind != VALUE_ARRAY then None
      else
        match GgufFile.ArrayAt(b, k.valuePos)
        case None => None
        case Some(a) => if a.0 == VALUE_STRING then StringsAt(b, a.2, a.1) else None
  }

  /** Strings can be read where an array of them can be skipped, and each of them takes eight bytes or more. */
  lemma {:induction false} StringsSkip(b: Bytes, pos: nat, n: nat, depth: nat)
    requires depth < MAX_DEPTH
    ensures StringsAt(b, pos, n).Some? <==> SkipItems(b, pos, VALUE_STRING, depth, n).Some?
    ensures n > 0 && StringsAt(b, pos, n).Some? ==> pos + 8 * n <= |b|
    decreases n
  {
    hide ReadNumber;
    if n > 0 && TextAt(b, pos).Some? {
      TextLong(b, pos);
      StringsSkip(b, TextAt(b, pos).value.1, n - 1, depth);
    }
  }

  lemma TextLong(b: Bytes, pos: nat)
    requires TextAt(b, pos).Some?
    ensures TextAt(b, pos).value.0 <= TextAt(b, pos).value.1 <= |b| && pos + 8 <= TextAt(b, pos).value.1
  {
  }

  /** The value of every entry of a parsed table can be skipped. */
  lemma {:induction false} EntrySkips(b: Bytes, pos: nat, n: nat, i: nat)
    requires KvsAt(b, pos, n).Some? && i < n
    ensures var k := KvsAt(b, pos, n).value.0[i]; SkipEnd(b, k.valuePos, k.kind, 0).Some?
  {
    hide SkipEnd, TextAt, ReadNumber;
    if i < n - 1 {
      EntrySkips(b, pos, n - 1, i);
    }
  }

  lemma {:induction false} FindIsEntry(b: Bytes, kvs: seq<Kv>, key: Bytes) returns (i: nat)
    requires GgufFile.Find(b, kvs, key).Some?
    ensures i < |kvs| && GgufFile.Find(b, kvs, key) == Some(kvs[i])
  {
    hide HasKey;
    if HasKey(b, kvs[0], key) {
      i := 0;
    } else {
      i := FindIsEntry(b, kvs[1..], key);
      i := i + 1;
    }
  }

  /** An array of strings in a parsed file can be read, and is no longer than the file can hold. */
  lemma ParsedStrings(b: Bytes, key: Bytes)
    requires |b| < U64 - U32 && Parse(b).Some?
    ensures var k := GgufFile.Find(b, Parse(b).value.kvs, key);
      k.Some? && k.value.kind == VALUE_ARRAY ==>
        var a := GgufFile.ArrayAt(b, k.value.valuePos);
        a.Some? && (a.value.0 == VALUE_STRING ==> StringsAt(b, a.value.2, a.value.1).Some? && 8 * a.value.1 <= |b|)
  {
    hide KvsAt, TensorsAt, Inside, Alignment, AlignUp, StringsAt, ReadNumber, HasKey;
    var kvs := Parse(b).value.kvs;
    var k := GgufFile.Find(b, kvs, key);
    if k.Some? && k.value.kind == VALUE_ARRAY {
      var i := FindIsEntry(b, kvs, key);
      EntrySkips(b, 24, Get(b[16..24]), i);
      var a := GgufFile.ArrayAt(b, k.value.valuePos);
      if a.Some? {
        StringsSkip(b, a.value.2, a.value.1, 0);
      }
    }
  }

  // ------------------------------------------------------------ the vocabulary

  /** A C cast to a 32-bit signed integer. */
  function Int32(i: nat): int {
    if i % U32 < 0x8000_0000 then i % U32 else i % U32 - U32
  }

  /** Every string with its number. */
  function Numbered(ss: seq<Bytes>): (r: seq<(Bytes, int)>)
    ensures |r| == |ss| && forall i :: 0 <= i < |ss| ==> r[i] == (ss[i], Int32(i))
  {
    seq(|ss|, i requires 0 <= i < |ss| => (ss[i], Int32(i)))
  }

  ghost predicate HasMarkers(ids: map<Bytes, int>) {
    forall i: nat :: i < T.MARKERS ==> T.Marker(i) in ids
  }

  /** The vocabulary of a token list and a merge list; None when a marker is not among the tokens. */
  ghost function VocabOf(tokens: seq<Bytes>, merges: seq<Bytes>): Option<B.Vocab> {
    var ids := H.LastValues(Numbered(tokens));
    if !HasMarkers(ids) then None
    else
      Some(B.Vocab(tokens, ids, H.LastValues(Numbered(merges)),
                   seq(T.MARKERS, i requires 0 <= i < T.MARKERS => ids[T.Marker(i)])))
  }

  /** A string has an id exactly when it is a token, and then it is the token of that id. */
  lemma IdsAreTokens(tokens: seq<Bytes>, s: Bytes)
    requires |tokens| <= B.INT32_MAX
    ensures var ids := H.LastValues(Numbered(tokens));
      && (s in ids <==> s in tokens)
      && (s in ids ==> 0 <= ids[s] < |tokens| && tokens[ids[s]] == s)
  {
    hide H.LastValues;
    RankedIsMerge(tokens, s);
    if s in tokens {
      var i := LastOf(tokens, s);
      NumberOfLast(tokens, i);
    }
  }

  /** No later string of the list is the same. */
  ghost predicate LastAt(ss: seq<Bytes>, i: nat) {
    i < |ss| && forall j :: i < j < |ss| ==> ss[j] != ss[i]
  }

  lemma NumberOfLast(ss: seq<Bytes>, i: nat)
    requires LastAt(ss, i)
    ensures ss[i] in H.LastValues(Numbered(ss)) && H.LastValues(Numbered(ss))[ss[i]] == Int32(i)
  {
    hide H.LastValues;
    var puts := Numbered(ss);
    H.LastPutWins(puts, ss[i]);
    assert puts[i].0 == ss[i];
  }

  /** The id of a token, and the rank of a merge, is its place in the list; of several places the last. */
  lemma PlacesAreNumbers(tokens: seq<Bytes>, merges: seq<Bytes>)
    requires VocabOf(tokens, merges).Some?
    ensures var v := VocabOf(tokens, merges).value;
      && (forall i: nat :: LastAt(tokens, i) && i < 0x8000_0000 ==> i < |tokens| && Look(v.tokenToId, tokens[i]) == Some(i))
      && (forall i: nat :: LastAt(merges, i) && i < 0x8000_0000 ==> i < |merges| && Look(v.mergeRank, merges[i]) == Some(i))
  {
    hide H.LastValues, VocabOf, Numbered, LastAt;
    TablesOf(tokens, merges);
    Places(tokens);
    Places(merges);
  }

  lemma Places(ss: seq<Bytes>)
    ensures forall i: nat :: LastAt(ss, i) && i < 0x8000_0000 ==> i < |ss| && Look(H.LastValues(Numbered(ss)), ss[i]) == Some(i)
  {
    hide H.LastValues, Numbered;
    forall i: nat | LastAt(ss, i) && i < 0x8000_0000
      ensures i < |ss| && Look(H.LastValues(Numbered(ss)), ss[i]) == Some(i)
    {
      NumberOfLast(ss, i);
    }
  }

  lemma TablesOf(tokens: seq<Bytes>, merges: seq<Bytes>)
    requires VocabOf(tokens, merges).Some?
    ensures var v := VocabOf(tokens, merges).value;
      v.tokenToId == H.LastValues(Numbered(tokens)) && v.mergeRank == H.LastValues(Numbered(merges))
  {
    hide T.Marker, H.LastValues, Numbered, HasMarkers;
  }

  lemma {:induction false} LastOf(tokens: seq<Bytes>, s: Bytes) returns (i: nat)
    requires s in tokens
    ensures i < |tokens| && tokens[i] == s && forall j :: i < j < |tokens| ==> tokens[j] != s
  {
    i := |tokens| - 1;
    if tokens[i] != s {
      i := LastOf(tokens[..i], s);
    }
  }

  lemma RankedIsMerge(merges: seq<Bytes>, m: Bytes)
    ensures m in H.LastValues(Numbered(merges)) <==> m in merges
  {
    hide H.LastValues;
    H.LastPutWins(Numbered(merges), m);
    if m in merges {
      var i :| 0 <= i < |merges| && merges[i] == m;
      assert Numbered(merges)[i].0 == m;
    }
  }

  /** Every byte symbol is a token, and so is the result of every merge. */
  ghost predicate Closed(tokens: seq<Bytes>, merges: seq<Bytes>) {
    (forall b: byte :: S.Symbol(b) in tokens) && (forall m :: m in merges ==> B.MergeResult(m) in tokens)
  }

  /**
    A loaded vocabulary is what the round trips ask for: ids are ids of their strings, markers are ids of
    their texts, and it is closed under merges exactly when its lists are.
   */
  lemma VocabLoaded(tokens: seq<Bytes>, merges: seq<Bytes>)
    requires |tokens| <= B.INT32_MAX && VocabOf(tokens, merges).Some?
    ensures var v := VocabOf(tokens, merges).value;
      B.Loaded(v) && T.MarkersLoaded(v) && (B.MergeClosed(v) <==> Closed(tokens, merges))
  {
    hide T.Marker, B.MergeResult, S.Symbol;
    var v := VocabOf(tokens, merges).value;
    forall s
      ensures s in v.tokenToId <==> s in tokens
      ensures s in v.tokenToId ==> 0 <= v.tokenToId[s] < |tokens| && tokens[v.tokenToId[s]] == s
    {
      IdsAreTokens(tokens, s);
    }
    forall m
      ensures m in v.mergeRank <==> m in merges
    {
      RankedIsMerge(merges, m);
    }
  }

  /** With such lists, the tokens of any chat render to the chat. */
  lemma LoadedChatReturns(tokens: seq<Bytes>, merges: seq<Bytes>, chat: Bytes)
    requires |tokens| <= B.INT32_MAX && VocabOf(tokens, merges).Some? && Closed(tokens, merges)
    ensures var v := VocabOf(tokens, merges).value;
      |v.specials| == T.MARKERS && B.Rendered(v, T.ChatTokens(v, chat, 0, 0)) == chat
  {
    hide B.Loaded, B.MergeClosed, T.MarkersLoaded, Closed, T.ChatTokens;
    VocabLoaded(tokens, merges);
    T.ChatReturns(VocabOf(tokens, merges).value, chat, 0, 0);
    assert chat[0..] == chat;
  }

  // ---------------------------------------------------------------- vocab_load

  /** The fields of ds4_vocab. */
  datatype Tables = Tables(tokens: seq<Bytes>, tokenToId: H.Table, mergeRank: H.Table, specials: seq<int>)

  lemma Roomy(n: nat)
    requires 8 * n < U64
    ensures n * 2 + 16 <= H.Pow2(63)
  {
    assert H.Pow2(15) == 0x8000;
    H.Pow2Sum(15, 15);
    H.Pow2Sum(30, 30);
    H.Pow2Sum(60, 3);
    assert H.Pow2(3) == 8;
  }

  /** One of the two loops: reads the n strings from pos on and puts each with its number. */
  method ReadTable(m: Model, pos: nat, n: nat, hash: Bytes -> nat) returns (ok: bool, ss: seq<Bytes>, t: H.Table)
    requires n * 2 + 16 <= H.Pow2(63)
    ensures StringsAt(m.image, pos, n) == if ok then Some(ss) else None
    ensures fresh(t) && fresh(t.entries) && t.Valid() && (ok ==> t.contents == H.LastValues(Numbered(ss)))
  {
    assert Numbered([]) == [] && H.LastValues([]) == map[];
    NoneRead(m.image, pos, n);
    hide H.Pow2, H.Refines, TextAt, StringsAt, Reading, Numbered, H.LastValues;
    t := new H.Table(hash, n);
    ghost var cap := t.entries.Length;
    var c := new Cursor(m.image, pos);
    ss := [];
    ok := true;
    while |ss| < n
      invariant |ss| <= n && fresh(t) && fresh(t.entries) && t.Valid() && t.entries.Length == cap
      invariant fresh(c) && c.base == m.image && Reading(m.image, pos, n, ss, c.pos)
      invariant t.contents == H.LastValues(Numbered(ss))
    {
      var s, e;
      OneRead(m.image, pos, n, ss, c.pos);
      ok, s, e := c.String();
      if !ok {
        return;
      }
      H.FewKeys(Numbered(ss));
      t.Put(m.image[s..e], Int32(|ss|));
      NumberedMore(ss, m.image[s..e]);
      ss := ss + [m.image[s..e]];
    }
    AllRead(m.image, pos, n, ss, c.pos);
  }

  /** The strings ss were read, and the rest stand from position `at` on. */
  ghost predicate Reading(b: Bytes, start: nat, n: nat, ss: seq<Bytes>, at: nat) {
    |ss| <= n && StringsAt(b, start, n) == After(ss, StringsAt(b, at, n - |ss|))
  }

  lemma NoneRead(b: Bytes, start: nat, n: nat)
    ensures Reading(b, start, n, [], start)
  {
    var rest := StringsAt(b, start, n);
    if rest.Some? {
      assert [] + rest.value == rest.value;
    }
  }

  lemma AllRead(b: Bytes, start: nat, n: nat, ss: seq<Bytes>, at: nat)
    requires Reading(b, start, n, ss, at) && |ss| == n
    ensures StringsAt(b, start, n) == Some(ss)
  {
    assert ss + [] == ss;
  }

  lemma OneRead(b: Bytes, start: nat, n: nat, ss: seq<Bytes>, at: nat)
    requires |ss| < n && Reading(b, start, n, ss, at)
    ensures match TextAt(b, at)
      case None => StringsAt(b, start, n) == None
      case Some(s) => Reading(b, start, n, ss + [b[s.0..s.1]], s.1)
  {
    hide TextAt;
    var text := TextAt(b, at);
    if text.Some? {
      TextLong(b, at);
      var s, rest := b[text.value.0..text.value.1], StringsAt(b, text.value.1, n - |ss| - 1);
      assert StringsAt(b, at, n - |ss|) == Before(s, rest);
      if rest.Some? {
        assert ss + ([s] + rest.value) == ss + [s] + rest.value;
      }
    }
  }

  function After(ss: seq<Bytes>, rest: Option<seq<Bytes>>): Option<seq<Bytes>> {
    if rest.None? then None else Some(ss + rest.value)
  }

  lemma NumberedMore(ss: seq<Bytes>, s: Bytes)
    ensures H.LastValues(Numbered(ss + [s])) == H.LastValues(Numbered(ss))[s := Int32(|ss|)]
  {
    var puts := Numbered(ss + [s]);
    assert puts[..|puts| - 1] == Numbered(ss);
  }

  /** The loads of the markers: vocab_lookup ends the program when one is missing. */
  method LookupMarkers(t: H.Table) returns (r: Option<seq<int>>)
    requires t.Valid()
    ensures r.Some? <==> HasMarkers(t.contents)
    ensures r.Some? ==> |r.value| == T.MARKERS && forall i: nat :: i < T.MARKERS ==> r.value[i] == t.contents[T.Marker(i)]
  {
    hide T.Marker, H.Refines;
    var ids := [];
    while |ids| < T.MARKERS
      invariant |ids| <= T.MARKERS
      invariant forall i: nat :: i < |ids| ==> T.Marker(i) in t.contents && ids[i] == t.contents[T.Marker(i)]
    {
      var id := t.Get(T.Marker(|ids|));
      if id.None? {
        return None;
      }
      ids := ids + [id.value];
    }
    return Some(ids);
  }

  /** vocab_load: None when the program ends with an error. */
  method Load(m: Model, hash: Bytes -> nat) returns (r: Option<Tables>)
    requires |m.image| < U64 - U32 && Parse(m.image).Some? && Parse(m.image).value.kvs == m.kv
    ensures var tokens, merges := StringArray(m.image, m.kv, TokensKey()), StringArray(m.image, m.kv, MergesKey());
      && (r.Some? <==> tokens.Some? && |tokens.value| <= B.INT32_MAX && merges.Some?
                       && VocabOf(tokens.value, merges.value).Some?)
      && (r.Some? ==>
            var v := VocabOf(tokens.value, merges.value).value;
            var t := r.value;
            && t.tokenToId.Valid() && t.mergeRank.Valid()
            && v == B.Vocab(t.tokens, t.tokenToId.contents, t.mergeRank.contents, t.specials))
  {
    hide Parse, T.Ascii, StringsAt, H.Refines, H.Pow2, GgufFile.Find, GgufFile.ArrayAt;
    ParsedStrings(m.image, TokensKey());
    ParsedStrings(m.image, MergesKey());
    var ta := GgufFile.GetArray(m, TokensKey());
    if ta.None? || ta.value.0 != VALUE_STRING || ta.value.1 > B.INT32_MAX {
      return None;
    }
    var ma := GgufFile.GetArray(m, MergesKey());
    if ma.None? || ma.value.0 != VALUE_STRING {
      return None;
    }
    Roomy(ta.value.1);
    var ok, tokens, tokenToId := ReadTable(m, ta.value.2, ta.value.1, hash);
    if !ok {
      return None;
    }
    Roomy(ma.value.1);
    var merges, mergeRank;
    ok, merges, mergeRank := ReadTable(m, ma.value.2, ma.value.1, hash);
    if !ok {
      return None;
    }
    var specials := LookupMarkers(tokenToId);
    if specials.None? {
      return None;
    }
    return Some(Tables(tokens, tokenToId, mergeRank, specials.value));
  }

  // ------------------------------------------------------------ a written file

  /** The strings as values of an array. */
  function Texts(ss: seq<Bytes>): (r: seq<Value>)
    ensures |r| == |ss| && forall i :: 0 <= i < |ss| ==> r[i] == Text(ss[i])
  {
    seq(|ss|, i requires 0 <= i < |ss| => Text(ss[i]))
  }

  lemma {:induction false} StringsWritten(b: Bytes, pos: nat, ss: seq<Bytes>)
    requires At(b, pos, EncodeAll(Texts(ss))) && forall i :: 0 <= i < |ss| ==> |ss[i]| < U64
    ensures StringsAt(b, pos, |ss|) == Some(ss)
    decreases |ss|
  {
    hide At, TextAt;
    if ss != [] {
      assert Texts(ss)[1..] == Texts(ss[1..]);
      AtSplit(b, pos, EncodeText(ss[0]), EncodeAll(Texts(ss[1..])));
      TextWritten(b, pos, ss[0]);
      StringsWritten(b, pos + 8 + |ss[0]|, ss[1..]);
      assert [ss[0]] + ss[1..] == ss;
    }
  }

  lemma StringsOfMeta(b: Bytes, k: Kv, m: GgufFile.Meta, ss: seq<Bytes>)
    requires GgufFile.Describes(b, k, m) && GgufFile.MetaOK(m) && m.value == Array(VALUE_STRING, Texts(ss))
    ensures k.kind == VALUE_ARRAY && GgufFile.ArrayAt(b, k.valuePos) == Some((VALUE_STRING, |ss|, k.valuePos + 12))
    ensures StringsAt(b, k.valuePos + 12, |ss|) == Some(ss)
  {
    GgufFile.DecodedAgain(b, k, m);
    assert forall i :: 0 <= i < |ss| ==> Writable(Texts(ss)[i], 1);
    StringsWritten(b, k.valuePos + 12, ss);
  }

  /** What was written under a key as an array of strings is what the lookup of the key reads. */
  lemma StringsReadBack(ms: seq<GgufFile.Meta>, ts: seq<GgufFile.TensorInfo>, data: Bytes, key: Bytes, ss: seq<Bytes>)
    requires |GgufFile.FileOf(ms, ts, data)| < U64 - U32
    requires (forall i :: 0 <= i < |ms| ==> GgufFile.MetaOK(ms[i])) && (forall i :: 0 <= i < |ts| ==> GgufFile.TensorOK(ts[i]))
    requires Parse(GgufFile.FileOf(ms, ts, data)).Some? && GgufFile.Written(ms, key) == Some(Array(VALUE_STRING, Texts(ss)))
    ensures StringArray(GgufFile.FileOf(ms, ts, data), Parse(GgufFile.FileOf(ms, ts, data)).value.kvs, key) == Some(ss)
  {
    hide Parse, GgufFile.FileOf, GgufFile.MetaOK, GgufFile.TensorOK, KvsAt, TensorsAt, GgufFile.DescribesTensor, Inside;
    hide GgufFile.Find, GgufFile.FirstWith, GgufFile.ArrayAt, StringsAt, At, Encode, AlignUp, Alignment;
    var b := GgufFile.FileOf(ms, ts, data);
    GgufFile.ParseWritten(ms, ts, data);
    var kvs := Parse(b).value.kvs;
    GgufFile.FindFirst(b, kvs, ms, key);
    var j := GgufFile.FirstWith(ms, key);
    StringsOfMeta(b, kvs[j], ms[j], ss);
  }

  /** From a written file to a chat: what the loaded vocabulary makes of any chat renders to the chat. */
  method LoadWritten(ms: seq<GgufFile.Meta>, ts: seq<GgufFile.TensorInfo>, data: Bytes, hash: Bytes -> nat,
                     ghost tokens: seq<Bytes>, ghost merges: seq<Bytes>)
    returns (accepted: bool, r: Option<Tables>)
    requires |GgufFile.FileOf(ms, ts, data)| < U64 - U32
    requires (forall i :: 0 <= i < |ms| ==> GgufFile.MetaOK(ms[i])) && (forall i :: 0 <= i < |ts| ==> GgufFile.TensorOK(ts[i]))
    requires GgufFile.Written(ms, TokensKey()) == Some(Array(VALUE_STRING, Texts(tokens)))
    requires GgufFile.Written(ms, MergesKey()) == Some(Array(VALUE_STRING, Texts(merges)))
    ensures accepted <==> Parse(GgufFile.FileOf(ms, ts, data)).Some?
    ensures r.Some? <==> accepted && |tokens| <= B.INT32_MAX && forall i: nat :: i < T.MARKERS ==> T.Marker(i) in tokens
    ensures r.Some? ==>
              var v := B.Vocab(r.value.tokens, r.value.tokenToId.contents, r.value.mergeRank.contents, r.value.specials);
              && v.tokens == tokens && B.Loaded(v) && T.MarkersLoaded(v)
              && (Closed(tokens, merges) ==> forall chat :: B.Rendered(v, T.ChatTokens(v, chat, 0, 0)) == chat)
  {
    hide Parse, GgufFile.FileOf, GgufFile.MetaOK, GgufFile.TensorOK, GgufFile.Written, StringArray, TokensKey, MergesKey;
    hide B.Loaded, T.MarkersLoaded, Closed, T.ChatTokens, B.Rendered, T.Marker;
    var m := new Model(GgufFile.FileOf(ms, ts, data));
    accepted := m.Open();
    r := None;
    if accepted {
      StringsReadBack(ms, ts, data, TokensKey(), tokens);
      StringsReadBack(ms, ts, data, MergesKey(), merges);
      r := Load(m, hash);
      if |tokens| <= B.INT32_MAX {
        MarkersAreTokens(tokens);
        if r.Some? {
          VocabLoaded(tokens, merges);
          if Closed(tokens, merges) {
            forall chat: Bytes
              ensures B.Rendered(VocabOf(tokens, merges).value, T.ChatTokens(VocabOf(tokens, merges).value, chat, 0, 0)) == chat
            {
              LoadedChatReturns(tokens, merges, chat);
            }
          }
        }
      }
    }
  }

  lemma MarkersAreTokens(tokens: seq<Bytes>)
    requires |tokens| <= B.INT32_MAX
    ensures HasMarkers(H.LastValues(Numbered(tokens))) <==> forall i: nat :: i < T.MARKERS ==> T.Marker(i) in tokens
  {
    hide T.Marker;
    forall i: nat | i < T.MARKERS
      ensures T.Marker(i) in H.LastValues(Numbered(tokens)) <==> T.Marker(i) in tokens
    {
      IdsAreTokens(tokens, T.Marker(i));
    }
  }
}
