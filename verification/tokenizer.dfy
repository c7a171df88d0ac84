/** Tokenizing plain text and rendered chats, and reading the tokens back. */
module Tokenizer {
  import opened Common
  import opened ByteSymbols
  import opened BytePairs
  import opened PreTokenizer

  // ------------------------------------------------------------- plain text

  /** The tokens of text s from position pos on, piece by piece. */
  ghost function TextTokens(v: Vocab, s: Bytes, pos: nat): seq<int>
    requires pos <= |s|
    decreases |s| - pos
  {
    if pos == |s| then []
    else PieceTokens(v, s[pos..PieceEnd(s, pos)]) + TextTokens(v, s, PieceEnd(s, pos))
  }

  /** bpe_tokenize_text; s holds the bytes up to the terminating NUL. */
  method TokenizeText(v: Vocab, s: Bytes, out: TokenVec)
    modifies out
    ensures out.items == old(out.items) + TextTokens(v, s, 0)
  {
    hide PieceTokens, Branch;
    var pos := 0;
    while pos < |s|
      invariant 0 <= pos <= |s|
      invariant out.items + TextTokens(v, s, pos) == old(out.items) + TextTokens(v, s, 0)
      decreases |s| - pos
    {
      var start := pos;
      pos := ScanPiece(s, start);
      if pos == start {
        pos := CharEnd(s, start);
      }
      EmitPiece(v, s[start..pos], out);
    }
  }

  /** Detokenizing undoes tokenizing. */
  lemma {:induction false} TextReturns(v: Vocab, s: Bytes, pos: nat)
    requires Loaded(v) && MergeClosed(v) && pos <= |s|
    ensures Rendered(v, TextTokens(v, s, pos)) == s[pos..]
    decreases |s| - pos
  {
    hide Loaded, MergeClosed, PieceTokens, PieceEnd;
    if pos < |s| {
      var end := PieceEnd(s, pos);
      PieceReturns(v, s[pos..end]);
      TextReturns(v, s, end);
      RenderedConcat(v, PieceTokens(v, s[pos..end]), TextTokens(v, s, end));
      assert s[pos..] == s[pos..end] + s[end..];
    }
  }

  /** The tokens of pieces, one piece after the other. */
  ghost function AllTokens(v: Vocab, pieces: seq<Bytes>): seq<int> {
    if pieces == [] then [] else PieceTokens(v, pieces[0]) + AllTokens(v, pieces[1..])
  }

  /** A text is cut at its beginning, where each piece ends, and at its end, and its tokens are those of the pieces. */
  lemma {:induction false} TextPieces(v: Vocab, s: Bytes, pos: nat) returns (cuts: seq<nat>, pieces: seq<Bytes>)
    requires pos <= |s|
    ensures |cuts| == |pieces| + 1 && cuts[0] == pos && cuts[|pieces|] == |s|
    ensures forall k :: 0 <= k < |pieces| ==> CutAt(s, cuts[k], cuts[k + 1], pieces[k])
    ensures TextTokens(v, s, pos) == AllTokens(v, pieces)
    decreases |s| - pos
  {
    hide PieceTokens, PieceEnd;
    cuts, pieces := [pos], [];
    if pos < |s| {
      var end := PieceEnd(s, pos);
      var c, p := TextPieces(v, s, end);
      cuts, pieces := [pos] + c, [s[pos..end]] + p;
    }
  }

  ghost predicate CutAt(s: Bytes, p: nat, q: nat, piece: Bytes) {
    p < |s| && q == PieceEnd(s, p) && piece == s[p..q]
  }

  // ------------------------------------------------------------ chat markers

  const BAR: Bytes := [0xef, 0xbd, 0x9c]
  const BLOCK: Bytes := [0xe2, 0x96, 0x81]
  const MARKERS := 7

  function Ascii(s: string): (r: Bytes)
    requires forall i :: 0 <= i < |s| ==> s[i] as int < 128
    ensures |r| == |s| && forall i :: 0 <= i < |s| ==> r[i] == s[i] as int
  {
    seq(|s|, i requires 0 <= i < |s| => s[i] as int)
  }

  /** The texts of the special tokens, in the order in which they are tried. */
  function Marker(i: nat): Bytes
    requires i < MARKERS
  {
    match i
    case 0 => Ascii("<") + BAR + Ascii("begin") + BLOCK + Ascii("of") + BLOCK + Ascii("sentence") + BAR + Ascii(">")
    case 1 => Ascii("<") + BAR + Ascii("end") + BLOCK + Ascii("of") + BLOCK + Ascii("sentence") + BAR + Ascii(">")
    case 2 => Ascii("<") + BAR + Ascii("User") + BAR + Ascii(">")
    case 3 => Ascii("<") + BAR + Ascii("Assistant") + BAR + Ascii(">")
    case 4 => Ascii("<think>")
    case 5 => Ascii("</think>")
    case 6 => BAR + Ascii("DSML") + BAR
  }

  /** The marker ids that are set are ids of the marker texts. */
  ghost predicate MarkersLoaded(v: Vocab) {
    && |v.specials| == MARKERS
    && forall i: nat :: i < MARKERS ==> v.specials[i] < 0 || (v.specials[i] < |v.tokens| && v.tokens[v.specials[i]] == Marker(i))
  }

  predicate Matches(v: Vocab, s: Bytes, p: nat, i: nat)
    requires |v.specials| == MARKERS && p <= |s|
  {
    i < MARKERS && v.specials[i] >= 0 && Marker(i) <= s[p..]
  }

  /** The first marker from number i on that stands at position p. */
  function MarkerAt(v: Vocab, s: Bytes, p: nat, i: nat): (r: Option<nat>)
    requires |v.specials| == MARKERS && p <= |s| && i <= MARKERS
    ensures r.Some? ==> i <= r.value && Matches(v, s, p, r.value)
    ensures forall k: nat :: i <= k < (if r.Some? then r.value else MARKERS) ==> !Matches(v, s, p, k)
    decreases MARKERS - i
  {
    if i == MARKERS then None
    else if Matches(v, s, p, i) then Some(i)
    else MarkerAt(v, s, p, i + 1)
  }

  /** special_token_at: the first marker that stands at position p. */
  method SpecialAt(v: Vocab, s: Bytes, p: nat) returns (r: Option<nat>)
    requires |v.specials| == MARKERS && p <= |s|
    ensures r == MarkerAt(v, s, p, 0)
  {
    hide Marker, Matches;
    var i := 0;
    while i < MARKERS
      invariant 0 <= i <= MARKERS && MarkerAt(v, s, p, i) == MarkerAt(v, s, p, 0)
    {
      MatchIs(v, s, p, i);
      if v.specials[i] >= 0 {
        var m := Marker(i);
        if p + |m| <= |s| && s[p..p + |m|] == m {
          return Some(i);
        }
      }
      i := i + 1;
    }
    return None;
  }

  lemma MatchIs(v: Vocab, s: Bytes, p: nat, i: nat)
    requires |v.specials| == MARKERS && p <= |s| && i < MARKERS
    ensures var m := Marker(i);
      Matches(v, s, p, i) <==> v.specials[i] >= 0 && p + |m| <= |s| && s[p..p + |m|] == m
  {
    hide Marker;
    var m := Marker(i);
    if p + |m| <= |s| {
      assert s[p..][..|m|] == s[p..p + |m|];
    }
  }

  lemma MarkerNotEmpty(i: nat)
    requires i < MARKERS
    ensures Marker(i) != []
  {
  }

  // ----------------------------------------------------------- rendered chats

  /** The tokens of a rendered chat from position p on, when plain text has piled up since `span`. */
  ghost function ChatTokens(v: Vocab, s: Bytes, span: nat, p: nat): seq<int>
    requires |v.specials| == MARKERS && span <= p <= |s|
    decreases |s| - p
  {
    if p == |s| then TextTokens(v, s[span..p], 0)
    else
      match MarkerAt(v, s, p, 0)
      case Some(i) =>
        MarkerNotEmpty(i);
        var q := p + |Marker(i)|;
        TextTokens(v, s[span..p], 0) + [v.specials[i]] + ChatTokens(v, s, q, q)
      case None => ChatTokens(v, s, span, p + 1)
  }

  method TokenizeSpan(v: Vocab, s: Bytes, out: TokenVec)
    modifies out
    ensures out.items == old(out.items) + TextTokens(v, s, 0)
  {
    if |s| == 0 {
      return;
    }
    TokenizeText(v, s, out);
  }

  /** tokenize_rendered_chat_vocab: markers become their own tokens, the text between them is tokenized. */
  method TokenizeChat(v: Vocab, s: Bytes, out: TokenVec)
    requires |v.specials| == MARKERS
    modifies out
    ensures out.items == old(out.items) + ChatTokens(v, s, 0, 0)
  {
    hide Marker, Matches, TextTokens, MarkerAt;
    var span, p := 0, 0;
    while p < |s|
      invariant 0 <= span <= p <= |s|
      invariant out.items + ChatTokens(v, s, span, p) == old(out.items) + ChatTokens(v, s, 0, 0)
      decreases |s| - p
    {
      var m := SpecialAt(v, s, p);
      if m.Some? {
        MatchFits(v, s, p);
        TokenizeSpan(v, s[span..p], out);
        out.Push(v.specials[m.value]);
        p := p + |Marker(m.value)|;
        span := p;
      } else {
        p := p + 1;
      }
    }
    TokenizeSpan(v, s[span..p], out);
  }

  lemma MatchFits(v: Vocab, s: Bytes, p: nat)
    requires |v.specials| == MARKERS && p < |s|
    ensures var r := MarkerAt(v, s, p, 0);
      r.Some? ==> r.value < MARKERS && v.specials[r.value] >= 0
                  && p < p + |Marker(r.value)| <= |s| && s[p..p + |Marker(r.value)|] == Marker(r.value)
  {
    hide Marker;
    var r := MarkerAt(v, s, p, 0);
    if r.Some? {
      MatchIs(v, s, p, r.value);
      MarkerNotEmpty(r.value);
    }
  }

  /** Marker i is set and stands at position p. */
  ghost predicate Stands(v: Vocab, s: Bytes, p: nat, i: nat)
    requires |v.specials| == MARKERS && i < MARKERS
  {
    v.specials[i] >= 0 && p + |Marker(i)| <= |s| && s[p..p + |Marker(i)|] == Marker(i)
  }

  lemma MarkerStands(v: Vocab, s: Bytes, p: nat)
    requires |v.specials| == MARKERS && p <= |s|
    ensures var r := MarkerAt(v, s, p, 0);
      if r.Some? then Stands(v, s, p, r.value) && forall i: nat :: i < r.value ==> !Stands(v, s, p, i)
      else forall i: nat :: i < MARKERS ==> !Stands(v, s, p, i)
  {
    hide Marker, Matches;
    forall i: nat | i < MARKERS
      ensures Matches(v, s, p, i) <==> Stands(v, s, p, i)
    {
      MatchIs(v, s, p, i);
    }
    MarkerInRange(v, s, p);
  }

  lemma MarkerInRange(v: Vocab, s: Bytes, p: nat)
    requires |v.specials| == MARKERS && p <= |s|
    ensures MarkerAt(v, s, p, 0).Some? ==> MarkerAt(v, s, p, 0).value < MARKERS
  {
    hide Marker;
  }

  /** Without markers a chat is plain text. */
  lemma {:induction false} PlainChat(v: Vocab, s: Bytes, span: nat, p: nat)
    requires |v.specials| == MARKERS && span <= p <= |s|
    requires forall q: nat, i: nat :: p <= q < |s| && i < MARKERS ==> !Stands(v, s, q, i)
    ensures ChatTokens(v, s, span, p) == TextTokens(v, s[span..], 0)
    decreases |s| - p
  {
    hide Marker, MarkerAt, Stands, TextTokens;
    if p < |s| {
      MarkerStands(v, s, p);
      PlainChat(v, s, span, p + 1);
    } else {
      assert s[span..p] == s[span..];
    }
  }

  /** The first marker cuts the chat: the text before it, its own token, and the rest as a chat of its own. */
  lemma {:induction false} MarkerCuts(v: Vocab, s: Bytes, span: nat, p: nat, at: nat, i: nat)
    requires |v.specials| == MARKERS && span <= p <= at < |s| && i < MARKERS && Stands(v, s, at, i)
    requires forall q: nat, k: nat :: p <= q < at && k < MARKERS ==> !Stands(v, s, q, k)
    requires forall k: nat :: k < i ==> !Stands(v, s, at, k)
    ensures var q := at + |Marker(i)|;
      q <= |s| && ChatTokens(v, s, span, p) == TextTokens(v, s[span..at], 0) + [v.specials[i]] + ChatTokens(v, s, q, q)
    decreases at - p
  {
    hide Marker, MarkerAt, TextTokens;
    MarkerStands(v, s, p);
    if p < at {
      MarkerCuts(v, s, span, p + 1, at, i);
    }
  }

  lemma {:induction false} AsciiEncoded(x: Bytes)
    requires forall i :: 0 <= i < |x| ==> 33 <= x[i] <= 126
    ensures Encode(x) == x
  {
    if x != [] {
      AsciiEncoded(x[1..]);
      assert Symbol(x[0]) == [x[0]];
    }
  }

  /** A marker token renders to the marker: by its bar, or because its bytes stand for themselves. */
  lemma MarkerText(v: Vocab, i: nat)
    requires MarkersLoaded(v) && i < MARKERS && v.specials[i] >= 0
    ensures TokenText(v, v.specials[i]) == Marker(i)
  {
    var m := Marker(i);
    if i == 4 || i == 5 {
      AsciiEncoded(m);
      DecodeEncode(m);
      NoBar(m);
    } else {
      var at := if i == 6 then 0 else 1;
      assert m[at..at + 3] == BAR;
      assert BarAt(m, at);
    }
  }

  /** Tokenizing a rendered chat, markers and all, and rendering the tokens gives the chat back. */
  lemma {:induction false} ChatReturns(v: Vocab, s: Bytes, span: nat, p: nat)
    requires Loaded(v) && MergeClosed(v) && MarkersLoaded(v) && span <= p <= |s|
    ensures Rendered(v, ChatTokens(v, s, span, p)) == s[span..]
    decreases |s| - p
  {
    hide Loaded, MergeClosed, MarkersLoaded, Marker, TextTokens, MarkerAt, TokenText;
    MarkerCount(v);
    var text := s[span..p];
    TextReturns(v, text, 0);
    assert text[0..] == text;
    if p < |s| {
      match MarkerAt(v, s, p, 0)
      case Some(i) =>
        MatchFits(v, s, p);
        MarkerText(v, i);
        var q := p + |Marker(i)|;
        ChatReturns(v, s, q, q);
        ChatStep(v, TextTokens(v, text, 0), v.specials[i], ChatTokens(v, s, q, q));
        assert s[span..] == text + s[p..q] + s[q..];
      case None =>
        ChatReturns(v, s, span, p + 1);
    }
  }

  lemma MarkerCount(v: Vocab)
    requires MarkersLoaded(v)
    ensures |v.specials| == MARKERS
  {
  }

  lemma ChatStep(v: Vocab, a: seq<int>, id: int, b: seq<int>)
    ensures Rendered(v, a + [id] + b) == Rendered(v, a) + TokenText(v, id) + Rendered(v, b)
  {
    hide TokenText;
    RenderedConcat(v, a + [id], b);
    RenderedConcat(v, a, [id]);
    assert Rendered(v, [id][1..]) == [];
  }

  // --------------------------------------------------- prompts with a cached prefix

  /**
    ds4_kvstore_build_prompt_from_exact_prefix_and_text_suffix: the exact tokens of
    the checkpoint, then the tokens of the text behind it.
   */
  method BuildPrompt(v: Vocab, exactPrefix: seq<int>, suffix: Bytes, out: TokenVec)
    requires |v.specials| == MARKERS
    modifies out
    ensures out.items == exactPrefix + ChatTokens(v, suffix, 0, 0)
  {
    hide ChatTokens;
    out.items := exactPrefix;
    var tokens := new TokenVec();
    TokenizeChat(v, suffix, tokens);
    out.items := out.items + tokens.items;
  }

  /** A checkpoint whose text is what its tokens render to, extended to a prompt that starts with it. */
  lemma PromptReturns(v: Vocab, stored: seq<int>, prompt: Bytes)
    requires Loaded(v) && MergeClosed(v) && MarkersLoaded(v)
    requires Rendered(v, stored) <= prompt
    ensures Rendered(v, stored + ChatTokens(v, prompt[|Rendered(v, stored)|..], 0, 0)) == prompt
  {
    hide Loaded, MergeClosed, MarkersLoaded, ChatTokens;
    MarkerCount(v);
    var suffix := prompt[|Rendered(v, stored)|..];
    ChatReturns(v, suffix, 0, 0);
    assert suffix[0..] == suffix;
    RenderedConcat(v, stored, ChatTokens(v, suffix, 0, 0));
  }
}
