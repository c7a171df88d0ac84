/** The pre-tokenizer: where the text is cut into pieces before byte-pair merging. */
module PreTokenizer {
  import opened Common
  import opened ByteSymbols
  import opened BytePairs

  // ------------------------------------------------------- character classes

  predicate Alpha(c: byte) {
    'A' as int <= c <= 'Z' as int || 'a' as int <= c <= 'z' as int
  }

  predicate Digit(c: byte) {
    '0' as int <= c <= '9' as int
  }

  predicate Space(c: byte) {
    c in {0x20, 0x09, 0x0a, 0x0d, 0x0b, 0x0c}
  }

  predicate Newline(c: byte) {
    c == 0x0a || c == 0x0d
  }

  predicate Punct(c: byte) {
    || '!' as int <= c <= '/' as int || ':' as int <= c <= '@' as int
    || '[' as int <= c <= '`' as int || '{' as int <= c <= '~' as int
  }

  /** Every byte from 128 on counts as part of a letter. */
  predicate LetterLike(c: byte) {
    c >= 128 || Alpha(c)
  }

  predicate CjkOrKana(cp: nat) {
    0x4e00 <= cp <= 0x9fa5 || 0x3040 <= cp <= 0x309f || 0x30a0 <= cp <= 0x30ff
  }

  /** utf8_peek_one, where a character cut off by the end counts as one byte. */
  function Peek(s: Bytes, pos: nat): nat
    requires pos < |s|
  {
    var c: nat := s[pos];
    var n := CharEnd(s, pos) - pos;
    if n == 1 then c
    else if n == 2 then c % 32 * 64 + Low(s[pos + 1])
    else if n == 3 then c % 16 * 4096 + Low(s[pos + 1]) * 64 + Low(s[pos + 2])
    else c % 8 * 262144 + Low(s[pos + 1]) * 4096 + Low(s[pos + 2]) * 64 + Low(s[pos + 3])
  }

  predicate CjkAt(s: Bytes, pos: nat) {
    pos < |s| && s[pos] >= 128 && CjkOrKana(Peek(s, pos))
  }

  // ---------------------------------------------------------------- runs

  /** The end of the longest run of bytes of a class from pos on. */
  ghost function RunEnd(s: Bytes, pos: nat, f: byte -> bool): (r: nat)
    requires pos <= |s|
    ensures pos <= r <= |s|
    ensures forall k :: pos <= k < r ==> f(s[k])
    ensures r < |s| ==> !f(s[r])
    decreases |s| - pos
  {
    if pos < |s| && f(s[pos]) then RunEnd(s, pos + 1, f) else pos
  }

  lemma {:induction false} RunEndIs(s: Bytes, pos: nat, f: byte -> bool, r: nat)
    requires pos <= r <= |s| && (forall k :: pos <= k < r ==> f(s[k])) && (r < |s| ==> !f(s[r]))
    ensures RunEnd(s, pos, f) == r
  {
    var e := RunEnd(s, pos, f);
    assert e <= r;
  }

  /** Letters are consumed character by character, by their first bytes. */
  function LettersEnd(s: Bytes, pos: nat): (r: nat)
    requires pos <= |s|
    ensures pos <= r <= |s|
    decreases |s| - pos
  {
    if pos < |s| && LetterLike(s[pos]) then LettersEnd(s, CharEnd(s, pos)) else pos
  }

  function CjkEnd(s: Bytes, pos: nat): (r: nat)
    requires pos <= |s|
    ensures pos <= r <= |s|
    decreases |s| - pos
  {
    if CjkAt(s, pos) then CjkEnd(s, CharEnd(s, pos)) else pos
  }

  /** A run of white space ends after its last newline; without one it leaves its last blank to a following word. */
  ghost function BlankEnd(s: Bytes, pos: nat): (r: nat)
    requires pos < |s|
    ensures pos <= r <= |s|
  {
    var p := RunEnd(s, pos, Space);
    if exists k :: pos <= k < p && Newline(s[k]) then LastNewline(s, pos, p)
    else if pos + 1 < p < |s| && (LetterLike(s[p]) || Punct(s[p])) then p - 1
    else p
  }

  /** The position behind the last newline in s[pos..p]. */
  ghost function LastNewline(s: Bytes, pos: nat, p: nat): (r: nat)
    requires pos <= p <= |s| && exists k :: pos <= k < p && Newline(s[k])
    ensures pos < r <= p && Newline(s[r - 1])
    ensures forall k :: r <= k < p ==> !Newline(s[k])
    decreases p - pos
  {
    if Newline(s[p - 1]) then p else LastNewline(s, pos, p - 1)
  }

  /** Symbols, and the newlines that follow them directly. */
  ghost function PunctEnd(s: Bytes, pos: nat): (r: nat)
    requires pos <= |s|
    ensures pos <= r <= |s|
  {
    RunEnd(s, RunEnd(s, pos, Punct), Newline)
  }

  /** The end of the piece at pos, by the kind of text found there. */
  ghost function Branch(s: Bytes, pos: nat): (end: nat)
    requires pos < |s|
    ensures pos <= end <= |s|
  {
    var c := s[pos];
    if Digit(c) then Min(RunEnd(s, pos, Digit), pos + 3)
    else if CjkAt(s, pos) then CjkEnd(s, CharEnd(s, pos))
    else if Punct(c) && pos + 1 < |s| && Alpha(s[pos + 1]) then RunEnd(s, pos + 1, Alpha)
    else if LetterLike(c) then LettersEnd(s, pos)
    else if !Newline(c) && !Punct(c) && pos + 1 < |s| && LetterLike(s[pos + 1]) then LettersEnd(s, pos + 1)
    else if c == SPACE && pos + 1 < |s| && Punct(s[pos + 1]) then PunctEnd(s, pos + 1)
    else if Punct(c) then PunctEnd(s, pos)
    else if Space(c) then BlankEnd(s, pos)
    else CharEnd(s, pos)
  }

  /** Every branch consumes something, so the guard against standing still never acts. */
  lemma BranchMoves(s: Bytes, pos: nat)
    requires pos < |s|
    ensures pos < Branch(s, pos)
  {
  }

  ghost function PieceEnd(s: Bytes, pos: nat): (end: nat)
    requires pos < |s|
    ensures pos < end <= |s|
  {
    if Branch(s, pos) == pos then CharEnd(s, pos) else Branch(s, pos)
  }

  // ------------------------------------- what a piece is, by its characters

  /** The classes by the bytes in them. */
  lemma ByteClasses(c: byte)
    ensures Digit(c) <==> 0x30 <= c <= 0x39
    ensures Alpha(c) <==> 0x41 <= c <= 0x5a || 0x61 <= c <= 0x7a
    ensures LetterLike(c) <==> Alpha(c) || c >= 0x80
    ensures Space(c) <==> c == 0x20 || 0x09 <= c <= 0x0d
    ensures Newline(c) <==> c == 0x0a || c == 0x0d
    ensures Punct(c) <==> 0x21 <= c <= 0x7e && !Digit(c) && !Alpha(c)
  {
  }

  /** A code point of three bytes is CJK or kana exactly when it is one of U+4E00 to U+9FA5 or U+3040 to U+30FF. */
  lemma CjkCodepoints(s: Bytes, pos: nat, cp: nat)
    requires 0x800 <= cp <= 0xffff && pos + 3 <= |s| && s[pos..pos + 3] == Utf8(cp)
    ensures CjkAt(s, pos) <==> 0x4e00 <= cp <= 0x9fa5 || 0x3040 <= cp <= 0x30ff
  {
    var a, b, c := cp / 4096, cp / 64 % 64, cp % 64;
    assert s[pos] == s[pos..pos + 3][0] && s[pos + 1] == s[pos..pos + 3][1] && s[pos + 2] == s[pos..pos + 3][2];
    ThreeBytes(a, b, c);
    assert cp == a * 4096 + b * 64 + c;
  }

  lemma ThreeBytes(a: nat, b: nat, c: nat)
    requires a < 16 && b < 64 && c < 64
    ensures (0xe0 + a) % 16 == a && Low(0x80 + b) == b && Low(0x80 + c) == c
  {
  }

  /** Positions at which one character ends and the next one starts. */
  ghost predicate Cuts(s: Bytes, cuts: seq<nat>) {
    cuts != [] && forall k :: 0 <= k < |cuts| - 1 ==> OneChar(s, cuts[k], cuts[k + 1])
  }

  predicate OneChar(s: Bytes, p: nat, q: nat) {
    p < |s| && q == CharEnd(s, p)
  }

  /** From p to end stand letters, and behind them none. */
  ghost predicate LetterRun(s: Bytes, p: nat, end: nat) {
    && (exists cuts :: Cuts(s, cuts) && cuts[0] == p && cuts[|cuts| - 1] == end && LettersAt(s, cuts))
    && end <= |s| && (end < |s| ==> !LetterLike(s[end]))
  }

  ghost predicate LettersAt(s: Bytes, cuts: seq<nat>)
  {
    forall k :: 0 <= k < |cuts| - 1 ==> cuts[k] < |s| && LetterLike(s[cuts[k]])
  }

  /** From p to end stand CJK characters or kana, and behind them none. */
  ghost predicate CjkRun(s: Bytes, p: nat, end: nat) {
    && (exists cuts :: Cuts(s, cuts) && cuts[0] == p && cuts[|cuts| - 1] == end && CjksAt(s, cuts))
    && end <= |s| && !CjkAt(s, end)
  }

  ghost predicate CjksAt(s: Bytes, cuts: seq<nat>) {
    forall k :: 0 <= k < |cuts| - 1 ==> CjkAt(s, cuts[k])
  }

  /** All bytes from p to end are of a class, and the next one is not. */
  ghost predicate ByteRun(s: Bytes, p: nat, end: nat, f: byte -> bool) {
    p <= end <= |s| && (forall k :: p <= k < end ==> f(s[k])) && (end < |s| ==> !f(s[end]))
  }

  lemma {:induction false} LettersRun(s: Bytes, p: nat) returns (cuts: seq<nat>)
    requires p <= |s|
    ensures Cuts(s, cuts) && cuts[0] == p && cuts[|cuts| - 1] == LettersEnd(s, p) && LettersAt(s, cuts)
    ensures LetterRun(s, p, LettersEnd(s, p))
    decreases |s| - p
  {
    hide CharEnd;
    cuts := [p];
    if p < |s| && LetterLike(s[p]) {
      var rest := LettersRun(s, CharEnd(s, p));
      cuts := [p] + rest;
    }
  }

  lemma {:induction false} CjksRun(s: Bytes, p: nat) returns (cuts: seq<nat>)
    requires p <= |s|
    ensures Cuts(s, cuts) && cuts[0] == p && cuts[|cuts| - 1] == CjkEnd(s, p) && CjksAt(s, cuts)
    ensures CjkRun(s, p, CjkEnd(s, p))
    decreases |s| - p
  {
    hide CharEnd, CjkAt;
    cuts := [p];
    if CjkAt(s, p) {
      CjkInside(s, p);
      var rest := CjksRun(s, CharEnd(s, p));
      cuts := [p] + rest;
    }
  }

  lemma CjkInside(s: Bytes, p: nat)
    requires CjkAt(s, p)
    ensures p < |s| && s[p] >= 128
  {
  }

  /** One to three digits, and fewer than three only when no digit follows. */
  lemma DigitPiece(s: Bytes, pos: nat)
    requires pos < |s| && Digit(s[pos])
    ensures var end := PieceEnd(s, pos);
      && pos < end <= pos + 3 && (forall k :: pos <= k < end ==> Digit(s[k]))
      && (end < pos + 3 && end < |s| ==> !Digit(s[end]))
  {
  }

  /** CJK characters and kana stand apart from other letters. */
  lemma CjkPiece(s: Bytes, pos: nat)
    requires CjkAt(s, pos)
    ensures CjkRun(s, pos, PieceEnd(s, pos)) && PieceEnd(s, pos) > pos
  {
    CjkInside(s, pos);
    hide CjkAt, CharEnd;
    var cuts := CjksRun(s, pos);
  }

  /** A symbol takes the ASCII letters behind it. */
  lemma MarkedWord(s: Bytes, pos: nat)
    requires pos + 1 < |s| && Punct(s[pos]) && Alpha(s[pos + 1])
    ensures ByteRun(s, pos + 1, PieceEnd(s, pos), Alpha) && PieceEnd(s, pos) > pos + 1
  {
  }

  /** A word is a run of letters. */
  lemma WordPiece(s: Bytes, pos: nat)
    requires pos < |s| && LetterLike(s[pos]) && !CjkAt(s, pos)
    ensures LetterRun(s, pos, PieceEnd(s, pos)) && PieceEnd(s, pos) > pos
  {
    hide CjkAt, CharEnd;
    var cuts := LettersRun(s, pos);
  }

  /** A blank, or any other byte that is no newline, digit, letter or symbol, takes the letters behind it. */
  lemma LedWord(s: Bytes, pos: nat)
    requires pos + 1 < |s| && LetterLike(s[pos + 1])
    requires !Newline(s[pos]) && !Digit(s[pos]) && !LetterLike(s[pos]) && !Punct(s[pos])
    ensures LetterRun(s, pos + 1, PieceEnd(s, pos)) && PieceEnd(s, pos) > pos + 1
  {
    hide CharEnd;
    var cuts := LettersRun(s, pos + 1);
  }

  /** Symbols, with one blank before them if there is one, and the newlines behind them. */
  lemma SymbolPiece(s: Bytes, pos: nat, p: nat) returns (m: nat)
    requires p < |s| && Punct(s[p])
    requires if p == pos then pos + 1 < |s| ==> !Alpha(s[pos + 1]) else p == pos + 1 && s[pos] == 0x20
    ensures p < m && ByteRun(s, p, m, Punct) && ByteRun(s, m, PieceEnd(s, pos), Newline)
  {
    m := RunEnd(s, p, Punct);
  }

  /**
    White space that leads no word and no symbol: of the white space up to r, the part up to the last newline;
    without a newline all of it, but for a last blank that a letter or a symbol follows.
   */
  lemma SpacePiece(s: Bytes, pos: nat) returns (r: nat)
    requires pos < |s| && Space(s[pos])
    requires pos + 1 < |s| ==> (LetterLike(s[pos + 1]) ==> Newline(s[pos])) && (Punct(s[pos + 1]) ==> s[pos] != 0x20)
    ensures ByteRun(s, pos, r, Space)
    ensures var end := PieceEnd(s, pos);
      && pos < end <= r
      && if exists k :: pos <= k < r && Newline(s[k]) then Newline(s[end - 1]) && forall k :: end <= k < r ==> !Newline(s[k])
         else if r > pos + 1 && r < |s| && (LetterLike(s[r]) || Punct(s[r])) then end == r - 1
         else end == r
  {
    r := RunEnd(s, pos, Space);
  }

  /** Any other byte is a piece alone. */
  lemma OtherPiece(s: Bytes, pos: nat)
    requires pos < |s| && !Digit(s[pos]) && !LetterLike(s[pos]) && !Punct(s[pos]) && !Space(s[pos])
    requires pos + 1 < |s| ==> !LetterLike(s[pos + 1])
    ensures PieceEnd(s, pos) == pos + 1
  {
  }

  // ------------------------------------------------------------- the scanner

  method ScanRun(s: Bytes, pos: nat, f: byte -> bool) returns (r: nat)
    requires pos <= |s|
    ensures r == RunEnd(s, pos, f)
  {
    r := pos;
    while r < |s| && f(s[r])
      invariant pos <= r <= |s|
      invariant forall k :: pos <= k < r ==> f(s[k])
    {
      r := r + 1;
    }
    RunEndIs(s, pos, f, r);
  }

  method ScanDigits(s: Bytes, pos: nat) returns (r: nat)
    requires pos < |s|
    ensures r == Min(RunEnd(s, pos, Digit), pos + 3)
  {
    var ndigits := 0;
    r := pos;
    while r < |s| && Digit(s[r]) && ndigits < 3
      invariant pos <= r <= |s| && r == pos + ndigits && ndigits <= 3
      invariant forall k :: pos <= k < r ==> Digit(s[k])
    {
      r := r + 1;
      ndigits := ndigits + 1;
    }
    var e := RunEnd(s, pos, Digit);
    assert r <= e;
  }

  method ScanLetters(s: Bytes, pos: nat) returns (r: nat)
    requires pos <= |s|
    ensures r == LettersEnd(s, pos)
  {
    r := pos;
    while r < |s| && LetterLike(s[r])
      invariant pos <= r <= |s| && LettersEnd(s, r) == LettersEnd(s, pos)
    {
      r := CharEnd(s, r);
    }
  }

  method ScanCjk(s: Bytes, pos: nat) returns (r: nat)
    requires pos < |s|
    ensures r == CjkEnd(s, CharEnd(s, pos))
  {
    r := CharEnd(s, pos);
    while r < |s| && CjkAt(s, r)
      invariant pos <= r <= |s| && CjkEnd(s, r) == CjkEnd(s, CharEnd(s, pos))
    {
      r := CharEnd(s, r);
    }
  }

  method ScanPunct(s: Bytes, pos: nat) returns (r: nat)
    requires pos <= |s|
    ensures r == PunctEnd(s, pos)
  {
    r := ScanRun(s, pos, Punct);
    r := ScanRun(s, r, Newline);
  }

  method ScanBlank(s: Bytes, pos: nat) returns (r: nat)
    requires pos < |s| && Space(s[pos])
    ensures r == BlankEnd(s, pos)
  {
    var p := pos;
    var lastNewlineEnd := 0;
    while p < |s| && Space(s[p])
      invariant pos <= p <= |s| && (forall k :: pos <= k < p ==> Space(s[k]))
      invariant lastNewlineEnd == 0 ==> forall k :: pos <= k < p ==> !Newline(s[k])
      invariant lastNewlineEnd != 0 ==> pos < lastNewlineEnd <= p && Newline(s[lastNewlineEnd - 1])
                                        && forall k :: lastNewlineEnd <= k < p ==> !Newline(s[k])
    {
      if Newline(s[p]) {
        lastNewlineEnd := p + 1;
      }
      p := p + 1;
    }
    RunEndIs(s, pos, Space, p);
    if lastNewlineEnd != 0 {
      LastNewlineIs(s, pos, p, lastNewlineEnd);
      return lastNewlineEnd;
    }
    if p < |s| && p > pos + 1 && (LetterLike(s[p]) || Punct(s[p])) {
      return p - 1;
    }
    return p;
  }

  lemma LastNewlineIs(s: Bytes, pos: nat, p: nat, r: nat)
    requires pos < r <= p <= |s| && Newline(s[r - 1]) && forall k :: r <= k < p ==> !Newline(s[k])
    ensures LastNewline(s, pos, p) == r
  {
    var e := LastNewline(s, pos, p);
    assert e <= r;
  }

  /** The chain of branches in bpe_tokenize_text. */
  method ScanPiece(s: Bytes, pos: nat) returns (end: nat)
    requires pos < |s|
    ensures end == Branch(s, pos)
  {
    hide RunEnd, LettersEnd, CjkEnd, BlankEnd, CharEnd;
    var c := s[pos];
    if Digit(c) {
      end := ScanDigits(s, pos);
    } else if CjkAt(s, pos) {
      end := ScanCjk(s, pos);
    } else if Punct(c) && pos + 1 < |s| && Alpha(s[pos + 1]) {
      end := ScanRun(s, pos + 1, Alpha);
    } else if LetterLike(c) {
      end := ScanLetters(s, pos);
    } else if !Newline(c) && !Punct(c) && pos + 1 < |s| && LetterLike(s[pos + 1]) {
      end := ScanLetters(s, pos + 1);
    } else if c == SPACE && pos + 1 < |s| && Punct(s[pos + 1]) {
      end := ScanPunct(s, pos + 1);
    } else if Punct(c) {
      end := ScanPunct(s, pos);
    } else if Space(c) {
      end := ScanBlank(s, pos);
    } else {
      end := CharEnd(s, pos);
    }
  }
}
