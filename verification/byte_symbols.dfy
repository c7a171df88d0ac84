/**
  The byte alphabet of byte-level BPE: every byte is written as a printable code
  point in UTF-8, and read back. The bit masks and shifts of the program act on
  disjoint bits, so they are written as divisions, remainders and sums.
 */
module ByteSymbols {
  import opened Common

  /** Bytes that stand for themselves. */
  predicate Printable(x: nat) {
    33 <= x <= 126 || 161 <= x <= 172 || 174 <= x
  }

  /** How many bytes below x do not stand for themselves. */
  function Gaps(x: nat): nat {
    if x == 0 then 0 else Gaps(x - 1) + if Printable(x - 1) then 0 else 1
  }

  /** The code point of a byte: itself, or the next free one from 256 on. */
  function Codepoint(b: byte): nat {
    if Printable(b) then b else 256 + Gaps(b)
  }

  /** gpt2_byte_to_codepoint, which counts the gaps anew for every byte. */
  method ByteToCodepoint(b: byte) returns (cp: nat)
    ensures cp == Codepoint(b)
  {
    cp := b;
    if Printable(b) {
      return;
    }
    var n := 0;
    var x := 0;
    while x < 256
      invariant 0 <= x <= b && n == Gaps(x)
    {
      if !Printable(x) {
        if x == b {
          return 256 + n;
        }
        n := n + 1;
      }
      x := x + 1;
    }
    assert false;
  }

  /** gpt2_codepoint_to_byte: the byte of a code point, if it has one. */
  method CodepointToByte(cp: nat) returns (r: Option<byte>)
    ensures r == ByteOf(cp)
  {
    if 33 <= cp <= 126 || 161 <= cp <= 172 || 174 <= cp <= 255 {
      SelfCoded(cp);
      return Some(cp);
    }
    var n := 0;
    var b := 0;
    while b < 256
      invariant 0 <= b <= 256 && n == Gaps(b)
      invariant forall x: byte :: x < b ==> Codepoint(x) != cp
    {
      if !Printable(b) {
        if cp == 256 + n {
          OnlyByte(b);
          return Some(b);
        }
        n := n + 1;
      }
      b := b + 1;
    }
    return None;
  }

  /** The byte that is written as code point cp. */
  ghost function ByteOf(cp: nat): Option<byte> {
    if exists b: byte :: Codepoint(b) == cp then
      var b: byte :| Codepoint(b) == cp;
      Some(b)
    else None
  }

  lemma {:induction false} GapsMonotone(x: nat, y: nat)
    requires x <= y
    ensures Gaps(x) <= Gaps(y)
    ensures x < y && !Printable(x) ==> Gaps(x) < Gaps(y)
  {
    if x < y {
      GapsMonotone(x, y - 1);
    }
  }

  /** Different bytes have different code points. */
  lemma CodepointInjective(a: byte, b: byte)
    requires Codepoint(a) == Codepoint(b)
    ensures a == b
  {
    if a < b {
      GapsMonotone(a, b);
    } else {
      GapsMonotone(b, a);
    }
  }

  lemma OnlyByte(b: byte)
    ensures ByteOf(Codepoint(b)) == Some(b)
  {
    var c: byte :| Codepoint(c) == Codepoint(b) && ByteOf(Codepoint(b)) == Some(c);
    CodepointInjective(b, c);
  }

  lemma SelfCoded(cp: nat)
    requires Printable(cp) && cp < 256
    ensures ByteOf(cp) == Some(cp)
  {
    OnlyByte(cp);
  }

  lemma {:induction false} GapsUpTo(x: nat)
    requires x <= 256
    ensures Gaps(x) == if x <= 33 then x else if x <= 127 then 33 else if x <= 161 then 33 + (x - 127)
                       else if x <= 173 then 67 else 68
  {
    if x > 0 {
      GapsUpTo(x - 1);
    }
  }

  /** The code point of every byte: the bytes that do not stand for themselves follow each other from 256 on. */
  lemma Codepoints(b: byte)
    ensures Codepoint(b) == if b <= 32 then 256 + b else if b <= 126 then b else if b <= 160 then 289 + (b - 127)
                            else if b == 173 then 323 else b
  {
    GapsUpTo(b);
  }

  lemma CodepointRange(b: byte)
    ensures 33 <= Codepoint(b) <= 126 || 161 <= Codepoint(b) <= 323
  {
    GapsUpTo(b);
  }

  // ------------------------------------------------------------------ UTF-8

  /** utf8_put */
  function Utf8(cp: nat): (s: seq<byte>)
    requires cp < 0x20_0000
    ensures 1 <= |s| <= 4
  {
    if cp <= 0x7f then [cp]
    else if cp <= 0x7ff then [0xc0 + cp / 64, 0x80 + cp % 64]
    else if cp <= 0xffff then [0xe0 + cp / 4096, 0x80 + cp / 64 % 64, 0x80 + cp % 64]
    else [0xf0 + cp / 262144, 0x80 + cp / 4096 % 64, 0x80 + cp / 64 % 64, 0x80 + cp % 64]
  }

  /** utf8_len_from_first_byte */
  function Utf8Length(c: byte): (n: nat)
    ensures 1 <= n <= 4
  {
    if c < 0x80 then 1
    else if 0xc0 <= c < 0xe0 then 2
    else if 0xe0 <= c < 0xf0 then 3
    else if 0xf0 <= c < 0xf8 then 4
    else 1
  }

  /** next_utf8_char: a character cut off by the end counts as one byte. */
  function CharEnd(s: seq<byte>, pos: nat): (end: nat)
    requires pos < |s|
    ensures pos < end <= |s|
  {
    var n := Utf8Length(s[pos]);
    if pos + n > |s| then pos + 1 else pos + n
  }

  /** utf8_decode_one at the start of s: the code point and the bytes it took. */
  function DecodeOne(s: seq<byte>): (r: (nat, nat))
    requires s != []
    ensures 1 <= r.1 <= |s|
  {
    var c: nat := s[0];
    if c < 0x80 || |s| <= 1 then (c, 1)
    else if 0xc0 <= c < 0xe0 && 1 < |s| then (c % 32 * 64 + Low(s[1]), 2)
    else if 0xe0 <= c < 0xf0 && 2 < |s| then (c % 16 * 4096 + Low(s[1]) * 64 + Low(s[2]), 3)
    else if 0xf0 <= c < 0xf8 && 3 < |s| then (c % 8 * 262144 + Low(s[1]) * 4096 + Low(s[2]) * 64 + Low(s[3]), 4)
    else (c, 1)
  }

  /** The six low bits of a continuation byte. */
  function Low(c: nat): nat {
    c % 64
  }

  /** The symbol of a byte. */
  function Symbol(b: byte): (s: seq<byte>)
    ensures 1 <= |s| <= 4
  {
    CodepointRange(b);
    Utf8(Codepoint(b))
  }

  /** byte_encode */
  function Encode(x: seq<byte>): seq<byte> {
    if x == [] then [] else Symbol(x[0]) + Encode(x[1..])
  }

  /** ds4_token_text for an ordinary token: code points that stand for no byte are dropped. */
  ghost function Decode(s: seq<byte>): seq<byte>
    decreases |s|
  {
    if s == [] then []
    else
      var r := DecodeOne(s);
      (match ByteOf(r.0) case Some(b) => [b] case None => []) + Decode(s[r.1..])
  }

  /** A code point below 0x800 is read back, whatever follows it. */
  lemma Utf8Read(cp: nat, rest: seq<byte>)
    requires cp <= 0x7ff
    ensures DecodeOne(Utf8(cp) + rest) == (cp, |Utf8(cp)|) && Utf8Length(Utf8(cp)[0]) == |Utf8(cp)|
  {
    var s := Utf8(cp) + rest;
    if cp <= 0x7f {
      assert s[0] == cp;
    } else {
      var q, m := cp / 64, cp % 64;
      assert s[0] == 0xc0 + q && s[1] == 0x80 + m;
      assert (0xc0 + q) % 32 == q && Low(0x80 + m) == m;
    }
  }

  /** So is any other code point. */
  lemma AnyUtf8Read(cp: nat, rest: seq<byte>)
    requires cp < 0x20_0000
    ensures DecodeOne(Utf8(cp) + rest) == (cp, |Utf8(cp)|) && CharEnd(Utf8(cp) + rest, 0) == |Utf8(cp)|
  {
    if cp <= 0x7ff {
      Utf8Read(cp, rest);
    } else if cp <= 0xffff {
      ReadThree(cp, rest);
    } else {
      ReadFour(cp, rest);
    }
  }

  lemma ReadThree(cp: nat, rest: seq<byte>)
    requires 0x800 <= cp <= 0xffff
    ensures DecodeOne(Utf8(cp) + rest) == (cp, 3) && CharEnd(Utf8(cp) + rest, 0) == 3 == |Utf8(cp)|
  {
    var s := Utf8(cp) + rest;
    var a, b, c := cp / 4096, cp / 64 % 64, cp % 64;
    assert s[0] == 0xe0 + a && s[1] == 0x80 + b && s[2] == 0x80 + c;
    assert (0xe0 + a) % 16 == a;
    Continuation(b);
    Continuation(c);
    assert cp == a * 4096 + b * 64 + c;
  }

  lemma ReadFour(cp: nat, rest: seq<byte>)
    requires 0x1_0000 <= cp < 0x20_0000
    ensures DecodeOne(Utf8(cp) + rest) == (cp, 4) && CharEnd(Utf8(cp) + rest, 0) == 4 == |Utf8(cp)|
  {
    var s := Utf8(cp) + rest;
    var a, b, c, d := cp / 262144, cp / 4096 % 64, cp / 64 % 64, cp % 64;
    assert s[0] == 0xf0 + a && s[1] == 0x80 + b && s[2] == 0x80 + c && s[3] == 0x80 + d;
    FourParts(cp);
    hide Low;
    Continuation(b);
    Continuation(c);
    Continuation(d);
  }

  lemma FourParts(cp: nat)
    requires cp < 0x20_0000
    ensures cp / 262144 * 262144 + cp / 4096 % 64 * 4096 + cp / 64 % 64 * 64 + cp % 64 == cp
    ensures cp / 262144 < 8 && (0xf0 + cp / 262144) % 8 == cp / 262144
  {
    assert cp / 64 / 64 == cp / 4096 && cp / 4096 / 64 == cp / 262144;
  }

  lemma Continuation(x: nat)
    requires x < 64
    ensures Low(0x80 + x) == x
  {
  }

  /** A symbol is read back as its code point, whatever follows it. */
  lemma SymbolRead(b: byte, rest: seq<byte>)
    ensures DecodeOne(Symbol(b) + rest) == (Codepoint(b), |Symbol(b)|)
    ensures Utf8Length(Symbol(b)[0]) == |Symbol(b)|
  {
    hide Utf8, DecodeOne;
    CodepointRange(b);
    Utf8Read(Codepoint(b), rest);
  }

  /** No symbol holds a space or a byte of the fullwidth bar's first position. */
  lemma SymbolBytes(b: byte, i: nat)
    requires i < |Symbol(b)|
    ensures Symbol(b)[i] != 0x20 && Symbol(b)[i] != 0xef && Symbol(b)[i] != 0
  {
    CodepointRange(b);
  }

  lemma {:induction false} EncodeBytes(x: seq<byte>)
    ensures 0x20 !in Encode(x) && 0xef !in Encode(x) && 0 !in Encode(x)
  {
    if x != [] {
      EncodeBytes(x[1..]);
      forall i | 0 <= i < |Symbol(x[0])|
        ensures Symbol(x[0])[i] !in {0, 0x20, 0xef}
      {
        SymbolBytes(x[0], i);
      }
    }
  }

  lemma {:induction false} EncodeConcat(x: seq<byte>, y: seq<byte>)
    ensures Encode(x + y) == Encode(x) + Encode(y)
  {
    if x == [] {
      assert x + y == y;
    } else {
      assert (x + y)[1..] == x[1..] + y;
      EncodeConcat(x[1..], y);
    }
  }

  /** Encoding loses nothing. */
  lemma {:induction false} DecodeEncode(x: seq<byte>)
    ensures Decode(Encode(x)) == x
  {
    if x != [] {
      var rest := Encode(x[1..]);
      var s := Symbol(x[0]) + rest;
      SymbolRead(x[0], rest);
      OnlyByte(x[0]);
      assert s[|Symbol(x[0])|..] == rest;
      DecodeEncode(x[1..]);
    }
  }

  /** byte_encode appends one symbol per byte. */
  method ByteEncode(x: seq<byte>) returns (out: seq<byte>)
    ensures out == Encode(x)
  {
    out := [];
    var i := 0;
    while i < |x|
      invariant 0 <= i <= |x| && out == Encode(x[..i])
    {
      var cp := ByteToCodepoint(x[i]);
      CodepointRange(x[i]);
      assert x[..i + 1] == x[..i] + [x[i]];
      EncodeConcat(x[..i], [x[i]]);
      assert Encode([x[i]]) == Symbol(x[i]);
      out := out + Utf8(cp);
      i := i + 1;
    }
    assert x[..|x|] == x;
  }

  lemma DecodeNothing(s: seq<byte>)
    ensures Decode(s[|s|..]) == []
  {
  }

  lemma DecodeStep(s: seq<byte>, pos: nat)
    requires pos < |s|
    ensures var r := DecodeOne(s[pos..]);
      && pos + r.1 <= |s|
      && Decode(s[pos..]) == (match ByteOf(r.0) case Some(b) => [b] case None => []) + Decode(s[pos + r.1..])
  {
    hide ByteOf;
    assert s[pos..][DecodeOne(s[pos..]).1..] == s[pos + DecodeOne(s[pos..]).1..];
  }

  /** The decoding loop of ds4_token_text. */
  method DecodeText(s: seq<byte>) returns (out: seq<byte>)
    ensures out == Decode(s)
  {
    hide Decode, DecodeOne, ByteOf;
    out := [];
    var pos := 0;
    assert s[0..] == s;
    while pos < |s|
      invariant 0 <= pos <= |s| && out + Decode(s[pos..]) == Decode(s)
    {
      var r := DecodeOne(s[pos..]);
      DecodeStep(s, pos);
      var b := CodepointToByte(r.0);
      if b.Some? {
        out := out + [b.value];
      }
      pos := pos + r.1;
    }
    DecodeNothing(s);
  }
}
