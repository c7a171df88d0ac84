/**
  SHA-1. Module Fips180 follows sections 4.1.1, 4.2.1, 5.1.1, 5.2.1 and 6.1.2 of
  FIPS 180-4; module Sha1 is the streaming code, proved to compute it.
 */
module Fips180 {
  import opened Common

  type Word = bv32
  type Block = b: seq<byte> | |b| == 64 witness Zeros(64)
  datatype Hash = Hash(a: Word, b: Word, c: Word, d: Word, e: Word)

  function Zeros(n: nat): (z: seq<byte>)
    ensures |z| == n
  {
    seq(n, i => 0)
  }

  /** Section 3.2: rotation to the left; the constants used are below 32. */
  function ROTL(n: nat, x: Word): Word
    requires n < 32
  {
    (x << n) | (x >> (32 - n))
  }

  /** Section 4.1.1 */
  function F(t: nat, x: Word, y: Word, z: Word): Word {
    if t < 20 then (x & y) ^ (!x & z)
    else if t < 40 then x ^ y ^ z
    else if t < 60 then (x & y) ^ (x & z) ^ (y & z)
    else x ^ y ^ z
  }

  /** Section 4.2.1 */
  function K(t: nat): Word {
    if t < 20 then 0x5a827999 else if t < 40 then 0x6ed9eba1 else if t < 60 then 0x8f1bbcdc else 0xca62c1d6
  }

  /** Section 5.2.1: a block as sixteen big-endian words. */
  function WordAt(m: Block, t: nat): Word
    requires t < 16
  {
    (m[4 * t] as bv32 << 24) | (m[4 * t + 1] as bv32 << 16) | (m[4 * t + 2] as bv32 << 8) | m[4 * t + 3] as bv32
  }

  /** Section 6.1.2, step 1 */
  function Schedule(m: Block, t: nat): Word {
    if t < 16 then WordAt(m, t)
    else ROTL(1, Schedule(m, t - 3) ^ Schedule(m, t - 8) ^ Schedule(m, t - 14) ^ Schedule(m, t - 16))
  }

  /** The sum T of a round, modulo 2^32. */
  function Sum(a: Word, f: Word, e: Word, k: Word, w: Word): Word {
    ROTL(5, a) + f + e + k + w
  }

  /** Section 6.1.2, step 3: one round. */
  function Round(m: Block, t: nat, s: Hash): Hash {
    Hash(Sum(s.a, F(t, s.b, s.c, s.d), s.e, K(t), Schedule(m, t)), s.a, ROTL(30, s.b), s.c, s.d)
  }

  function Rounds(m: Block, t: nat, s: Hash): Hash {
    if t == 0 then s else Round(m, t - 1, Rounds(m, t - 1, s))
  }

  /** Section 6.1.2, step 4: the sums of two hash values. */
  function Plus(h: Hash, s: Hash): Hash {
    Hash(h.a + s.a, h.b + s.b, h.c + s.c, h.d + s.d, h.e + s.e)
  }

  /** Section 6.1.2: the hash value after one more block. */
  function Compress(h: Hash, m: Block): Hash {
    Plus(h, Rounds(m, 80, h))
  }

  /** Section 5.3.1 */
  const H0 := Hash(0x67452301, 0xefcdab89, 0x98badcfe, 0x10325476, 0xc3d2e1f0)

  /** The hash value of whole blocks. */
  function HashBlocks(m: seq<byte>): Hash
    requires |m| % 64 == 0
  {
    if m == [] then H0
    else Compress(HashBlocks(m[..|m| - 64]), m[|m| - 64..])
  }

  /** The number of zero bytes of the padding: the least that leaves eight bytes in the last block. */
  function ZeroCount(n: nat): (z: nat)
    ensures z < 64 && (n + 1 + z) % 64 == 56
  {
    (119 - n % 64) % 64
  }

  /** Section 5.1.1: l + 1 + k = 448 modulo 512, for a message of n bytes. */
  predicate Solves(n: nat, k: nat) {
    (8 * n + 1 + k) % 512 == 448
  }

  /** In bits, the padding has the least number of zeros that solves the equation. */
  lemma ZeroBits(n: nat)
    ensures Solves(n, 7 + 8 * ZeroCount(n))
    ensures forall j: nat :: Solves(n, j) ==> j >= 7 + 8 * ZeroCount(n)
  {
    hide ZeroCount;
    var z := ZeroCount(n);
    var k := 7 + 8 * z;
    var q := (n + 1 + z) / 64;
    assert n + 1 + z == 64 * q + 56;
    Remainder(8 * n + 1 + k, q, 448);
    forall j: nat | j < k
      ensures !Solves(n, j)
    {
      NotCongruent(q, k - j, 8 * n + 1 + j);
    }
  }

  lemma NotCongruent(q: nat, d: nat, x: nat)
    requires 0 < d < 512 && x == 512 * q + 448 - d
    ensures x % 512 != 448
  {
    if d <= 448 {
      Remainder(x, q, 448 - d);
    } else {
      Remainder(x, q - 1, 960 - d);
    }
  }

  lemma Remainder(x: nat, q: nat, r: nat)
    requires x == 512 * q + r && r < 512
    ensures x % 512 == r
  {
  }

  /** Below 2^61 bytes the length field is the length in bits. */
  lemma LengthFits(n: nat)
    requires n < 0x2000_0000_0000_0000
    ensures 8 * n % U64 == 8 * n
  {
  }

  /** A number below 2^64 as eight bytes, most significant first. */
  function BigEndian64(x: nat): (r: seq<byte>)
    ensures |r| == 8
  {
    [x / 0x100_0000_0000_0000 % 256, x / 0x1_0000_0000_0000 % 256, x / 0x100_0000_0000 % 256, x / 0x1_0000_0000 % 256,
     x / 0x100_0000 % 256, x / 0x1_0000 % 256, x / 0x100 % 256, x % 256]
  }

  /** Section 5.1.1: a one bit, zero bits, and the length in bits. */
  function Pad(m: seq<byte>): (p: seq<byte>)
    ensures |p| % 64 == 0
  {
    WholeBlocks(|m| + 1 + ZeroCount(|m|));
    m + [0x80] + Zeros(ZeroCount(|m|)) + BigEndian64(8 * |m| % U64)
  }

  lemma WholeBlocks(n: nat)
    requires n % 64 == 56
    ensures (n + 8) % 64 == 0
  {
  }

  function WordBytes(w: Word): (r: seq<byte>)
    ensures |r| == 4
  {
    [(w >> 24) as bv8 as int, ((w >> 16) & 0xff) as bv8 as int, ((w >> 8) & 0xff) as bv8 as int, (w & 0xff) as bv8 as int]
  }

  function Bytes(h: Hash): (r: seq<byte>)
    ensures |r| == 20
  {
    WordBytes(h.a) + WordBytes(h.b) + WordBytes(h.c) + WordBytes(h.d) + WordBytes(h.e)
  }

  /** The digest of a message; the standard defines it below 2^64 bits. */
  function Digest(m: seq<byte>): (r: seq<byte>)
    ensures |r| == 20
  {
    Bytes(HashBlocks(Pad(m)))
  }
}

module Sha1 {
  import opened Common
  import opened Fips180

  /** The program writes the choice and the majority with inclusive or. */
  lemma Choice(t: nat, x: Word, y: Word, z: Word)
    requires t < 20
    ensures (x & y) | (!x & z) == F(t, x, y, z)
  {
  }

  lemma Majority(t: nat, x: Word, y: Word, z: Word)
    requires 40 <= t < 60
    ensures (x & y) | (x & z) | (y & z) == F(t, x, y, z)
  {
  }

  lemma Parity(t: nat, x: Word, y: Word, z: Word)
    requires 20 <= t < 40 || 60 <= t
    ensures x ^ y ^ z == F(t, x, y, z)
  {
  }

  lemma NextWord(m: Block, t: nat)
    requires t >= 16
    ensures Schedule(m, t) == Mix(Schedule(m, t - 3), Schedule(m, t - 8), Schedule(m, t - 14), Schedule(m, t - 16))
  {
  }

  function Mix(a: Word, b: Word, c: Word, d: Word): Word {
    ROTL(1, a ^ b ^ c ^ d)
  }

  lemma NextRound(m: Block, t: nat, s: Hash)
    ensures Rounds(m, t + 1, s) == Round(m, t, Rounds(m, t, s))
  {
  }

  class Context {
    var h: Hash
    /** Bytes fed so far, in 64 bits. */
    var bytes: nat
    const block: array<byte>
    var used: nat
    ghost var message: seq<byte>

    ghost predicate Valid()
      reads this, block
    {
      Partial() && bytes == |message| % U64
    }

    /** sha1_init */
    constructor ()
      ensures Valid() && message == [] && fresh(block)
    {
      block := new byte[64](i => 0);
      h := H0;
      bytes := 0;
      used := 0;
      message := [];
    }

    /** Word i of the block, as sha1_transform puts it together. */
    method LoadWord(i: nat) returns (w: Word)
      requires block.Length == 64 && i < 16
      ensures w == WordAt(block[..], i)
    {
      w := (block[i * 4] as bv32 << 24) | (block[i * 4 + 1] as bv32 << 16)
           | (block[i * 4 + 2] as bv32 << 8) | block[i * 4 + 3] as bv32;
    }

    /** The message schedule of sha1_transform. */
    method Expand() returns (w: array<Word>)
      requires block.Length == 64
      ensures fresh(w) && w.Length == 80
      ensures forall k :: 0 <= k < 80 ==> w[k] == Schedule(block[..], k)
    {
      hide Mix, WordAt, ROTL;
      ghost var m: Block := block[..];
      w := new Word[80];
      var i := 0;
      while i < 16
        invariant 0 <= i <= 16 && forall k :: 0 <= k < i ==> w[k] == Schedule(m, k)
        modifies w
      {
        w[i] := LoadWord(i);
        i := i + 1;
      }
      while i < 80
        invariant 16 <= i <= 80 && forall k :: 0 <= k < i ==> w[k] == Schedule(m, k)
        modifies w
      {
        NextWord(m, i);
        w[i] := Mix(w[i - 3], w[i - 8], w[i - 14], w[i - 16]);
        i := i + 1;
      }
    }

    /** The function and constant of round i, as sha1_transform picks them. */
    static method RoundFunction(i: nat, b: Word, cc: Word, d: Word) returns (f: Word, k: Word)
      ensures f == F(i, b, cc, d) && k == K(i)
    {
      hide F;
      if i < 20 {
        Choice(i, b, cc, d);
        f, k := (b & cc) | (!b & d), 0x5a827999;
      } else if i < 40 {
        Parity(i, b, cc, d);
        f, k := b ^ cc ^ d, 0x6ed9eba1;
      } else if i < 60 {
        Majority(i, b, cc, d);
        f, k := (b & cc) | (b & d) | (cc & d), 0x8f1bbcdc;
      } else {
        Parity(i, b, cc, d);
        f, k := b ^ cc ^ d, 0xca62c1d6;
      }
    }

    /** One round of sha1_transform on the five working variables. */
    static method MixRound(i: nat, a: Word, b: Word, cc: Word, d: Word, e: Word, w: Word, ghost m: Block)
      returns (a2: Word, b2: Word, c2: Word, d2: Word, e2: Word)
      requires w == Schedule(m, i)
      ensures Hash(a2, b2, c2, d2, e2) == Round(m, i, Hash(a, b, cc, d, e))
    {
      hide ROTL, F, K, Schedule, Sum;
      var f, k := RoundFunction(i, b, cc, d);
      var tmp := Sum(a, f, e, k, w);
      e2, d2, c2, b2, a2 := d, cc, ROTL(30, b), a, tmp;
    }

    /** sha1_transform */
    method Transform()
      requires block.Length == 64
      modifies this`h
      ensures h == Compress(old(h), block[..])
    {
      hide Round, Schedule, Plus;
      ghost var m: Block := block[..];
      var w := Expand();
      var a, b, cc, d, e := h.a, h.b, h.c, h.d, h.e;
      var i := 0;
      while i < 80
        invariant 0 <= i <= 80 && Hash(a, b, cc, d, e) == Rounds(m, i, h)
        modifies {}
      {
        NextRound(m, i, h);
        a, b, cc, d, e := MixRound(i, a, b, cc, d, e, w[i], m);
        i := i + 1;
      }
      h := Plus(h, Hash(a, b, cc, d, e));
    }

    /** memcpy of the next n bytes into the block. */
    method Take(p: seq<byte>, pos: nat, n: nat)
      requires block.Length == 64 && used + n <= 64 && pos + n <= |p|
      modifies this`used, block
      ensures used == old(used) + n && block[..used] == old(block[..used]) + p[pos..pos + n]
    {
      forall k | 0 <= k < n {
        block[used + k] := p[pos + k];
      }
      used := used + n;
    }

    /** One turn of sha1_update's loop: fills the block as far as the input goes, and hashes it when it is full. */
    method Feed(p: seq<byte>, pos: nat) returns (n: nat)
      requires Partial() && pos < |p|
      modifies this`h, this`used, this`message, block
      ensures 0 < n <= |p| - pos
      ensures Partial() && message == old(message) + p[pos..pos + n]
    {
      hide HashBlocks, Compress, Partial;
      ghost var whole := WholeBlocks();
      n := if 64 - used > |p| - pos then |p| - pos else 64 - used;
      ghost var rest, part := p[pos..pos + n], block[..used];
      Take(p, pos, n);
      message := message + rest;
      assert whole + part + rest == whole + (part + rest);
      if used == 64 {
        Transform();
        assert block[..64] == block[..];
        OneMoreBlock(whole, block[..]);
        used := 0;
        assert block[..0] == [] && message + [] == message;
        MakePartial(message);
      } else {
        MakePartial(whole);
      }
    }

    /** The message is whole blocks that have been hashed, and what lies in the block. */
    lemma WholeBlocks() returns (whole: seq<byte>)
      requires Partial()
      ensures block.Length == 64 && used < 64 && |whole| % 64 == 0
      ensures message == whole + block[..used] && h == HashBlocks(whole)
    {
      hide HashBlocks;
      whole := message[..|message| - used];
    }

    lemma MakePartial(whole: seq<byte>)
      requires block.Length == 64 && used < 64 && |whole| % 64 == 0
      requires message == whole + block[..used] && h == HashBlocks(whole)
      ensures Partial()
    {
      hide HashBlocks;
      SplitOff(whole, block[..used], message);
    }

    /** sha1_update: any number of bytes, in any split. */
    method Update(p: seq<byte>)
      requires Valid()
      modifies this`h, this`bytes, this`used, this`message, block
      ensures Valid() && message == old(message) + p
    {
      hide HashBlocks, Partial;
      CountMore(|message|, |p|);
      bytes := (bytes + |p|) % U64;
      var pos := 0;
      while pos < |p|
        invariant 0 <= pos <= |p| && message == old(message) + p[..pos]
        invariant bytes == (|old(message)| + |p|) % U64
        invariant Partial()
      {
        var n := Feed(p, pos);
        assert p[..pos + n] == p[..pos] + p[pos..pos + n];
        pos := pos + n;
      }
      assert p[..|p|] == p;
    }

    /** sha1_final: the padding goes through sha1_update; its loop over zero bytes ends. */
    method Final() returns (out: seq<byte>)
      requires Valid()
      modifies this`h, this`bytes, this`used, this`message, block
      ensures out == Digest(old(message))
    {
      hide HashBlocks, ZeroCount, BigEndian64, Partial;
      ghost var m := message;
      var bits := bytes * 8 % U64;
      BitCount(|m|);
      Update([0x80]);
      ghost var z := 0;
      UsedIs();
      while used != 56
        invariant Valid() && z <= ZeroCount(|m|) && message == m + [0x80] + Zeros(z) && used == |message| % 64
        decreases ZeroCount(|m|) - z
      {
        BelowZeroCount(|m|, z);
        Update([0]);
        z := z + 1;
        UsedIs();
      }
      ExactZeroCount(|m|, z);
      var len := LengthBytes(bits);
      Update(len);
      assert message == Pad(m);
      ghost var whole := WholeBlocks();
      UsedIs();
      assert block[..0] == [] && whole + [] == whole;
      return WordBytes(h.a) + WordBytes(h.b) + WordBytes(h.c) + WordBytes(h.d) + WordBytes(h.e);
    }

    lemma UsedIs()
      requires Partial()
      ensures used == |message| % 64
    {
    }

    static method LengthBytes(bits: nat) returns (len: seq<byte>)
      requires bits < U64
      ensures len == BigEndian64(bits)
    {
      var a := new byte[8];
      var i := 0;
      Powers();
      while i < 8
        invariant 0 <= i <= 8
        invariant forall k :: 0 <= k < i ==> a[7 - k] == bits / Power256(k) % 256
      {
        a[7 - i] := bits / Power256(i) % 256;
        i := i + 1;
      }
      assert a[7] == bits / Power256(0) % 256 && a[6] == bits / Power256(1) % 256 && a[5] == bits / Power256(2) % 256
             && a[4] == bits / Power256(3) % 256 && a[3] == bits / Power256(4) % 256 && a[2] == bits / Power256(5) % 256
             && a[1] == bits / Power256(6) % 256 && a[0] == bits / Power256(7) % 256 by {
        assert forall k :: 0 <= k < 8 ==> a[7 - k] == bits / Power256(k) % 256;
        assert a[7 - 0] == a[7] && a[7 - 1] == a[6] && a[7 - 2] == a[5] && a[7 - 3] == a[4] && a[7 - 4] == a[3]
               && a[7 - 5] == a[2] && a[7 - 6] == a[1] && a[7 - 7] == a[0];
      }
      return a[..];
    }

    /** Valid, but for the byte count. */
    ghost predicate Partial()
      reads this`h, this`used, this`message, block
    {
      && block.Length == 64 && used < 64 && used == |message| % 64
      && block[..used] == message[|message| - used..]
      && h == HashBlocks(message[..|message| - used])
    }
  }

  function Power256(i: nat): (p: nat)
    ensures p > 0
  {
    if i == 0 then 1 else 256 * Power256(i - 1)
  }

  lemma Powers()
    ensures Power256(0) == 1 && Power256(1) == 0x100 && Power256(2) == 0x1_0000 && Power256(3) == 0x100_0000
    ensures Power256(4) == 0x1_0000_0000 && Power256(5) == 0x100_0000_0000 && Power256(6) == 0x1_0000_0000_0000
    ensures Power256(7) == 0x100_0000_0000_0000
  {
    assert Power256(2) == 256 * Power256(1);
    assert Power256(3) == 256 * Power256(2);
    assert Power256(4) == 256 * Power256(3);
    assert Power256(5) == 256 * Power256(4);
    assert Power256(6) == 256 * Power256(5);
  }

  lemma CountMore(n: nat, k: nat)
    ensures (n % U64 + k) % U64 == (n + k) % U64
  {
  }

  lemma BitCount(n: nat)
    ensures n % U64 * 8 % U64 == 8 * n % U64
  {
    var q, r := n / U64, n % U64;
    assert 8 * n == 8 * r + 8 * q * U64;
    ModuloMultiple(8 * r, 8 * q);
  }

  lemma {:induction false} ModuloMultiple(x: nat, q: nat)
    ensures (x + q * U64) % U64 == x % U64
  {
    if q > 0 {
      ModuloMultiple(x, q - 1);
      assert x + q * U64 == x + (q - 1) * U64 + U64;
    }
  }

  /** Fewer zero bytes than the padding has do not yet leave eight bytes in the block. */
  lemma BelowZeroCount(n: nat, z: nat)
    requires z <= ZeroCount(n) && (n + 1 + z) % 64 != 56
    ensures z < ZeroCount(n)
    ensures Zeros(z) + [0] == Zeros(z + 1)
  {
  }

  lemma ExactZeroCount(n: nat, z: nat)
    requires z <= ZeroCount(n) && (n + 1 + z) % 64 == 56
    ensures z == ZeroCount(n)
  {
  }

  function HexDigit(n: nat): char
    requires n < 16
  {
    "0123456789abcdef"[n]
  }

  function Hex(d: seq<byte>): (s: string)
    ensures |s| == 2 * |d|
  {
    if d == [] then "" else [HexDigit(d[0] / 16), HexDigit(d[0] % 16)] + Hex(d[1..])
  }

  /** Hexadecimal digits are lower-case. */
  lemma {:induction false} HexLower(d: seq<byte>)
    ensures forall i :: 0 <= i < |Hex(d)| ==> '0' <= Hex(d)[i] <= '9' || 'a' <= Hex(d)[i] <= 'f'
  {
    if d != [] {
      HexLower(d[1..]);
    }
  }

  /** hex20 */
  method ToHex(d: seq<byte>) returns (s: string)
    ensures s == Hex(d)
  {
    s := "";
    assert d[0..] == d;
    for i := 0 to |d|
      invariant s + Hex(d[i..]) == Hex(d)
    {
      assert d[i..][1..] == d[i + 1..];
      s := s + [HexDigit(d[i] / 16), HexDigit(d[i] % 16)];
    }
  }

  function HexDigest(m: seq<byte>): (s: string)
    ensures |s| == 40
  {
    Hex(Digest(m))
  }

  lemma DigestLower(m: seq<byte>)
    ensures forall i :: 0 <= i < 40 ==> '0' <= HexDigest(m)[i] <= '9' || 'a' <= HexDigest(m)[i] <= 'f'
  {
    HexLower(Digest(m));
  }

  /** ds4_kvstore_sha1_bytes_hex */
  method BytesHex(m: seq<byte>) returns (s: string)
    ensures s == HexDigest(m)
  {
    var c := new Context();
    c.Update(m);
    assert [] + m == m;
    var digest := c.Final();
    s := ToHex(digest);
  }

  lemma RestOf(a: nat, b: nat)
    requires a % 64 == 0 && b < 64
    ensures (a + b) % 64 == b
  {
  }

  lemma SplitOff(a: seq<byte>, b: seq<byte>, m: seq<byte>)
    requires |a| % 64 == 0 && |b| < 64 && m == a + b
    ensures |b| == |m| % 64 && m[..|m| - |b|] == a && m[|m| - |b|..] == b
  {
    RestOf(|a|, |b|);
  }

  lemma OneMoreBlock(m: seq<byte>, b: Block)
    requires |m| % 64 == 0
    ensures HashBlocks(m + b) == Compress(HashBlocks(m), b)
  {
    var mb := m + b;
    assert mb[..|mb| - 64] == m && mb[|mb| - 64..] == b;
  }
}
