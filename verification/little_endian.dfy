/** Numbers stored least significant byte first. */
module LittleEndian {
  import opened Common

  type Bytes = seq<byte>

  /** A number as n bytes, least significant first; higher bits are cut off. */
  function Put(v: nat, n: nat): (r: Bytes)
    ensures |r| == n
  {
    if n == 0 then [] else [v % 256] + Put(v / 256, n - 1)
  }

  function Get(p: Bytes): nat {
    if p == [] then 0 else p[0] + 256 * Get(p[1..])
  }

  function Range(n: nat): (r: nat)
    ensures r > 0
  {
    if n == 0 then 1 else 256 * Range(n - 1)
  }

  lemma {:induction false} GetPut(v: nat, n: nat)
    requires v < Range(n)
    ensures Get(Put(v, n)) == v
  {
    if n > 0 {
      GetPut(v / 256, n - 1);
      assert Put(v, n)[1..] == Put(v / 256, n - 1);
    }
  }

  lemma {:induction false} GetBound(p: Bytes)
    ensures Get(p) < Range(|p|)
  {
    if p != [] {
      GetBound(p[1..]);
    }
  }

  lemma Ranges()
    ensures Range(4) == U32 && Range(8) == U64
  {
    assert Range(2) == 256 * Range(1) && Range(3) == 256 * Range(2) && Range(4) == 256 * Range(3);
    assert Range(5) == 256 * Range(4) && Range(6) == 256 * Range(5) && Range(7) == 256 * Range(6) && Range(8) == 256 * Range(7);
  }

  lemma {:induction false} PutGet(p: Bytes)
    ensures Put(Get(p), |p|) == p
  {
    if p != [] {
      PutGet(p[1..]);
      assert Get(p) % 256 == p[0] && Get(p) / 256 == Get(p[1..]);
    }
  }
}
