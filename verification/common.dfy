/** What every module shares: bytes as bounded integers, an option type, the word sizes, alignment. */
module Common {
  type byte = b: int | 0 <= b < 256

  const U32 := 0x1_0000_0000
  const U64 := 0x1_0000_0000_0000_0000

  datatype Option<+T> = None | Some(value: T)

  function Min(a: nat, b: nat): nat {
    if a < b then a else b
  }

  /** align_up */
  function AlignUp(x: nat, a: nat): (r: nat)
    requires a > 0
    ensures x <= r < x + a
  {
    if x % a == 0 then x else x + a - x % a
  }

  /** The least multiple of the alignment that is not below x. */
  lemma AlignedUp(x: nat, a: nat) returns (k: nat)
    requires a > 0
    ensures AlignUp(x, a) == k * a && x <= k * a < x + a
  {
    assert x == x / a * a + x % a;
    if x % a == 0 {
      k := x / a;
    } else {
      k := x / a + 1;
      assert k * a == x / a * a + a;
    }
  }

  /** The lookup result of a finite map, with absence made explicit. */
  function Look<K, V>(m: map<K, V>, k: K): Option<V> {
    if k in m then Some(m[k]) else None
  }
}
