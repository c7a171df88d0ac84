/** The open-addressed table from byte strings to token ids, with linear probing and no deletion. */
module HashTables {
  import opened Common
  import opened LittleEndian
  import opened Rings

  datatype Entry = Entry(used: bool, key: Bytes, value: int)

  const FREE := Entry(false, [], 0)

  function Pow2(k: nat): (p: nat)
    ensures p > 0
  {
    if k == 0 then 1 else 2 * Pow2(k - 1)
  }

  lemma {:induction false} Pow2Grows(j: nat, k: nat)
    requires j <= k
    ensures Pow2(j) <= Pow2(k)
  {
    if j < k {
      Pow2Grows(j, k - 1);
    }
  }

  lemma {:induction false} Pow2Sum(j: nat, k: nat)
    ensures Pow2(j + k) == Pow2(j) * Pow2(k)
  {
    if j > 0 {
      Pow2Sum(j - 1, k);
      assert Pow2(j + k) == 2 * (Pow2(j - 1) * Pow2(k));
    }
  }

  /** next_pow2: the least power of two that is not below n, for every n a 64-bit power of two can reach. */
  method NextPow2(n: nat) returns (p: nat, ghost k: nat)
    requires n <= Pow2(63)
    ensures p == Pow2(k) && k <= 63 && n <= p
    ensures forall j: nat :: n <= Pow2(j) ==> k <= j
  {
    p, k := 1, 0;
    while p < n
      invariant p == Pow2(k) && k <= 63
      invariant forall j: nat :: n <= Pow2(j) ==> k <= j
      decreases 63 - k
    {
      forall j: nat | n <= Pow2(j)
        ensures k + 1 <= j
      {
        if j <= k {
          Pow2Grows(j, k);
        }
      }
      p, k := 2 * p, k + 1;
    }
  }

  /** The slot d probes after the first one; the mask of a power of two is the remainder. */
  function Probe(hash: Bytes -> nat, cap: nat, key: Bytes, d: nat): (i: nat)
    requires cap > 0
    ensures i < cap
  {
    Slot(Slot(hash(key), cap) + d, cap)
  }

  /** A key lies in its slot, and every slot probed on the way there is used. */
  ghost predicate Placed(hash: Bytes -> nat, es: seq<Entry>, key: Bytes, value: int, at: nat) {
    && at < |es| && es[Probe(hash, |es|, key, at)] == Entry(true, key, value)
    && forall d: nat :: d < at ==> es[Probe(hash, |es|, key, d)].used
  }

  /** A used slot belongs to the key in it, so no key has two slots. */
  ghost predicate Owned(hash: Bytes -> nat, es: seq<Entry>, at: map<Bytes, nat>, i: nat)
    requires i < |es|
  {
    es[i].used ==> es[i].key in at && Probe(hash, |es|, es[i].key, at[es[i].key]) == i
  }

  ghost predicate AllPlaced(hash: Bytes -> nat, es: seq<Entry>, m: map<Bytes, int>, at: map<Bytes, nat>) {
    at.Keys == m.Keys && forall key :: key in m ==> Placed(hash, es, key, m[key], at[key])
  }

  /** The slots hold exactly a map, with each key at a known distance from its first slot. */
  ghost predicate Refines(hash: Bytes -> nat, es: seq<Entry>, m: map<Bytes, int>, at: map<Bytes, nat>) {
    && |es| > |m| && AllPlaced(hash, es, m, at)
    && (forall i: nat :: i < |es| ==> Owned(hash, es, at, i))
  }

  /** The first d probes for a key find other keys. */
  ghost predicate Passed(hash: Bytes -> nat, es: seq<Entry>, key: Bytes, d: nat)
    requires |es| > 0
  {
    forall e: nat :: e < d ==> es[Probe(hash, |es|, key, e)].used && es[Probe(hash, |es|, key, e)].key != key
  }

  function Keys(es: seq<Entry>, n: nat): (s: set<Bytes>)
    requires n <= |es|
  {
    set i: nat | i < n && es[i].used :: es[i].key
  }

  lemma {:induction false} CountKeys(hash: Bytes -> nat, es: seq<Entry>, at: map<Bytes, nat>, n: nat)
    requires forall i: nat :: i < |es| ==> Owned(hash, es, at, i)
    requires n <= |es| && forall i: nat :: i < |es| ==> es[i].used
    ensures |Keys(es, n)| == n
  {
    hide Probe;
    if n == 0 {
      assert Keys(es, n) == {};
    } else {
      CountKeys(hash, es, at, n - 1);
      assert Owned(hash, es, at, n - 1);
      assert Keys(es, n) == Keys(es, n - 1) + {es[n - 1].key};
      forall i: nat | i < n - 1
        ensures es[i].key != es[n - 1].key
      {
        assert Owned(hash, es, at, i);
      }
    }
  }

  /** While the table maps fewer keys than it has slots, some slot is free. */
  lemma SomeFree(hash: Bytes -> nat, es: seq<Entry>, m: map<Bytes, int>, at: map<Bytes, nat>) returns (free: nat)
    requires Refines(hash, es, m, at)
    ensures free < |es| && !es[free].used
  {
    hide Probe;
    if f: nat :| f < |es| && !es[f].used {
      free := f;
    } else {
      CountKeys(hash, es, at, |es|);
      forall key | key in Keys(es, |es|)
        ensures key in m.Keys
      {
        var i: nat :| i < |es| && es[i].used && es[i].key == key;
        assert Owned(hash, es, at, i);
      }
      Within(Keys(es, |es|), m.Keys);
      assert false;
    }
  }

  /** Probing reaches every slot within one lap. */
  lemma Reached(hash: Bytes -> nat, cap: nat, key: Bytes, i: nat) returns (d: nat)
    requires i < cap
    ensures d < cap && Probe(hash, cap, key, d) == i
  {
    var home := Slot(hash(key), cap);
    d := if i >= home then i - home else i + cap - home;
    SlotIs(home + d, cap, if i >= home then 0 else 1, i);
  }

  lemma FirstProbe(hash: Bytes -> nat, cap: nat, key: Bytes)
    requires cap > 0
    ensures Probe(hash, cap, key, 0) == Slot(hash(key), cap)
  {
    hide Slot;
    SlotTwice(hash(key), cap);
  }

  lemma NextProbe(hash: Bytes -> nat, cap: nat, key: Bytes, d: nat)
    requires cap > 0
    ensures Probe(hash, cap, key, d + 1) == Slot(Probe(hash, cap, key, d) + 1, cap)
  {
    hide Slot;
    SlotAfter(Slot(hash(key), cap) + d, 1, cap);
  }

  /** Where probing stops, the key has its value, or the key is nowhere. */
  lemma Stopped(hash: Bytes -> nat, es: seq<Entry>, m: map<Bytes, int>, at: map<Bytes, nat>, key: Bytes, d: nat)
    requires Refines(hash, es, m, at) && d < |es| && Passed(hash, es, key, d)
    requires var e := es[Probe(hash, |es|, key, d)]; e.used ==> e.key == key
    ensures var e := es[Probe(hash, |es|, key, d)];
      if e.used then key in m && m[key] == e.value else key !in m
  {
    hide Probe;
    var i := Probe(hash, |es|, key, d);
    if es[i].used {
      assert Owned(hash, es, at, i);
      assert Placed(hash, es, key, m[key], at[key]);
    }
  }

  lemma Overwritten(hash: Bytes -> nat, es: seq<Entry>, m: map<Bytes, int>, at: map<Bytes, nat>, i: nat, key: Bytes, value: int)
    requires Refines(hash, es, m, at) && i < |es| && es[i].used && es[i].key == key && key in m
    ensures Refines(hash, es[i := Entry(true, key, value)], m[key := value], at)
  {
    hide Probe;
    var after, m' := es[i := Entry(true, key, value)], m[key := value];
    assert m'.Keys == m.Keys;
    Within(m'.Keys, m.Keys);
    assert Owned(hash, es, at, i);
    forall k | k in m'
      ensures Placed(hash, after, k, m'[k], at[k])
    {
      assert Placed(hash, es, k, m[k], at[k]);
    }
    forall j: nat | j < |after|
      ensures Owned(hash, after, at, j)
    {
      assert Owned(hash, es, at, j);
    }
  }

  lemma InsertedPlaced(hash: Bytes -> nat, es: seq<Entry>, m: map<Bytes, int>, at: map<Bytes, nat>, d: nat, key: Bytes, value: int)
    requires Refines(hash, es, m, at) && key !in m
    requires d < |es| && Passed(hash, es, key, d) && !es[Probe(hash, |es|, key, d)].used
    ensures AllPlaced(hash, es[Probe(hash, |es|, key, d) := Entry(true, key, value)], m[key := value], at[key := d])
  {
    hide Probe, Owned;
    var after := es[Probe(hash, |es|, key, d) := Entry(true, key, value)];
    var m', at' := m[key := value], at[key := d];
    forall k | k in m'
      ensures Placed(hash, after, k, m'[k], at'[k])
    {
      if k != key {
        assert Placed(hash, es, k, m[k], at[k]);
      }
    }
  }

  lemma Inserted(hash: Bytes -> nat, es: seq<Entry>, m: map<Bytes, int>, at: map<Bytes, nat>, d: nat, key: Bytes, value: int)
    requires Refines(hash, es, m, at) && key !in m && |m| + 1 < |es|
    requires d < |es| && Passed(hash, es, key, d) && !es[Probe(hash, |es|, key, d)].used
    ensures Refines(hash, es[Probe(hash, |es|, key, d) := Entry(true, key, value)], m[key := value], at[key := d])
  {
    hide Probe, Placed;
    var i := Probe(hash, |es|, key, d);
    var after, m', at' := es[i := Entry(true, key, value)], m[key := value], at[key := d];
    assert m'.Keys == m.Keys + {key} && at'.Keys == m'.Keys;
    forall j: nat | j < |after|
      ensures Owned(hash, after, at', j)
    {
      if j != i {
        assert Owned(hash, es, at, j);
      }
    }
    InsertedPlaced(hash, es, m, at, d, key, value);
  }

  class Table {
    /** hash_bytes; nothing below depends on which function it is. */
    const hash: Bytes -> nat
    var entries: array<Entry>
    var used: nat
    /** What the table maps, and how many probes away each key lies. */
    ghost var contents: map<Bytes, int>
    ghost var at: map<Bytes, nat>

    ghost predicate Valid()
      reads this, entries
    {
      && used == |contents|
      && (if entries.Length == 0 then contents == map[] else Refines(hash, entries[..], contents, at))
    }

    /** table_init */
    constructor (hash: Bytes -> nat, expected: nat)
      requires expected * 2 + 16 <= Pow2(63)
      ensures Valid() && fresh(entries) && contents == map[] && this.hash == hash
      ensures 2 * expected + 16 <= entries.Length
    {
      hide Pow2, Probe;
      var cap, k := NextPow2(expected * 2 + 16);
      this.hash := hash;
      entries := new Entry[cap](_ => FREE);
      used := 0;
      contents, at := map[], map[];
    }

    /** table_free: a table without slots answers every lookup with no. */
    method Free()
      modifies this
      ensures Valid() && contents == map[] && entries.Length == 0
    {
      entries := new Entry[0];
      used := 0;
      contents, at := map[], map[];
    }

    /** The loop of table_put and table_get: on to the key or to a free slot. */
    method Seek(key: Bytes) returns (i: nat, ghost d: nat)
      requires Valid() && entries.Length > 0
      ensures d < entries.Length && i == Probe(hash, entries.Length, key, d) && Passed(hash, entries[..], key, d)
      ensures if entries[i].used then entries[i].key == key && key in contents && contents[key] == entries[i].value
              else key !in contents
    {
      hide Slot, Probe, Refines;
      ghost var es := entries[..];
      var cap := entries.Length;
      ghost var free := SomeFree(hash, es, contents, at);
      ghost var lap := Reached(hash, cap, key, free);
      i, d := Slot(hash(key), cap), 0;
      FirstProbe(hash, cap, key);
      while entries[i].used && entries[i].key != key
        invariant d <= lap && i == Probe(hash, cap, key, d) && Passed(hash, es, key, d)
        decreases lap - d
      {
        i := Slot(i + 1, cap);
        NextProbe(hash, cap, key, d);
        d := d + 1;
      }
      Stopped(hash, es, contents, at, key, d);
    }

    /** table_get */
    method Get(key: Bytes) returns (r: Option<int>)
      requires Valid()
      ensures r == Look(contents, key)
    {
      if entries.Length == 0 {
        return None;
      }
      var i, d := Seek(key);
      if entries[i].used {
        return Some(entries[i].value);
      }
      return None;
    }

    /** table_put, while there is room for one more key besides a free slot. */
    method Put(key: Bytes, value: int)
      requires Valid() && entries.Length > 0
      requires key in contents || used + 1 < entries.Length
      modifies this, entries
      ensures Valid() && entries == old(entries)
      ensures contents == old(contents)[key := value]
    {
      hide Probe, Refines, Passed;
      var i, d := Seek(key);
      ghost var es := entries[..];
      if entries[i].used {
        Overwritten(hash, es, contents, at, i, key, value);
        entries[i] := Entry(true, key, value);
        assert entries[..] == es[i := Entry(true, key, value)];
        assert contents[key := value].Keys == contents.Keys;
        contents := contents[key := value];
        return;
      }
      Inserted(hash, es, contents, at, d, key, value);
      entries[i] := Entry(true, key, value);
      assert entries[..] == es[i := Entry(true, key, value)];
      used := used + 1;
      contents, at := contents[key := value], at[key := d];
    }
  }

  lemma {:induction false} Within<T>(a: set<T>, b: set<T>)
    requires a <= b
    ensures |a| <= |b|
  {
    if x :| x in a {
      Within(a - {x}, b - {x});
    }
  }

  // ------------------------------------------------------------------ any sequence of puts

  /** What is left after putting the pairs one after the other. */
  ghost function LastValues(puts: seq<(Bytes, int)>): map<Bytes, int> {
    if puts == [] then map[]
    else LastValues(puts[..|puts| - 1])[puts[|puts| - 1].0 := puts[|puts| - 1].1]
  }

  /** A key has the value of its last put, and no value when it was never put. */
  lemma {:induction false} LastPutWins(puts: seq<(Bytes, int)>, key: Bytes)
    ensures key in LastValues(puts) <==> exists i :: 0 <= i < |puts| && puts[i].0 == key
    ensures forall i :: 0 <= i < |puts| && puts[i].0 == key && (forall j :: i < j < |puts| ==> puts[j].0 != key)
              ==> key in LastValues(puts) && LastValues(puts)[key] == puts[i].1
  {
    if puts != [] {
      var rest := puts[..|puts| - 1];
      LastPutWins(rest, key);
      assert forall i :: 0 <= i < |rest| ==> rest[i] == puts[i];
    }
  }

  lemma {:induction false} FewKeys(puts: seq<(Bytes, int)>)
    ensures |LastValues(puts)| <= |puts|
  {
    if puts != [] {
      FewKeys(puts[..|puts| - 1]);
    }
  }

  /** A table made for a number of entries takes that many puts, and then answers with the last value of each key. */
  method Fill(hash: Bytes -> nat, expected: nat, puts: seq<(Bytes, int)>) returns (t: Table)
    requires expected * 2 + 16 <= Pow2(63) && |puts| <= expected
    ensures fresh(t) && fresh(t.entries) && t.Valid() && t.contents == LastValues(puts)
  {
    hide Pow2, Refines;
    t := new Table(hash, expected);
    ghost var cap := t.entries.Length;
    assert puts[..0] == [];
    for n := 0 to |puts|
      invariant fresh(t) && fresh(t.entries) && t.Valid() && t.entries.Length == cap
      invariant t.contents == LastValues(puts[..n])
    {
      assert puts[..n + 1][..n] == puts[..n];
      FewKeys(puts[..n]);
      t.Put(puts[n].0, puts[n].1);
    }
    assert puts[..|puts|] == puts;
  }
}
