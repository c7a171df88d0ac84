/**
 * Rings of rows: position p of a sequence lives in slot p mod cap, so the newest cap positions are
 * the ones a ring can still hold.
 */
module Rings {
  function Slot(p: nat, cap: nat): (s: nat)
    requires cap > 0
    ensures s < cap
  {
    p % cap
  }

  lemma Bigger(cap: int, k: int)
    requires cap > 0
    ensures k >= 1 ==> cap * k >= cap
    ensures k <= -1 ==> cap * k <= -cap
  {
  }

  lemma Spread(cap: int, a: int, b: int)
    ensures cap * a - cap * b == cap * (a - b) && cap * (a + b) == cap * a + cap * b
  {
  }

  lemma Split(p: nat, cap: nat)
    requires cap > 0
    ensures p == cap * (p / cap) + p % cap && 0 <= p % cap < cap
  {
  }

  /** Positions less than one lap apart never share a slot. */
  lemma SlotsApart(p: nat, q: nat, cap: nat)
    requires p < q < p + cap
    ensures Slot(p, cap) != Slot(q, cap)
  {
    Split(p, cap);
    Split(q, cap);
    Spread(cap, q / cap, p / cap);
    Bigger(cap, q / cap - p / cap);
  }

  lemma SlotIs(p: nat, cap: nat, a: int, r: nat)
    requires cap > 0 && p == cap * a + r && r < cap
    ensures Slot(p, cap) == r
  {
    Split(p, cap);
    Spread(cap, p / cap, a);
    Bigger(cap, p / cap - a);
  }

  /** Stepping i slots on from the slot of p, or taking the slot of p + i, is the same. */
  lemma SlotAfter(p: nat, i: nat, cap: nat)
    requires cap > 0
    ensures Slot(Slot(p, cap) + i, cap) == Slot(p + i, cap)
  {
    var s := Slot(p, cap) + i;
    Split(p, cap);
    Split(s, cap);
    Spread(cap, p / cap, s / cap);
    SlotIs(p + i, cap, p / cap + s / cap, s % cap);
  }

  lemma SlotTwice(p: nat, cap: nat)
    requires cap > 0
    ensures Slot(Slot(p, cap), cap) == Slot(p, cap)
  {
    SlotAfter(p, 0, cap);
  }

  /** Once a row has been stored at every position before end, nothing is left from before the last lap. */
  function Latest(low: nat, end: nat, cap: nat): (l: nat)
    ensures l >= low && l + cap >= end
  {
    if end > low + cap then end - cap else low
  }

  /** The slots of positions lo up to hi hold what the text has there. */
  ghost predicate Holds<T>(rows: seq<T>, text: seq<T>, lo: nat, hi: nat)
  {
    |rows| > 0 && lo <= hi <= |text| && forall p: nat :: lo <= p < hi ==> rows[Slot(p, |rows|)] == text[p]
  }

  lemma HoldsLess<T>(rows: seq<T>, text: seq<T>, longer: seq<T>, lo: nat, hi: nat, from: nat, to: nat)
    requires Holds(rows, longer, lo, hi) && lo <= from <= to <= hi && text <= longer && to <= |text|
    ensures Holds(rows, text, from, to)
  {
  }

  lemma HoldsMore<T>(rows: seq<T>, text: seq<T>, longer: seq<T>, lo: nat, hi: nat)
    requires Holds(rows, text, lo, hi) && text <= longer
    ensures Holds(rows, longer, lo, hi)
  {
  }

  lemma HoldsEmpty<T>(rows: seq<T>, text: seq<T>, at: nat)
    requires |rows| > 0 && at <= |text|
    ensures Holds(rows, text, at, at)
  {
  }

  lemma HoldsNothing<T>(rows: seq<T>, text: seq<T>)
    requires |rows| > 0
    ensures Holds(rows, text, |text|, |text|)
  {
  }

  /** n rows read one slot after the other, the way the attention kernels walk a ring. */
  function Linear<T>(rows: seq<T>, start: nat, n: nat): (r: seq<T>)
    requires |rows| > 0
    ensures |r| == n
    ensures forall i :: 0 <= i < n ==> r[i] == rows[Slot(start + i, |rows|)]
  {
    seq(n, i requires 0 <= i < n => rows[Slot(start + i, |rows|)])
  }

  /** Reading from the slot of lo gives the text between lo and hi, in order. */
  lemma LinearHeld<T>(rows: seq<T>, text: seq<T>, lo: nat, hi: nat)
    requires Holds(rows, text, lo, hi)
    ensures Linear(rows, Slot(lo, |rows|), hi - lo) == text[lo..hi]
  {
    hide Slot;
    var r := Linear(rows, Slot(lo, |rows|), hi - lo);
    forall i | 0 <= i < hi - lo
      ensures r[i] == text[lo..hi][i]
    {
      SlotAfter(lo, i, |rows|);
      assert rows[Slot(lo + i, |rows|)] == text[lo + i];
    }
  }

  /** Storing the next position of the text drops at most the position one lap before it. */
  lemma StoreExtends<T>(rows: seq<T>, text: seq<T>, lo: nat, row: T, from: nat)
    requires Holds(rows, text, lo, |text|)
    requires lo <= from <= |text| + 1 && |text| < from + |rows|
    ensures Holds(rows[Slot(|text|, |rows|) := row], text + [row], from, |text| + 1)
  {
    hide Slot;
    var p, after := |text|, rows[Slot(|text|, |rows|) := row];
    forall q: nat | from <= q < p + 1
      ensures after[Slot(q, |rows|)] == (text + [row])[q]
    {
      if q < p {
        SlotsApart(q, p, |rows|);
      }
    }
  }

  /** Storing a run of rows from a slot on, one after the other. */
  method StoreFrom<T>(rows: array<T>, slot: nat, batch: seq<T>, ghost text: seq<T>, ghost lo: nat)
    requires rows.Length > 0 && Holds(rows[..], text, lo, |text|)
    requires Slot(slot, rows.Length) == Slot(|text|, rows.Length)
    requires |text| + |batch| <= lo + rows.Length
    modifies rows
    ensures Holds(rows[..], text + batch, lo, |text| + |batch|)
  {
    hide Slot;
    var i := 0;
    while i < |batch|
      invariant i <= |batch| && Holds(rows[..], text + batch[..i], lo, |text| + i)
    {
      SlotAfter(slot, i, rows.Length);
      SlotAfter(|text|, i, rows.Length);
      ghost var before := rows[..];
      rows[Slot(slot + i, rows.Length)] := batch[i];
      StoreExtends(before, text + batch[..i], lo, batch[i], lo);
      assert text + batch[..i + 1] == text + batch[..i] + [batch[i]];
      i := i + 1;
    }
    assert batch[..i] == batch;
  }
}
