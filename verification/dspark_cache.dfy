/**
 * The support rows the drafting stages attend to: a ring with a window of consecutive tokens, kept
 * as a first slot, a first token and a length.
 */
module DsparkCaches {
  import opened Common
  import opened Rings

  /**
   * A cache as it is reasoned about: the rows of the session, the positions low up to high whose slots
   * still hold them, and the window.
   */
  datatype View<T> = View(text: seq<T>, low: nat, high: nat, first: nat, len: nat)

  /** metal_graph_dspark_cache_window_valid */
  predicate WindowFits(cap: nat, token: nat, raw: nat, n: nat) {
    if n > cap then false
    else n == 0 || !(cap == 0 || raw >= cap || token > U32 - 1 - n || raw != Slot(token, cap))
  }

  class DsparkCache<T> {
    const cap: nat
    const rows: array<T>
    var start: nat
    var tokenStart: nat
    var len: nat
    /** The target rows of the tokens of the session so far. */
    ghost var text: seq<T>
    /** The slots of these positions still hold the rows of the session. */
    ghost var low: nat
    ghost var high: nat

    ghost function Now(): View<T>
      reads this
    {
      View(text, low, high, if len == 0 then 0 else tokenStart, len)
    }

    predicate CurrentWindowValid()
      reads this
    {
      WindowFits(cap, tokenStart, start, len)
    }

    /** metal_graph_dspark_cache_ends_at */
    predicate EndsAt(pos: nat)
      reads this
    {
      CurrentWindowValid() && (len == 0 || (tokenStart <= U32 - 1 - len && tokenStart + len == pos))
    }

    /** The fields are 32-bit numbers and the ring has its capacity. */
    ghost predicate Fields()
      reads this
    {
      rows.Length == cap < U32 - 1 && start < U32 && tokenStart < U32 && len <= cap
    }

    /** The slots of low up to high hold what a session has there, and the window lies among them. */
    ghost predicate Keeps(was: seq<T>)
      reads this, rows
    {
      && low <= high <= |was| && (cap > 0 ==> Holds(rows[..], was, low, high))
      && (len > 0 ==> low <= tokenStart && tokenStart + len <= high)
    }

    ghost predicate Valid()
      reads this, rows
    {
      Fields() && CurrentWindowValid() && |text| < U32 && Keeps(text)
    }

    /** The window holds the last tokens of the session, or nothing. */
    ghost predicate AtEnd()
      reads this
    {
      len == 0 || tokenStart + len == |text|
    }

    /** The rows of the window, first token first. */
    ghost function Window(): (w: seq<T>)
      requires Fields()
      reads this, rows
      ensures |w| == len
    {
      if len == 0 then [] else Linear(rows[..], start, len)
    }

    /** The window is a contiguous part of a session's rows. */
    lemma WindowIs(was: seq<T>)
      requires Fields() && CurrentWindowValid() && Keeps(was) && len > 0
      ensures Window() == was[tokenStart..tokenStart + len]
    {
      LinearHeld(rows[..], was, tokenStart, tokenStart + len);
    }

    constructor (cap: nat, filler: T)
      requires cap < U32 - 1
      ensures Valid() && fresh(rows) && this.cap == cap && Now() == View([], 0, 0, 0, 0)
    {
      this.cap := cap;
      rows := new T[cap](_ => filler);
      start, tokenStart, len, text, low, high := 0, 0, 0, [], 0, 0;
    }

    /** metal_graph_dspark_cache_reset */
    method Reset()
      modifies `start, `tokenStart, `len
      ensures start == 0 && tokenStart == 0 && len == 0
      ensures old(Valid()) ==> Valid() && Now() == After(cap, old(Now()), Step.Reset)
    {
      start, tokenStart, len := 0, 0, 0;
    }

    /** metal_graph_dspark_cache_set_window */
    method SetWindow(token: nat, n: nat) returns (ok: bool)
      requires Fields() && token < U32 && n < U32
      modifies `start, `tokenStart, `len
      ensures Fields()
      ensures ok <==> n <= cap && (n == 0 || token + n < U32)
      ensures ok ==> CurrentWindowValid() && len == n && (n > 0 ==> tokenStart == token)
      ensures !ok ==> start == old(start) && tokenStart == old(tokenStart) && len == old(len)
    {
      if n > cap {
        return false;
      }
      var raw := if n > 0 && cap > 0 then Slot(token, cap) else 0;
      if !WindowFits(cap, if n > 0 then token else 0, raw, n) {
        return false;
      }
      start, tokenStart, len := raw, if n > 0 then token else 0, n;
      return true;
    }

    /**
     * metal_graph_dspark_cache_claim_appended_row, after the row of position pos has been stored.
     * The claim leaves a window that is valid unless pos is the last 32-bit number.
     */
    method ClaimAppendedRow(pos: nat) returns (ok: bool)
      requires Fields() && pos < U32
      modifies `start, `tokenStart, `len
      ensures Fields()
      ensures ok <==> old(len > 0 && EndsAt(pos))
      ensures !ok ==> start == old(start) && tokenStart == old(tokenStart) && len == old(len)
      ensures ok ==> tokenStart + len == pos + 1 && len == (if old(len) < cap then old(len) + 1 else cap)
      ensures ok ==> (CurrentWindowValid() <==> pos < U32 - 1)
    {
      if len == 0 || !EndsAt(pos) {
        return false;
      }
      len := len + 1;
      if len > cap {
        var excess := len - cap;
        tokenStart := tokenStart + excess;
        len := cap;
        start := Slot(tokenStart, cap);
      }
      return true;
    }

    /**
     * metal_graph_dspark_cache_crop_to_prefix, when the session now holds prefix tokens: either it went
     * back to them or it ran ahead of the window without keeping it up.
     */
    method CropToPrefix(prefix: nat, ghost tokens: seq<T>) returns (ok: bool)
      requires Valid() && prefix == |tokens| < U32
      requires forall i :: 0 <= i < |tokens| && i < |text| ==> tokens[i] == text[i]
      modifies `start, `tokenStart, `len, `text, `low, `high
      ensures ok && Valid() && text == tokens && AtEnd() && EndsAt(prefix)
      ensures Now() == After(cap, old(Now()), Step.Crop(tokens))
      ensures old(len > 0 && tokenStart < prefix <= tokenStart + len) ==>
                tokenStart == old(tokenStart) && Window() == old(Window())[..prefix - tokenStart]
      ensures !old(len > 0 && tokenStart < prefix <= tokenStart + len) ==> len == 0
    {
      hide Slot;
      text, high := tokens, if high < |tokens| then high else |tokens|;
      low := if low < high then low else high;
      if len == 0 {
        return true;
      }
      if !CurrentWindowValid() {
        return false;
      }
      var first := tokenStart;
      var end := first + len;
      if prefix <= first || prefix > end {
        Reset();
        return true;
      }
      len := prefix - first;
      return true;
    }

    /**
     * Filling the ring from a captured prefill batch that ends where the session ends; when that
     * fails the caller resets the window.
     */
    method Seed(first: nat, batch: seq<T>, ghost context: seq<T>) returns (ok: bool)
      requires Valid() && first == |context| && first + |batch| < U32
      modifies this, rows
      ensures Valid() && text == context + batch && AtEnd()
      ensures ok <==> 0 < |batch| <= cap
      ensures Window() == if ok then batch else []
      ensures Now() == After(cap, old(Now()), Step.Seed(context, batch))
    {
      hide Slot, Linear;
      text := context + batch;
      if |batch| == 0 || |batch| > cap {
        low, high := 0, 0;
        Reset();
        return false;
      }
      if cap > 0 {
        HoldsNothing(rows[..], context);
      }
      StoreFrom(rows, first, batch, context, first);
      low, high := first, |text|;
      ok := SetWindow(first, |batch|);
      WindowIs(text);
    }

    /**
     * metal_graph_dspark_ring_maintain for the row of position pos. If the window does not end at
     * pos, nothing is stored and the window falls behind.
     */
    method Maintain(pos: nat, row: T) returns (ok: bool)
      requires Valid() && pos == |text| && pos < U32 - 1
      modifies this, rows
      ensures Valid() && text == old(text) + [row]
      ensures ok <==> old(len > 0 && EndsAt(pos))
      ensures ok ==> AtEnd() && Window() == Newest(old(Window()) + [row], cap)
      ensures !ok ==> rows[..] == old(rows[..]) && start == old(start) && tokenStart == old(tokenStart) && len == old(len)
      ensures Now() == After(cap, old(Now()), Step.Append(pos, row))
    {
      hide Slot, Linear, Holds;
      ghost var was, window := text, Window();
      if len == 0 || !EndsAt(pos) {
        text := was + [row];
        if cap > 0 {
          HoldsMore(rows[..], was, text, low, high);
        }
        return false;
      }
      WindowIs(was);
      ghost var lo := if len < cap then tokenStart else tokenStart + 1;
      StoreNext(pos, row);
      ok := ClaimAppendedRow(pos);
      WindowIs(text);
      NewestAfter(was, lo, window, row, cap);
    }

    /** The row of the next position is stored behind the window. */
    method StoreNext(pos: nat, row: T)
      requires Valid() && len > 0 && tokenStart + len == pos == |text| && pos < U32 - 1
      modifies rows, `text, `low, `high
      ensures text == old(text) + [row] && low == Latest(old(low), |text|, cap) && high == |text|
      ensures Holds(rows[..], text, low, high)
    {
      hide Slot, Linear, Holds;
      ghost var was := text;
      text := was + [row];
      low, high := Latest(low, |text|, cap), |text|;
      HoldsLess(rows[..], was, was, old(low), |was|, low, |was|);
      StoreFrom(rows, pos, [row], was, low);
    }

    /**
     * spec_frontier_restore: a window that was saved is put back. Its slots must still hold its tokens:
     * no row has been stored over them since.
     */
    method Restore(token: nat, raw: nat, n: nat) returns (ok: bool)
      requires Valid() && token < U32 && raw < U32 && n < U32
      requires n > 0 ==> low <= token && token + n <= high
      modifies `start, `tokenStart, `len
      ensures Valid() && (ok <==> WindowFits(cap, token, raw, n))
      ensures ok ==> Window() == text[if n == 0 then 0 else token..if n == 0 then 0 else token + n]
      ensures Now() == After(cap, old(Now()), Step.Restore(token, raw, n))
    {
      hide Slot, Linear, Holds;
      if !WindowFits(cap, token, raw, n) {
        return false;
      }
      ok := SetWindow(token, n);
      if n > 0 {
        WindowIs(text);
      }
    }

    /**
     * The rows a drafting stage appends behind the window for the length of one block. They never
     * touch the window, and the stage sees the window followed by them.
     */
    method Draft(pos: nat, drafts: seq<T>) returns (ok: bool, visibleStart: nat, visibleRows: nat)
      requires Valid() && pos == |text|
      modifies rows, `low
      ensures Valid() && Window() == old(Window())
      ensures ok <==> cap > 0 && |drafts| <= cap - len && EndsAt(pos)
      ensures ok ==> Linear(rows[..], visibleStart, visibleRows) == Window() + drafts
      ensures Now() == After(cap, old(Now()), Step.Draft(pos, drafts))
    {
      hide Slot, Linear, Holds;
      visibleStart, visibleRows := 0, 0;
      if cap == 0 || |drafts| > cap - len || !EndsAt(pos) {
        return false, visibleStart, visibleRows;
      }
      visibleStart := if len > 0 then start else Slot(pos, cap);
      visibleRows := len + |drafts|;
      var append := if len > 0 then Slot(start + len, cap) else visibleStart;
      ghost var lo, all := |text| - len, text + drafts;
      assert Window() == text[lo..] by {
        if len > 0 {
          WindowIs(text);
        }
      }
      assert visibleStart == Slot(lo, cap);
      assert Slot(append, cap) == Slot(|text|, cap) by {
        SlotAfter(lo, len, cap);
        SlotTwice(pos, cap);
        SlotTwice(start + len, cap);
      }
      StoreDrafts(append, drafts);
      LinearHeld(rows[..], all, lo, |all|);
      assert all[lo..|all|] == text[lo..] + drafts;
      assert Window() == text[lo..] by {
        if len > 0 {
          WindowIs(text);
        }
      }
      return true, visibleStart, visibleRows;
    }

    /** Rows are stored behind the session's end for a while: its own rows stay, but for the oldest. */
    method StoreDrafts(slot: nat, drafts: seq<T>)
      requires Valid() && cap > 0 && len + |drafts| <= cap && AtEnd() && Slot(slot, cap) == Slot(|text|, cap)
      modifies rows, `low
      ensures Valid() && Holds(rows[..], text + drafts, |text| - len, |text| + |drafts|)
      ensures low == if high < |text| then high else Latest(old(low), |text| + |drafts|, cap)
    {
      hide Slot, Linear;
      hide Holds;
      ghost var all, l := text + drafts, |text|;
      if high < |text| {
        HoldsNothing(rows[..], text);
        low := high;
      } else {
        low := Latest(low, |all|, cap);
        HoldsLess(rows[..], text, text, old(low), |text|, low, |text|);
        l := low;
      }
      StoreFrom(rows, slot, drafts, text, l);
      HoldsLess(rows[..], all, all, l, |all|, |text| - len, |all|);
      if high < |text| {
        HoldsEmpty(rows[..], text, high);
      } else {
        HoldsLess(rows[..], text, all, l, |all|, l, |text|);
      }
    }
  }

  /** The last n elements, or all of them. */
  function Newest<T>(s: seq<T>, n: nat): seq<T> {
    if |s| <= n then s else s[|s| - n..]
  }

  lemma NewestAfter<T>(was: seq<T>, lo: nat, window: seq<T>, row: T, cap: nat)
    requires |window| <= |was| && window == was[|was| - |window|..] && |window| <= cap
    requires cap > 0 && lo == if |window| < cap then |was| - |window| else |was| - |window| + 1
    ensures (was + [row])[lo..] == Newest(window + [row], cap)
  {
  }

  // ------------------------------------------------------------------ whole runs

  datatype Step<T> =
    | Reset
    | Seed(context: seq<T>, batch: seq<T>)
    | Append(pos: nat, row: T)
    | Crop(tokens: seq<T>)
    | Draft(pos: nat, drafts: seq<T>)
    | Restore(token: nat, raw: nat, n: nat)

  /**
   * What a step does: a crop may go back or run ahead, a seed starts over, an appended row is stored only
   * behind a window that ends there, and drafts overwrite the oldest slots.
   */
  ghost function After<T>(cap: nat, v: View<T>, step: Step<T>): View<T> {
    match step
    case Reset => v.(first := 0, len := 0)
    case Seed(context, batch) =>
      var text := context + batch;
      if 0 < |batch| <= cap then View(text, |context|, |text|, |context|, |batch|) else View(text, 0, 0, 0, 0)
    case Append(pos, row) =>
      var text := v.text + [row];
      if v.len > 0 && v.first + v.len == pos then
        var n := if v.len < cap then v.len + 1 else cap;
        View(text, Latest(v.low, |text|, cap), |text|, if n <= |text| then |text| - n else 0, n)
      else v.(text := text)
    case Crop(tokens) =>
      var high := if v.high < |tokens| then v.high else |tokens|;
      var low := if v.low < high then v.low else high;
      if v.len > 0 && v.first < |tokens| <= v.first + v.len then View(tokens, low, high, v.first, |tokens| - v.first)
      else View(tokens, low, high, 0, 0)
    case Draft(pos, drafts) =>
      if cap > 0 && v.len + |drafts| <= cap && (v.len == 0 || v.first + v.len == pos) then
        v.(low := if v.high < |v.text| then v.high else Latest(v.low, |v.text| + |drafts|, cap))
      else v
    case Restore(token, raw, n) =>
      if WindowFits(cap, token, raw, n) then v.(first := if n == 0 then 0 else token, len := n) else v
  }

  /**
   * A row is appended, and drafts are made, at the end of the session; a crop agrees with the session on
   * the tokens they share; a window is restored only while its slots still hold its tokens; no session
   * reaches 2^32 - 1 tokens.
   */
  ghost predicate Proper<T>(cap: nat, v: View<T>, step: Step<T>) {
    && |After(cap, v, step).text| < U32 - 1
    && (step.Append? || step.Draft? ==> step.pos == |v.text|)
    && (step.Crop? ==> forall i :: 0 <= i < |step.tokens| && i < |v.text| ==> step.tokens[i] == v.text[i])
    && (step.Restore? ==> step.token < U32 && step.raw < U32 && step.n < U32)
    && (step.Restore? && step.n > 0 ==> v.low <= step.token && step.token + step.n <= v.high)
  }

  ghost function AfterAll<T>(cap: nat, v: View<T>, steps: seq<Step<T>>): View<T>
    decreases |steps|
  {
    if steps == [] then v else AfterAll(cap, After(cap, v, steps[0]), steps[1..])
  }

  ghost predicate AllProper<T>(cap: nat, v: View<T>, steps: seq<Step<T>>)
    decreases |steps|
  {
    steps == [] || (Proper(cap, v, steps[0]) && AllProper(cap, After(cap, v, steps[0]), steps[1..]))
  }

  method Take<T>(c: DsparkCache<T>, step: Step<T>)
    requires c.Valid() && Proper(c.cap, c.Now(), step)
    modifies c, c.rows
    ensures c.Valid() && c.Now() == After(c.cap, old(c.Now()), step)
  {
    match step {
      case Reset =>
        c.Reset();
      case Seed(context, batch) =>
        var _ := c.Seed(|context|, batch, context);
      case Append(pos, row) =>
        var _ := c.Maintain(pos, row);
      case Crop(tokens) =>
        var _ := c.CropToPrefix(|tokens|, tokens);
      case Draft(pos, drafts) =>
        var _, _, _ := c.Draft(pos, drafts);
      case Restore(token, raw, n) =>
        var _ := c.Restore(token, raw, n);
    }
  }

  /** The window ends where the session ends, or is empty. */
  ghost predicate Suffix<T>(v: View<T>) {
    v.len == 0 || v.first + v.len == |v.text|
  }

  /** A window that is restored ends where the session ends, as it did when it was saved. */
  ghost predicate RestoresSuffix<T>(cap: nat, v: View<T>, steps: seq<Step<T>>)
    decreases |steps|
  {
    steps == [] || ((steps[0].Restore? && steps[0].n > 0 ==> steps[0].token + steps[0].n == |v.text|)
                    && RestoresSuffix(cap, After(cap, v, steps[0]), steps[1..]))
  }

  /** A window that ends where the session ends always does, whatever steps are taken. */
  lemma {:induction false} SuffixAlways<T>(cap: nat, v: View<T>, steps: seq<Step<T>>)
    requires Suffix(v) && v.len <= cap && AllProper(cap, v, steps) && RestoresSuffix(cap, v, steps)
    requires v.len <= |v.text|
    ensures Suffix(AfterAll(cap, v, steps))
    decreases |steps|
  {
    if steps != [] {
      SuffixAlways(cap, After(cap, v, steps[0]), steps[1..]);
    }
  }

  /**
   * Whatever mix of steps a session takes, the cache does what is said of each, the window stays valid, and
   * it holds consecutive rows of the session, the last ones if it held those at first.
   */
  method Run<T>(c: DsparkCache<T>, steps: seq<Step<T>>)
    requires c.Valid() && AllProper(c.cap, c.Now(), steps)
    modifies c, c.rows
    ensures c.Valid() && c.Now() == AfterAll(c.cap, old(c.Now()), steps)
    ensures c.len > 0 ==> c.Window() == c.text[c.tokenStart..c.tokenStart + c.len]
    ensures old(c.AtEnd()) && RestoresSuffix(c.cap, old(c.Now()), steps) ==> c.AtEnd()
  {
    hide After, Proper;
    var i := 0;
    assert steps[0..] == steps;
    while i < |steps|
      invariant i <= |steps| && c.Valid() && AllProper(c.cap, c.Now(), steps[i..])
      invariant AfterAll(c.cap, c.Now(), steps[i..]) == AfterAll(c.cap, old(c.Now()), steps)
    {
      assert steps[i..][1..] == steps[i + 1..];
      Take(c, steps[i]);
      i := i + 1;
    }
    if c.len > 0 {
      c.WindowIs(c.text);
    }
    if old(c.AtEnd()) && RestoresSuffix(c.cap, old(c.Now()), steps) {
      SuffixAlways(c.cap, old(c.Now()), steps);
    }
  }
}
