/**
 * The raw sliding-window cache of one layer: the row of token p lives in slot p mod cap, and every
 * attention call reads n_raw rows starting at raw_start.
 */
module RawCaches {
  import opened Common
  import opened Rings

  function Max(a: nat, b: nat): nat {
    if a > b then a else b
  }

  /** A 32-bit difference. */
  function Less32(a: int): (r: nat)
    ensures r < U32 && (0 <= a < U32 ==> r == a)
  {
    a % U32
  }

  /** metal_graph_raw_start_for_span */
  function StartForSpan(rawCap: nat, lastPos: nat, nRaw: nat): nat {
    if rawCap == 0 || nRaw == 0 then 0 else Less32(lastPos + 1 - nRaw) % rawCap
  }

  /** The rows a batch asks for before it is cut to what exists and what fits. */
  function Asked(window: nat, n: nat): nat {
    if window == 0 then n else if n == 1 then window else n + window
  }

  /** The rows a batch of n tokens from pos0 on attends to. */
  function SpanRows(rawCap: nat, window: nat, pos0: nat, n: nat): nat {
    Min(rawCap, Min(pos0 + n, Asked(window, n)))
  }

  /** metal_graph_raw_span_for_batch */
  method SpanForBatch(rawCap: nat, rawWindow: nat, nSwa: nat, pos0: nat, n: nat) returns (r: nat)
    requires rawCap < U32 && rawWindow < U32 && nSwa < U32 && pos0 < U32 && n < U32
    ensures rawCap == 0 || n == 0 ==> r == 0
    ensures rawCap > 0 && n > 0 ==>
              r == Min(rawCap, Min(Less32(pos0 + n - 1) + 1, Asked(if rawWindow != 0 then rawWindow else nSwa, n)))
    ensures rawCap > 0 && n > 0 && pos0 + n <= U32 ==> r == SpanRows(rawCap, if rawWindow != 0 then rawWindow else nSwa, pos0, n)
  {
    if rawCap == 0 || n == 0 {
      return 0;
    }
    var window := if rawWindow != 0 then rawWindow else nSwa;
    var lastPos := Less32(pos0 + n - 1);
    var needed := n;
    if window != 0 {
      needed := needed + (if n == 1 then window - 1 else window);
    }
    var available := lastPos + 1;
    if needed > available {
      needed := available;
    }
    if needed > rawCap {
      needed := rawCap;
    }
    return needed;
  }

  /** The first position a query may look at: a window ends at the query itself. */
  function First(window: nat, q: nat): nat
    requires window > 0
  {
    if q < window then 0 else q + 1 - window
  }

  /** Every query of a batch finds its whole window among the last rows. */
  ghost predicate Covered(window: nat, pos0: nat, n: nat, rows: nat)
    requires window > 0
  {
    forall q: nat :: pos0 <= q < pos0 + n ==> pos0 + n - rows <= First(window, q)
  }

  /** The span covers a batch exactly when the window before it and the batch fit the ring together. */
  lemma SpanCovers(rawCap: nat, window: nat, pos0: nat, n: nat)
    requires rawCap > 0 && window > 0 && n > 0
    ensures Covered(window, pos0, n, SpanRows(rawCap, window, pos0, n))
            <==> n - 1 + Min(window, pos0 + 1) <= rawCap
  {
    var rows := SpanRows(rawCap, window, pos0, n);
    if n - 1 + Min(window, pos0 + 1) > rawCap {
      assert !(pos0 + n - rows <= First(window, pos0));
    }
  }

  function SwaWindow(ctx: nat, nSwa: nat): nat {
    var w := if nSwa > ctx then ctx else nSwa;
    if w == 0 then 1 else w
  }

  /** metal_graph_raw_cap_for_context without an override, cut to the context as the graph setup does. */
  function CapForContext(ctx: nat, prefillCap: nat, nSwa: nat): nat
    requires ctx > 0
  {
    var window := SwaWindow(ctx, nSwa);
    var asked := window + prefillCap;
    var fits := if asked > ctx then ctx else asked;
    var aligned := AlignUp(if fits == 0 then 1 else fits, 256);
    var cut := if aligned > 8192 then 8192 else aligned;
    var cap := if cut < window then window else cut;
    if cap > ctx then ctx else cap
  }

  /** Every batch a context admits is covered. */
  ghost predicate AllCovered(ctx: nat, prefillCap: nat, window: nat, rawCap: nat)
    requires window > 0
  {
    forall pos0: nat, n: nat :: 0 < n <= prefillCap && pos0 + n <= ctx ==> Covered(window, pos0, n, SpanRows(rawCap, window, pos0, n))
  }

  /** The chosen capacity covers every batch exactly when the widest one stays within 8192 rows or the window. */
  lemma CapCovers(ctx: nat, prefillCap: nat, nSwa: nat)
    requires ctx > 0 && prefillCap > 0
    ensures var w := SwaWindow(ctx, nSwa);
      AllCovered(ctx, prefillCap, w, CapForContext(ctx, prefillCap, nSwa)) <==> Min(w + prefillCap - 1, ctx) <= Max(8192, w)
  {
    hide Covered, SpanRows, AlignUp;
    var w, cap := SwaWindow(ctx, nSwa), CapForContext(ctx, prefillCap, nSwa);
    if Min(w + prefillCap - 1, ctx) > Max(8192, w) {
      var n := Min(prefillCap, ctx - w + 1);
      SpanCovers(cap, w, w - 1, n);
    } else {
      forall pos0: nat, n: nat | 0 < n <= prefillCap && pos0 + n <= ctx
        ensures Covered(w, pos0, n, SpanRows(cap, w, pos0, n))
      {
        SpanCovers(cap, w, pos0, n);
      }
    }
  }

  /** Wrapping around 2^32 on the way does not change the slot of the first row. */
  lemma StartIsSlot(rawCap: nat, end: nat, n: nat)
    requires rawCap > 0 && 0 < n <= end <= U32
    ensures StartForSpan(rawCap, end - 1, n) == Slot(end - n, rawCap)
  {
    assert Less32(end - 1 + 1 - n) == end - n;
  }

  // ------------------------------------------------------ the ring on values

  /** A ring, the rows of the session's tokens, and the oldest position whose slot still holds its row. */
  datatype View<T> = View(rows: seq<T>, text: seq<T>, low: nat)

  /** One token, a batch of tokens, or going back to a shorter text. */
  datatype Move<T> = One(row: T) | Batch(rows: seq<T>) | Back(n: nat)

  function Stored<T>(v: View<T>, row: T): View<T>
    requires |v.rows| > 0
  {
    View(v.rows[Slot(|v.text|, |v.rows|) := row], v.text + [row], Latest(v.low, |v.text| + 1, |v.rows|))
  }

  function StoredAll<T>(v: View<T>, rows: seq<T>): (w: View<T>)
    requires |v.rows| > 0
    ensures |w.rows| == |v.rows| && w.text == v.text + rows
    ensures w.low == if rows == [] then v.low else Latest(v.low, |v.text| + |rows|, |v.rows|)
  {
    if rows == [] then
      assert v.text + rows == v.text;
      v
    else
      var w := StoredAll(v, rows[..|rows| - 1]);
      assert v.text + rows == w.text + [rows[|rows| - 1]];
      Stored(w, rows[|rows| - 1])
  }

  function Added<T>(m: Move<T>): nat {
    match m
    case One(_) => 1
    case Batch(rows) => |rows|
    case Back(_) => 0
  }

  /** What the code's callers keep to: batches fit the ring, positions fit 32 bits, and going back is going back. */
  predicate Legal<T>(cap: nat, len: nat, m: Move<T>) {
    if m.Back? then m.n <= len else 0 < Added(m) <= cap && len + Added(m) < U32
  }

  function LenAfter<T>(len: nat, m: Move<T>): nat {
    if m.Back? then m.n else len + Added(m)
  }

  function LowAfter<T>(cap: nat, low: nat, len: nat, m: Move<T>): nat {
    if m.Back? then Min(low, m.n) else Latest(low, len + Added(m), cap)
  }

  /** A move stores its rows, or cuts the text and leaves the slots as they are. */
  function After<T>(v: View<T>, m: Move<T>): (w: View<T>)
    requires |v.rows| > 0 && Legal(|v.rows|, |v.text|, m)
    ensures |w.rows| == |v.rows| && |w.text| == LenAfter(|v.text|, m) && w.low == LowAfter(|v.rows|, v.low, |v.text|, m)
  {
    match m
    case One(row) => Stored(v, row)
    case Batch(rows) => StoredAll(v, rows)
    case Back(n) => View(v.rows, v.text[..n], Min(v.low, n))
  }

  /** The number of rows that the attention call of a move reads. */
  function Span<T>(cap: nat, window: nat, len: nat, m: Move<T>): nat {
    SpanRows(cap, window, len, Added(m))
  }

  /** The rows that the attention call of a move reads; going back reads none. */
  function ReadOf<T>(window: nat, v: View<T>, m: Move<T>): (r: seq<T>)
    requires |v.rows| > 0 && Legal(|v.rows|, |v.text|, m)
  {
    if m.Back? then []
    else
      var w, k := After(v, m), Span(|v.rows|, window, |v.text|, m);
      Linear(w.rows, Slot(|w.text| - k, |w.rows|), k)
  }

  /** The bound is right: from it on, the slots hold the text. */
  ghost predicate Good<T>(v: View<T>) {
    Holds(v.rows, v.text, v.low, |v.text|)
  }

  /** The bound is exact: before it, no slot holds the text. */
  ghost predicate Exact<T>(v: View<T>) {
    && |v.rows| > 0 && v.low <= |v.text| <= v.low + |v.rows|
    && forall p: nat :: p < |v.text| ==> (v.rows[Slot(p, |v.rows|)] == v.text[p] <==> v.low <= p)
  }

  lemma ExactIsGood<T>(v: View<T>)
    requires Exact(v)
    ensures Good(v)
  {
    hide Slot;
  }

  lemma GoodStored<T>(v: View<T>, row: T)
    requires Good(v)
    ensures Good(Stored(v, row))
  {
    hide Slot;
    StoreExtends(v.rows, v.text, v.low, row, Stored(v, row).low);
  }

  lemma {:induction false} GoodStoredAll<T>(v: View<T>, rows: seq<T>)
    requires |v.rows| > 0 && Good(v)
    ensures Good(StoredAll(v, rows))
  {
    hide Holds, Stored;
    if rows != [] {
      GoodStoredAll(v, rows[..|rows| - 1]);
      GoodStored(StoredAll(v, rows[..|rows| - 1]), rows[|rows| - 1]);
    }
  }

  lemma GoodAfter<T>(v: View<T>, m: Move<T>)
    requires Good(v) && Legal(|v.rows|, |v.text|, m)
    ensures Good(After(v, m))
  {
    match m
    case One(row) => GoodStored(v, row);
    case Batch(rows) => GoodStoredAll(v, rows);
    case Back(n) =>
  }

  /** A row that the text does not have yet keeps the bound exact. */
  lemma ExactStored<T>(v: View<T>, row: T)
    requires Exact(v) && row !in v.text
    ensures Exact(Stored(v, row))
  {
    hide Slot;
    var w, cap := Stored(v, row), |v.rows|;
    forall p: nat | p < |w.text|
      ensures w.rows[Slot(p, cap)] == w.text[p] <==> w.low <= p
    {
      if p < |v.text| {
        if Slot(p, cap) == Slot(|v.text|, cap) {
          OneLap(p, |v.text|, cap);
          assert v.text[p] in v.text;
        } else if p + cap == |v.text| {
          SlotTurns(p, cap);
        }
      }
    }
  }

  /** Positions that share a slot are a lap apart or more. */
  lemma OneLap(p: nat, q: nat, cap: nat)
    requires cap > 0 && p < q && Slot(p, cap) == Slot(q, cap)
    ensures p + cap <= q
  {
    hide Slot;
    if q < p + cap {
      SlotsApart(p, q, cap);
    }
  }

  lemma SlotTurns(p: nat, cap: nat)
    requires cap > 0
    ensures Slot(p + cap, cap) == Slot(p, cap)
  {
    Split(p, cap);
    Spread(cap, p / cap, 1);
    SlotIs(p + cap, cap, p / cap + 1, p % cap);
  }

  /** The rows of a move are new to the text, and no two of them are the same. */
  ghost predicate New<T>(text: seq<T>, m: Move<T>) {
    match m
    case One(row) => row !in text
    case Batch(rows) =>
      && (forall i :: 0 <= i < |rows| ==> rows[i] !in text)
      && forall i, j :: 0 <= i < j < |rows| ==> rows[i] != rows[j]
    case Back(_) => true
  }

  lemma {:induction false} ExactStoredAll<T>(v: View<T>, rows: seq<T>)
    requires |v.rows| > 0 && Exact(v) && New(v.text, Batch(rows))
    ensures Exact(StoredAll(v, rows))
  {
    hide Exact, Stored;
    if rows != [] {
      var n := |rows| - 1;
      ExactStoredAll(v, rows[..n]);
      ExactStored(StoredAll(v, rows[..n]), rows[n]);
    }
  }

  lemma ExactAfter<T>(v: View<T>, m: Move<T>)
    requires Exact(v) && Legal(|v.rows|, |v.text|, m) && New(v.text, m)
    ensures Exact(After(v, m))
  {
    hide Slot;
    match m
    case One(row) => ExactStored(v, row);
    case Batch(rows) => ExactStoredAll(v, rows);
    case Back(n) =>
  }

  /** The span of a move lies behind the bound that the move leaves: all its slots still hold their rows. */
  predicate Kept<T>(cap: nat, window: nat, low: nat, len: nat, m: Move<T>) {
    LowAfter(cap, low, len, m) + Span(cap, window, len, m) <= LenAfter(len, m)
  }

  /** The newest rows of a text. */
  function Newest<T>(text: seq<T>, k: nat): seq<T>
    requires k <= |text|
  {
    text[|text| - k..]
  }

  /** What an attention call reads is the end of the text whenever its span is kept. */
  lemma ReadRight<T>(window: nat, v: View<T>, m: Move<T>)
    requires Good(v) && Legal(|v.rows|, |v.text|, m) && !m.Back? && Kept(|v.rows|, window, v.low, |v.text|, m)
    ensures ReadOf(window, v, m) == Newest(After(v, m).text, Span(|v.rows|, window, |v.text|, m))
  {
    hide Slot, Linear, Holds, After;
    var w, k := After(v, m), Span(|v.rows|, window, |v.text|, m);
    GoodAfter(v, m);
    HoldsLess(w.rows, w.text, w.text, w.low, |w.text|, |w.text| - k, |w.text|);
    LinearHeld(w.rows, w.text, |w.text| - k, |w.text|);
    assert w.text[|w.text| - k..|w.text|] == w.text[|w.text| - k..];
  }

  /** With distinct rows it is the end of the text exactly then. */
  lemma ReadRightExactly<T>(window: nat, v: View<T>, m: Move<T>)
    requires Exact(v) && Legal(|v.rows|, |v.text|, m) && !m.Back? && New(v.text, m)
    ensures ReadOf(window, v, m) == Newest(After(v, m).text, Span(|v.rows|, window, |v.text|, m))
       <==> Kept(|v.rows|, window, v.low, |v.text|, m)
  {
    hide Slot, After;
    var w, k := After(v, m), Span(|v.rows|, window, |v.text|, m);
    ExactIsGood(v);
    if Kept(|v.rows|, window, v.low, |v.text|, m) {
      ReadRight(window, v, m);
    } else {
      ExactAfter(v, m);
      var p := |w.text| - k;
      SlotTwice(p, |w.rows|);
      assert ReadOf(window, v, m)[0] == w.rows[Slot(p, |w.rows|)];
      assert Newest(w.text, k)[0] == w.text[p];
    }
  }

  // ---------------------------------------------------------------- whole runs

  predicate AllLegal<T>(cap: nat, len: nat, moves: seq<Move<T>>) {
    if moves == [] then true
    else
      var n := |moves| - 1;
      AllLegal(cap, len, moves[..n]) && Legal(cap, LenAfterAll(len, moves[..n]), moves[n])
  }

  function LenAfterAll<T>(len: nat, moves: seq<Move<T>>): nat {
    if moves == [] then len else LenAfter(LenAfterAll(len, moves[..|moves| - 1]), moves[|moves| - 1])
  }

  function LowAfterAll<T>(cap: nat, low: nat, len: nat, moves: seq<Move<T>>): nat {
    if moves == [] then low
    else
      var n := |moves| - 1;
      LowAfter(cap, LowAfterAll(cap, low, len, moves[..n]), LenAfterAll(len, moves[..n]), moves[n])
  }

  function AfterAll<T>(v: View<T>, moves: seq<Move<T>>): (w: View<T>)
    requires |v.rows| > 0 && AllLegal(|v.rows|, |v.text|, moves)
    ensures |w.rows| == |v.rows| && |w.text| == LenAfterAll(|v.text|, moves)
    ensures w.low == LowAfterAll(|v.rows|, v.low, |v.text|, moves)
  {
    if moves == [] then v else After(AfterAll(v, moves[..|moves| - 1]), moves[|moves| - 1])
  }

  /** What the attention calls of a run read, move by move. */
  function Reads<T>(window: nat, v: View<T>, moves: seq<Move<T>>): (r: seq<seq<T>>)
    requires |v.rows| > 0 && AllLegal(|v.rows|, |v.text|, moves)
    ensures |r| == |moves|
  {
    if moves == [] then []
    else
      var n := |moves| - 1;
      Reads(window, v, moves[..n]) + [ReadOf(window, AfterAll(v, moves[..n]), moves[n])]
  }

  /** Read number i of a run is that of move i, made where the moves before it lead. */
  lemma {:induction false} ReadAt<T>(window: nat, v: View<T>, moves: seq<Move<T>>, i: nat)
    requires |v.rows| > 0 && AllLegal(|v.rows|, |v.text|, moves) && i < |moves|
    ensures AllLegal(|v.rows|, |v.text|, moves[..i]) && Legal(|v.rows|, LenAfterAll(|v.text|, moves[..i]), moves[i])
    ensures Reads(window, v, moves)[i] == ReadOf(window, AfterAll(v, moves[..i]), moves[i])
  {
    hide ReadOf, Legal, LenAfter;
    var n := |moves| - 1;
    if i < n {
      ReadAt(window, v, moves[..n], i);
      assert moves[..n][..i] == moves[..i];
    }
  }

  /** The span of move i of a run is kept: a matter of the lengths of the moves up to it alone. */
  predicate KeptAt<T>(cap: nat, window: nat, low: nat, len: nat, moves: seq<Move<T>>, i: nat)
    requires i < |moves|
  {
    Kept(cap, window, LowAfterAll(cap, low, len, moves[..i]), LenAfterAll(len, moves[..i]), moves[i])
  }

  /** The text by the time of move i, and how much of its end the attention call is to read. */
  function Due<T>(window: nat, v: View<T>, moves: seq<Move<T>>, i: nat): seq<T>
    requires |v.rows| > 0 && AllLegal(|v.rows|, |v.text|, moves) && i < |moves| && !moves[i].Back?
  {
    ReadAt(window, v, moves, i);
    var u := AfterAll(v, moves[..i]);
    Newest(After(u, moves[i]).text, Span(|v.rows|, window, |u.text|, moves[i]))
  }

  lemma {:induction false} GoodAfterAll<T>(v: View<T>, moves: seq<Move<T>>)
    requires |v.rows| > 0 && Good(v) && AllLegal(|v.rows|, |v.text|, moves)
    ensures Good(AfterAll(v, moves))
  {
    hide Good, After, Legal, LenAfter;
    if moves != [] {
      GoodAfterAll(v, moves[..|moves| - 1]);
      GoodAfter(AfterAll(v, moves[..|moves| - 1]), moves[|moves| - 1]);
    }
  }

  /** Every stored row is new when it is stored. */
  ghost predicate AllNew<T>(v: View<T>, moves: seq<Move<T>>)
    requires |v.rows| > 0 && AllLegal(|v.rows|, |v.text|, moves)
  {
    if moves == [] then true
    else
      var n := |moves| - 1;
      AllNew(v, moves[..n]) && New(AfterAll(v, moves[..n]).text, moves[n])
  }

  lemma {:induction false} ExactAfterAll<T>(v: View<T>, moves: seq<Move<T>>)
    requires |v.rows| > 0 && Exact(v) && AllLegal(|v.rows|, |v.text|, moves) && AllNew(v, moves)
    ensures Exact(AfterAll(v, moves))
  {
    hide Exact, After, Legal, LenAfter, New;
    if moves != [] {
      ExactAfterAll(v, moves[..|moves| - 1]);
      ExactAfter(AfterAll(v, moves[..|moves| - 1]), moves[|moves| - 1]);
    }
  }

  lemma {:induction false} NewAt<T>(v: View<T>, moves: seq<Move<T>>, i: nat)
    requires |v.rows| > 0 && AllLegal(|v.rows|, |v.text|, moves) && AllNew(v, moves) && i < |moves|
    ensures AllLegal(|v.rows|, |v.text|, moves[..i]) && AllNew(v, moves[..i])
    ensures New(AfterAll(v, moves[..i]).text, moves[i])
  {
    hide New, After, Legal, LenAfter;
    var n := |moves| - 1;
    if i < n {
      NewAt(v, moves[..n], i);
      assert moves[..n][..i] == moves[..i];
    }
  }

  /** Over any run, an attention call reads exactly the newest rows, in order, whenever its span is kept. */
  lemma RunReadsRight<T>(window: nat, v: View<T>, moves: seq<Move<T>>, i: nat)
    requires |v.rows| > 0 && Good(v) && AllLegal(|v.rows|, |v.text|, moves) && i < |moves| && !moves[i].Back?
    ensures KeptAt(|v.rows|, window, v.low, |v.text|, moves, i) ==> Reads(window, v, moves)[i] == Due(window, v, moves, i)
  {
    hide Good, After, AfterAll, Legal, ReadOf, Reads, Kept, Newest;
    ReadAt(window, v, moves, i);
    GoodAfterAll(v, moves[..i]);
    if KeptAt(|v.rows|, window, v.low, |v.text|, moves, i) {
      ReadRight(window, AfterAll(v, moves[..i]), moves[i]);
    }
  }

  /** When the rows are distinct it does so exactly then. */
  lemma RunReadsExactly<T>(window: nat, v: View<T>, moves: seq<Move<T>>, i: nat)
    requires |v.rows| > 0 && Exact(v) && AllLegal(|v.rows|, |v.text|, moves) && AllNew(v, moves) && i < |moves| && !moves[i].Back?
    ensures Reads(window, v, moves)[i] == Due(window, v, moves, i) <==> KeptAt(|v.rows|, window, v.low, |v.text|, moves, i)
  {
    hide Exact, After, AfterAll, Legal, ReadOf, Reads, Kept, Newest, AllNew, New;
    ReadAt(window, v, moves, i);
    NewAt(v, moves, i);
    ExactAfterAll(v, moves[..i]);
    ReadRightExactly(window, AfterAll(v, moves[..i]), moves[i]);
  }

  lemma OnwardMove<T>(cap: nat, window: nat, low: nat, len: nat, m: Move<T>)
    requires Legal(cap, len, m) && (low == 0 || low + cap <= len) && (m.Back? ==> m.n == 0)
    ensures !m.Back? ==> Kept(cap, window, low, len, m)
    ensures LowAfter(cap, low, len, m) == 0 || LowAfter(cap, low, len, m) + cap <= LenAfter(len, m)
  {
  }

  /** A session that never goes back, except to start over, keeps every span. */
  lemma {:induction false} OnwardIsKept<T>(cap: nat, window: nat, low: nat, len: nat, moves: seq<Move<T>>)
    requires AllLegal(cap, len, moves) && (low == 0 || low + cap <= len)
    requires forall i :: 0 <= i < |moves| && moves[i].Back? ==> moves[i].n == 0
    ensures forall i: nat :: i < |moves| && !moves[i].Back? ==> KeptAt(cap, window, low, len, moves, i)
    ensures var l := LowAfterAll(cap, low, len, moves); l == 0 || l + cap <= LenAfterAll(len, moves)
  {
    if moves != [] {
      hide Legal, Kept, LowAfter, LenAfter;
      var n := |moves| - 1;
      OnwardIsKept(cap, window, low, len, moves[..n]);
      OnwardMove(cap, window, LowAfterAll(cap, low, len, moves[..n]), LenAfterAll(len, moves[..n]), moves[n]);
      forall i: nat | i < |moves| && !moves[i].Back?
        ensures KeptAt(cap, window, low, len, moves, i)
      {
        if i < n {
          assert KeptAt(cap, window, low, len, moves[..n], i);
          assert moves[..n][..i] == moves[..i] && moves[..n][i] == moves[i];
        }
      }
    }
  }

  /** A run from an empty ring of two slots: three tokens, back to one of them, one more. */
  function FarRun(): seq<Move<int>> {
    [Batch([0, 1]), One(2), Back(1), One(3)]
  }

  function TextAfter<T>(text: seq<T>, m: Move<T>): seq<T>
    requires m.Back? ==> m.n <= |text|
  {
    match m
    case One(row) => text + [row]
    case Batch(rows) => text + rows
    case Back(n) => text[..n]
  }

  /** A run of new rows to a text and a bound. */
  ghost predicate Leads<T>(v: View<T>, moves: seq<Move<T>>, text: seq<T>, low: nat) {
    && |v.rows| > 0 && AllLegal(|v.rows|, |v.text|, moves) && AllNew(v, moves)
    && AfterAll(v, moves).text == text && AfterAll(v, moves).low == low
  }

  lemma LeadsOn<T>(v: View<T>, moves: seq<Move<T>>, k: nat, text: seq<T>, low: nat)
    requires k < |moves| && Leads(v, moves[..k], text, low) && Legal(|v.rows|, |text|, moves[k]) && New(text, moves[k])
    ensures Leads(v, moves[..k + 1], TextAfter(text, moves[k]), LowAfter(|v.rows|, low, |text|, moves[k]))
  {
    hide New;
    assert moves[..k + 1][..k] == moves[..k];
  }

  lemma FarRunStarts(v: View<int>)
    requires v == View([-1, -1], [], 0)
    ensures Leads(v, FarRun()[..1], [0, 1], 0)
  {
    assert Leads(v, FarRun()[..0], [], 0);
    hide Leads;
    LeadsOn(v, FarRun(), 0, [], 0);
    assert [] + [0, 1] == [0, 1];
  }

  lemma FarRunFills(v: View<int>)
    requires v == View([-1, -1], [], 0)
    ensures Leads(v, FarRun()[..2], [0, 1, 2], 1)
  {
    FarRunStarts(v);
    hide Leads;
    assert [0, 1] + [2] == [0, 1, 2];
    LeadsOn(v, FarRun(), 1, [0, 1], 0);
  }

  lemma FarRunLeads(v: View<int>)
    requires v == View([-1, -1], [], 0)
    ensures Leads(v, FarRun()[..3], [0], 1) && Leads(v, FarRun(), [0, 3], 1)
  {
    FarRunFills(v);
    hide Leads;
    LeadsOn(v, FarRun(), 2, [0, 1, 2], 1);
    assert [0, 1, 2][..1] == [0] && [0] + [3] == [0, 3];
    LeadsOn(v, FarRun(), 3, [0], 1);
    assert FarRun()[..4] == FarRun();
  }

  /** A rewind that reaches too far: the slot of position 0 holds the row of position 2 by then. */
  lemma RewindTooFar()
    ensures var v := View([-1, -1], [], 0);
      AllLegal(2, 0, FarRun()) && Due(2, v, FarRun(), 3) == [0, 3] && Reads(2, v, FarRun())[3] != [0, 3]
  {
    hide AllNew, Reads, AfterAll, StoredAll;
    var v := View([-1, -1], [], 0);
    FarRunLeads(v);
    var u := AfterAll(v, FarRun()[..3]);
    assert After(u, One(3)).text == [0, 3] && [0, 3][0..] == [0, 3];
    RunReadsExactly(2, v, FarRun(), 3);
  }

  class RawCache<T> {
    const rawCap: nat
    const rawWindow: nat
    const nSwa: nat
    const rows: array<T>
    /** The rows of the tokens of the session so far. */
    ghost var text: seq<T>
    /** From this position on, the slots hold the rows of the text. */
    ghost var low: nat

    ghost function Now(): View<T>
      reads this, rows
    {
      View(rows[..], text, low)
    }

    ghost predicate Valid()
      reads this, rows
    {
      && 0 < rawCap == rows.Length < U32
      && rawWindow < U32 && nSwa < U32
      && |text| < U32 && Good(Now())
    }

    /** The window in use: the configured one, or the model's. */
    function Window(): nat {
      if rawWindow != 0 then rawWindow else nSwa
    }

    constructor (rawCap: nat, rawWindow: nat, nSwa: nat, filler: T)
      requires 0 < rawCap < U32 && rawWindow < U32 && nSwa < U32
      ensures Valid() && Exact(Now()) && fresh(rows) && text == [] && low == 0
      ensures this.rawCap == rawCap && this.rawWindow == rawWindow && this.nSwa == nSwa
    {
      this.rawCap, this.rawWindow, this.nSwa := rawCap, rawWindow, nSwa;
      rows := new T[rawCap](_ => filler);
      text, low := [], 0;
    }

    /** What an attention call reads is the end of the text, as long as the rows asked for are kept. */
    lemma ReadsEnd(n: nat)
      requires Valid() && 0 < n <= |text| && low + n <= |text|
      ensures Linear(rows[..], StartForSpan(rawCap, |text| - 1, n), n) == text[|text| - n..]
    {
      hide Linear, Slot, StartForSpan, Holds;
      var lo := |text| - n;
      StartIsSlot(rawCap, |text|, n);
      HoldsLess(rows[..], text, text, low, |text|, lo, |text|);
      LinearHeld(rows[..], text, lo, |text|);
      assert text[lo..|text|] == text[lo..];
    }

    /** The row of the next position goes to slot pos mod cap. */
    method StoreRow(pos: nat, row: T)
      requires Valid() && pos == |text| && pos + 1 < U32
      modifies this, rows
      ensures Valid() && Now() == Stored(old(Now()), row)
    {
      hide Slot, Holds;
      GoodStored(Now(), row);
      rows[Slot(pos, rawCap)] := row;
      low := Latest(low, |text| + 1, rawCap);
      text := text + [row];
    }

    /** The rows from rawStart on, one slot after the other. */
    method ReadRows(rawStart: nat, nRaw: nat) returns (r: seq<T>)
      requires Valid()
      ensures r == Linear(rows[..], rawStart, nRaw)
    {
      hide Slot, Holds;
      r := [];
      while |r| < nRaw
        invariant |r| <= nRaw && forall i :: 0 <= i < |r| ==> r[i] == rows[Slot(rawStart + i, rawCap)]
      {
        r := r + [rows[Slot(rawStart + |r|, rawCap)]];
      }
    }

    /** Encoding one token: its row goes to slot pos mod cap, then the layer attends to the span. */
    method Encode(pos: nat, row: T) returns (nRaw: nat, rawStart: nat)
      requires Valid() && pos == |text| && pos + 1 < U32
      modifies this, rows
      ensures Valid() && Now() == After(old(Now()), One(row)) && text == old(text) + [row]
      ensures nRaw == Min(rawCap, Min(|text|, Max(Window(), 1))) && nRaw == SpanRows(rawCap, Window(), pos, 1)
      ensures Linear(rows[..], rawStart, nRaw) == ReadOf(Window(), old(Now()), One(row))
      ensures low + nRaw <= |text| ==> Linear(rows[..], rawStart, nRaw) == text[|text| - nRaw..]
    {
      hide Linear, Slot, StartForSpan, Holds;
      nRaw := SpanForBatch(rawCap, rawWindow, nSwa, pos, 1);
      rawStart := StartForSpan(rawCap, pos, nRaw);
      StoreRow(pos, row);
      StartIsSlot(rawCap, |text|, nRaw);
      if low + nRaw <= |text| {
        ReadsEnd(nRaw);
      }
    }

    /** Encoding a batch that fits the ring: all rows first, then one attention call over the span. */
    method EncodeBatch(pos0: nat, batch: seq<T>) returns (nRaw: nat, rawStart: nat)
      requires Valid() && pos0 == |text| && pos0 + |batch| < U32 && 0 < |batch| <= rawCap
      modifies this, rows
      ensures Valid() && Now() == After(old(Now()), Batch(batch)) && text == old(text) + batch
      ensures nRaw == SpanRows(rawCap, Window(), pos0, |batch|)
      ensures Linear(rows[..], rawStart, nRaw) == ReadOf(Window(), old(Now()), Batch(batch))
      ensures low + nRaw <= |text| ==> Linear(rows[..], rawStart, nRaw) == text[|text| - nRaw..]
    {
      hide Linear, Slot, StartForSpan, Holds, Stored;
      nRaw := SpanForBatch(rawCap, rawWindow, nSwa, pos0, |batch|);
      rawStart := StartForSpan(rawCap, pos0 + |batch| - 1, nRaw);
      var i := 0;
      while i < |batch|
        invariant i <= |batch| && Valid() && Now() == StoredAll(old(Now()), batch[..i])
      {
        StoreRow(pos0 + i, batch[i]);
        assert batch[..i + 1][..i] == batch[..i];
        i := i + 1;
      }
      assert batch[..i] == batch;
      StartIsSlot(rawCap, |text|, nRaw);
      if low + nRaw <= |text| {
        ReadsEnd(nRaw);
      }
    }

    /** Going back to a shorter text leaves the rows where they are. */
    ghost method Rewind(n: nat)
      requires Valid() && n <= |text|
      modifies `text, `low
      ensures Valid() && Now() == After(old(Now()), Back(n))
    {
      GoodAfter(Now(), Back(n));
      text := text[..n];
      low := Min(low, n);
    }

    /** The rows a checkpoint keeps: session_raw_live_rows. */
    function LiveRows(count: nat): nat
    {
      var r := Window();
      var s := if r > rawCap then rawCap else r;
      if s > count then count else s
    }

    /** Writing a checkpoint: the live rows, oldest first. They are the end of the text if its rows are kept. */
    method Save(count: nat) returns (saved: seq<T>)
      requires Valid() && count == |text|
      ensures saved == Linear(rows[..], Slot(count - LiveRows(count), rawCap), LiveRows(count))
      ensures low + LiveRows(count) <= count ==> saved == text[count - LiveRows(count)..]
    {
      hide Slot, Holds, Linear;
      var live := LiveRows(count);
      saved := ReadRows(Slot(count - live, rawCap), live);
      if low + live <= count {
        HoldsLess(rows[..], text, text, low, count, count - live, count);
        LinearHeld(rows[..], text, count - live, count);
        assert text[count - live..count] == text[count - live..];
      }
    }

    /** Reading a checkpoint of count tokens into a ring that may have another capacity. */
    method Load(count: nat, saved: seq<T>, ghost tokens: seq<T>)
      requires Valid() && count == |tokens| < U32 && |saved| <= rawCap && |saved| <= count
      modifies this, rows
      ensures Valid() && text == tokens
      ensures low == if saved == tokens[count - |saved|..] then count - |saved| else count
    {
      hide Slot, Holds;
      ghost var first := count - |saved|;
      text, low := tokens[..first], first;
      HoldsNothing(rows[..], text);
      var r := 0;
      while r < |saved|
        invariant r <= |saved| && Valid() && low == first && text == tokens[..first] + saved[..r]
      {
        StoreRow(count - |saved| + r, saved[r]);
        assert saved[..r + 1] == saved[..r] + [saved[r]];
        r := r + 1;
      }
      assert saved[..r] == saved && tokens == tokens[..first] + tokens[first..];
      if saved != tokens[first..] {
        text, low := tokens, count;
        HoldsNothing(rows[..], text);
      }
    }
  }

  /**
   * A session saved from one ring and loaded into another attends to the same rows when it goes on, as long
   * as the first ring still kept them.
   */
  method Resume<T>(src: RawCache<T>, dst: RawCache<T>, count: nat, next: T) returns (nRaw: nat, rawStart: nat)
    requires src.Valid() && dst.Valid() && src != dst && src.rows != dst.rows
    requires count == |src.text| && count + 1 < U32
    requires 0 < src.rawWindow == dst.rawWindow && src.rawWindow <= src.rawCap && src.rawWindow <= dst.rawCap
    modifies dst, dst.rows
    ensures dst.Valid() && dst.text == src.text + [next]
    ensures nRaw == Min(src.rawWindow, count + 1)
    ensures src.low + Min(src.rawWindow, count) <= count ==>
              Linear(dst.rows[..], rawStart, nRaw) == dst.text[count + 1 - nRaw..]
  {
    hide Linear, Slot, Good;
    var saved := src.Save(count);
    dst.Load(count, saved, src.text);
    nRaw, rawStart := dst.Encode(count, next);
  }

  /** Over any run, the cache is where its moves lead, and the attention calls read what `Reads` says. */
  method Run<T>(c: RawCache<T>, len: nat, moves: seq<Move<T>>) returns (seen: seq<seq<T>>)
    requires c.Valid() && len == |c.text| && AllLegal(c.rawCap, len, moves)
    modifies c, c.rows
    ensures c.Valid() && c.Now() == AfterAll(old(c.Now()), moves)
    ensures seen == Reads(c.Window(), old(c.Now()), moves)
  {
    hide Linear, Good, After, ReadOf, Legal;
    seen := [];
    var i, at := 0, len;
    assert moves[..|moves|] == moves;
    while i < |moves|
      invariant i <= |moves| && c.Valid() && at == |c.text|
      invariant AllLegal(c.rawCap, len, moves[..i])
      invariant c.Now() == AfterAll(old(c.Now()), moves[..i])
      invariant seen == Reads(c.Window(), old(c.Now()), moves[..i])
    {
      ReadAt(c.Window(), old(c.Now()), moves, i);
      assert moves[..i + 1][..i] == moves[..i];
      var r;
      at, r := Make(c, at, moves[i]);
      seen := seen + [r];
      i := i + 1;
    }
  }

  /** One move of a run, and what its attention call reads. */
  method Make<T>(c: RawCache<T>, at: nat, m: Move<T>) returns (at2: nat, r: seq<T>)
    requires c.Valid() && at == |c.text| && Legal(c.rawCap, at, m)
    modifies c, c.rows
    ensures c.Valid() && c.Now() == After(old(c.Now()), m) && at2 == |c.text|
    ensures r == ReadOf(c.Window(), old(c.Now()), m)
  {
    hide Linear, Good, StoredAll, Stored;
    r := [];
    match m {
      case One(row) =>
        var nRaw, rawStart := c.Encode(at, row);
        r := c.ReadRows(rawStart, nRaw);
        at2 := at + 1;
      case Batch(rows) =>
        var nRaw, rawStart := c.EncodeBatch(at, rows);
        r := c.ReadRows(rawStart, nRaw);
        at2 := at + |rows|;
      case Back(n) =>
        c.Rewind(n);
        at2 := n;
    }
  }
}
