/** GGUF metadata values: their bytes, and the reader that steps over them. */
module GgufValues {
  import opened Common
  import opened LittleEndian

  const VALUE_UINT8 := 0
  const VALUE_INT8 := 1
  const VALUE_UINT16 := 2
  const VALUE_INT16 := 3
  const VALUE_UINT32 := 4
  const VALUE_INT32 := 5
  const VALUE_FLOAT32 := 6
  const VALUE_BOOL := 7
  const VALUE_STRING := 8
  const VALUE_ARRAY := 9
  const VALUE_UINT64 := 10
  const VALUE_INT64 := 11
  const VALUE_FLOAT64 := 12
  const MAX_DEPTH := 8

  /** scalar_value_size: 0 for strings, arrays and unknown types. */
  function ScalarSize(t: nat): (n: nat)
    ensures n <= 8
  {
    if t == VALUE_UINT8 || t == VALUE_INT8 || t == VALUE_BOOL then 1
    else if t == VALUE_UINT16 || t == VALUE_INT16 then 2
    else if t == VALUE_UINT32 || t == VALUE_INT32 || t == VALUE_FLOAT32 then 4
    else if t == VALUE_UINT64 || t == VALUE_INT64 || t == VALUE_FLOAT64 then 8
    else 0
  }

  /** The widths of the value types by their numbers in the file format; 8 is a string and 9 an array. */
  lemma Widths(t: nat)
    ensures ScalarSize(t) == if t in {0, 1, 7} then 1 else if t in {2, 3} then 2 else if t in {4, 5, 6} then 4
                             else if t in {10, 11, 12} then 8 else 0
  {
  }

  // ------------------------------------------------------------- the writer

  datatype Value = Scalar(t: nat, bytes: Bytes) | Text(s: Bytes) | Array(itemType: nat, items: seq<Value>)

  function TypeOf(v: Value): nat {
    match v
    case Scalar(t, _) => t
    case Text(_) => VALUE_STRING
    case Array(_, _) => VALUE_ARRAY
  }

  /** A value that can be written at nesting depth d: sizes fit, items have one type, arrays of arrays stay within the limit. */
  ghost predicate Writable(v: Value, d: nat)
    decreases v
  {
    match v
    case Scalar(t, bytes) => d <= MAX_DEPTH && ScalarSize(t) != 0 && |bytes| == ScalarSize(t)
    case Text(s) => d <= MAX_DEPTH && |s| < U64
    case Array(t, items) =>
      && d <= MAX_DEPTH && t < U32 && |items| * 8 < U64
      && forall i :: 0 <= i < |items| ==> TypeOf(items[i]) == t && (ScalarSize(t) == 0 ==> Writable(items[i], d + 1))
                                          && (ScalarSize(t) != 0 ==> items[i].Scalar? && |items[i].bytes| == ScalarSize(t))
  }

  function EncodeText(s: Bytes): Bytes {
    Put(|s|, 8) + s
  }

  function Encode(v: Value): Bytes
    decreases v, 1
  {
    match v
    case Scalar(_, bytes) => bytes
    case Text(s) => EncodeText(s)
    case Array(t, items) => Put(t, 4) + Put(|items|, 8) + EncodeAll(items)
  }

  function EncodeAll(items: seq<Value>): Bytes
    decreases items, 0
  {
    if items == [] then [] else Encode(items[0]) + EncodeAll(items[1..])
  }

  // -------------------------------------------------------- reading positions

  /** The bytes s stand at position pos. */
  ghost predicate At(b: Bytes, pos: nat, s: Bytes) {
    pos + |s| <= |b| && b[pos..pos + |s|] == s
  }

  lemma AtSplit(b: Bytes, pos: nat, s: Bytes, t: Bytes)
    ensures At(b, pos, s + t) <==> At(b, pos, s) && At(b, pos + |s|, t)
  {
    if pos + |s| + |t| <= |b| {
      var w := b[pos..pos + |s + t|];
      assert w[..|s|] == b[pos..pos + |s|] && w[|s|..] == b[pos + |s|..pos + |s| + |t|];
      assert w == w[..|s|] + w[|s|..];
      if At(b, pos, s + t) {
        assert (s + t)[..|s|] == s && (s + t)[|s|..] == t;
      }
    }
  }

  /** The number in the n bytes at pos, if they are there. */
  function ReadNumber(b: Bytes, pos: nat, n: nat): Option<nat> {
    if pos + n <= |b| then Some(Get(b[pos..pos + n])) else None
  }

  lemma NumberAt(b: Bytes, pos: nat, v: nat, n: nat)
    requires At(b, pos, Put(v, n)) && v < Range(n)
    ensures ReadNumber(b, pos, n) == Some(v)
  {
    GetPut(v, n);
  }

  /** cursor_string: where the string at pos starts and ends. */
  function TextAt(b: Bytes, pos: nat): Option<(nat, nat)> {
    match ReadNumber(b, pos, 8)
    case None => None
    case Some(len) => if pos + 8 + len <= |b| then Some((pos + 8, pos + 8 + len)) else None
  }

  lemma TextWritten(b: Bytes, pos: nat, s: Bytes)
    requires At(b, pos, EncodeText(s)) && |s| < U64
    ensures TextAt(b, pos) == Some((pos + 8, pos + 8 + |s|)) && b[pos + 8..pos + 8 + |s|] == s
  {
    AtSplit(b, pos, Put(|s|, 8), s);
    Ranges();
    NumberAt(b, pos, |s|, 8);
  }

  /** skip_value: where the value of a type at pos ends. */
  function SkipEnd(b: Bytes, pos: nat, t: nat, depth: nat): Option<nat>
    decreases MAX_DEPTH + 1 - depth, 1, 0
  {
    if depth > MAX_DEPTH then None
    else if ScalarSize(t) != 0 then (if pos + ScalarSize(t) <= |b| then Some(pos + ScalarSize(t)) else None)
    else if t == VALUE_STRING then (match TextAt(b, pos) case None => None case Some(r) => Some(r.1))
    else if t == VALUE_ARRAY then
      match ReadNumber(b, pos, 4)
      case None => None
      case Some(itemType) =>
        match ReadNumber(b, pos + 4, 8)
        case None => None
        case Some(len) =>
          var size := ScalarSize(itemType);
          if size != 0 then
            if len > (U64 - 1) / size then None
            else if pos + 12 + len * size <= |b| then Some(pos + 12 + len * size) else None
          else SkipItems(b, pos + 12, itemType, depth, len)
    else None
  }

  /** The loop over the items of an array that are not scalars. */
  function SkipItems(b: Bytes, pos: nat, t: nat, depth: nat, n: nat): Option<nat>
    requires depth <= MAX_DEPTH
    decreases MAX_DEPTH + 1 - depth, 0, n
  {
    if n == 0 then Some(pos)
    else
      match SkipEnd(b, pos, t, depth + 1)
      case None => None
      case Some(q) => SkipItems(b, q, t, depth, n - 1)
  }

  /** Stepping over a value that was written ends right behind it. */
  lemma {:induction false} SkipWritten(b: Bytes, pos: nat, v: Value, depth: nat)
    requires Writable(v, depth) && At(b, pos, Encode(v))
    ensures SkipEnd(b, pos, TypeOf(v), depth) == Some(pos + |Encode(v)|)
    decreases v, 1
  {
    hide ReadNumber, TextAt;
    match v
    case Scalar(t, bytes) =>
    case Text(s) => TextWritten(b, pos, s);
    case Array(t, items) =>
      ArrayHeader(b, pos, t, items);
      if ScalarSize(t) != 0 {
        ScalarItems(items, ScalarSize(t));
        ScalarArrayEnd(b, pos, t, |items|, depth);
      } else {
        SkipItemsWritten(b, pos + 12, t, items, depth);
      }
  }

  /** The header of an array that was written. */
  lemma ArrayHeader(b: Bytes, pos: nat, t: nat, items: seq<Value>)
    requires At(b, pos, Encode(Array(t, items))) && t < U32 && |items| < U64
    ensures |Encode(Array(t, items))| == 12 + |EncodeAll(items)|
    ensures ReadNumber(b, pos, 4) == Some(t) && ReadNumber(b, pos + 4, 8) == Some(|items|) && At(b, pos + 12, EncodeAll(items))
  {
    hide At;
    var rest := EncodeAll(items);
    assert Encode(Array(t, items)) == Put(t, 4) + (Put(|items|, 8) + rest);
    AtSplit(b, pos, Put(t, 4), Put(|items|, 8) + rest);
    AtSplit(b, pos + 4, Put(|items|, 8), rest);
    Ranges();
    NumberAt(b, pos, t, 4);
    NumberAt(b, pos + 4, |items|, 8);
  }

  lemma ScalarArrayEnd(b: Bytes, pos: nat, t: nat, n: nat, depth: nat)
    requires depth <= MAX_DEPTH && ScalarSize(t) != 0 && n * 8 < U64
    requires ReadNumber(b, pos, 4) == Some(t) && ReadNumber(b, pos + 4, 8) == Some(n) && pos + 12 + n * ScalarSize(t) <= |b|
    ensures SkipEnd(b, pos, VALUE_ARRAY, depth) == Some(pos + 12 + n * ScalarSize(t))
  {
    var size := ScalarSize(t);
    assert n <= (U64 - 1) / size;
  }

  lemma {:induction false} ScalarItems(items: seq<Value>, size: nat)
    requires forall i :: 0 <= i < |items| ==> items[i].Scalar? && |items[i].bytes| == size
    ensures |EncodeAll(items)| == |items| * size
  {
    if items != [] {
      ScalarItems(items[1..], size);
      assert |items| * size == size + (|items| - 1) * size;
    }
  }

  lemma {:induction false} SkipItemsWritten(b: Bytes, pos: nat, t: nat, items: seq<Value>, depth: nat)
    requires depth <= MAX_DEPTH && At(b, pos, EncodeAll(items))
    requires forall i :: 0 <= i < |items| ==> TypeOf(items[i]) == t && Writable(items[i], depth + 1)
    ensures SkipItems(b, pos, t, depth, |items|) == Some(pos + |EncodeAll(items)|)
    decreases items, 0
  {
    if items != [] {
      AtSplit(b, pos, Encode(items[0]), EncodeAll(items[1..]));
      SkipWritten(b, pos, items[0], depth + 1);
      SkipItemsWritten(b, pos + |Encode(items[0])|, t, items[1..], depth);
    }
  }

  // ------------------------------------------------------------- the cursor

  class Cursor {
    const base: Bytes
    var pos: nat
    var failed: bool

    constructor (base: Bytes, pos: nat)
      ensures this.base == base && this.pos == pos && !failed
    {
      this.base, this.pos, failed := base, pos, false;
    }

    /** cursor_has: the test avoids an overflowing sum. */
    method Has(n: nat) returns (ok: bool)
      modifies this`failed
      ensures ok == (pos + n <= |base|) && failed == (old(failed) || !ok)
    {
      ok := n <= |base| && pos <= |base| - n;
      if !ok {
        failed := true;
      }
    }

    method Skip(n: nat) returns (ok: bool)
      modifies this
      ensures ok == (old(pos) + n <= |base|) && pos == if ok then old(pos) + n else old(pos)
    {
      ok := Has(n);
      if ok {
        pos := pos + n;
      }
    }

    /** cursor_u32 and cursor_u64 */
    method Number(n: nat) returns (ok: bool, v: nat)
      modifies this
      ensures ReadNumber(base, old(pos), n) == if ok then Some(v) else None
      ensures pos == if ok then old(pos) + n else old(pos)
    {
      v := 0;
      ok := Has(n);
      if ok {
        v := Get(base[pos..pos + n]);
        pos := pos + n;
      }
    }

    /** cursor_string: the range of the string's bytes. */
    method String() returns (ok: bool, start: nat, end: nat)
      modifies this
      ensures TextAt(base, old(pos)) == if ok then Some((start, end)) else None
      ensures ok ==> pos == end && start <= end <= |base|
    {
      start, end := 0, 0;
      var len;
      ok, len := Number(8);
      if !ok {
        return;
      }
      ok := Has(len);
      if ok {
        start, end := pos, pos + len;
        pos := pos + len;
      }
    }

    /** skip_value */
    method SkipValue(t: nat, depth: nat) returns (ok: bool)
      requires |base| < U64
      modifies this
      ensures SkipEnd(base, old(pos), t, depth) == if ok then Some(pos) else None
      ensures ok && old(pos) <= |base| ==> pos <= |base|
      decreases MAX_DEPTH + 1 - depth
    {
      if depth > MAX_DEPTH {
        failed := true;
        return false;
      }
      var scalar := ScalarSize(t);
      if scalar != 0 {
        ok := Skip(scalar);
        return;
      }
      if t == VALUE_STRING {
        var s, e;
        ok, s, e := String();
        return;
      }
      if t == VALUE_ARRAY {
        var itemType, len;
        ok, itemType := Number(4);
        if !ok {
          return;
        }
        ok, len := Number(8);
        if !ok {
          return;
        }
        var size := ScalarSize(itemType);
        if size != 0 {
          if len > (U64 - 1) / size {
            failed := true;
            return false;
          }
          ok := Skip(len * size);
          return;
        }
        ghost var start := pos;
        var i := 0;
        while i < len
          invariant 0 <= i <= len
          invariant SkipItems(base, pos, itemType, depth, len - i) == SkipItems(base, start, itemType, depth, len)
          invariant pos <= |base|
        {
          ok := SkipValue(itemType, depth + 1);
          if !ok {
            return;
          }
          i := i + 1;
        }
        return true;
      }
      failed := true;
      return false;
    }
  }
}
