/** Writing a GGUF file, and that parsing it recovers everything; decoding values again by key. */
module GgufFile {
  import opened Common
  import opened LittleEndian
  import opened GgufValues
  import opened Gguf

  // --------------------------------------------------------------- the writer

  datatype Meta = Meta(key: Bytes, value: Value)
  datatype TensorInfo = TensorInfo(name: Bytes, dims: seq<nat>, kind: nat, offset: nat)

  function MetaBytes(m: Meta): Bytes {
    EncodeText(m.key) + (Put(TypeOf(m.value), 4) + Encode(m.value))
  }

  function MetasBytes(ms: seq<Meta>): Bytes {
    if ms == [] then [] else MetasBytes(ms[..|ms| - 1]) + MetaBytes(ms[|ms| - 1])
  }

  function DimsBytes(dims: seq<nat>): (r: Bytes)
    ensures |r| == 8 * |dims|
  {
    if dims == [] then [] else DimsBytes(dims[..|dims| - 1]) + Put(dims[|dims| - 1], 8)
  }

  function TensorInfoBytes(t: TensorInfo): Bytes {
    EncodeText(t.name) + (Put(|t.dims|, 4) + (DimsBytes(t.dims) + (Put(t.kind, 4) + Put(t.offset, 8))))
  }

  function TensorInfosBytes(ts: seq<TensorInfo>): Bytes {
    if ts == [] then [] else TensorInfosBytes(ts[..|ts| - 1]) + TensorInfoBytes(ts[|ts| - 1])
  }

  function Header(tensors: nat, kvs: nat): Bytes {
    Put(MAGIC, 4) + (Put(3, 4) + (Put(tensors, 8) + Put(kvs, 8)))
  }

  /** A GGUF v3 file; `data` is everything behind the directory, padding included. */
  function FileOf(ms: seq<Meta>, ts: seq<TensorInfo>, data: Bytes): Bytes {
    Header(|ts|, |ms|) + (MetasBytes(ms) + (TensorInfosBytes(ts) + data))
  }

  /** It starts with the letters GGUF and version 3. */
  lemma FileStarts(ms: seq<Meta>, ts: seq<TensorInfo>, data: Bytes)
    ensures FileOf(ms, ts, data)[..8] == [0x47, 0x47, 0x55, 0x46, 3, 0, 0, 0]
  {
    hide MetasBytes, TensorInfosBytes, Put;
    var h := Header(|ts|, |ms|);
    MagicBytes();
    assert h == Put(MAGIC, 4) + Put(3, 4) + (Put(|ts|, 8) + Put(|ms|, 8));
    assert FileOf(ms, ts, data)[..8] == h[..8] == Put(MAGIC, 4) + Put(3, 4);
  }

  lemma MagicBytes()
    ensures Put(MAGIC, 4) == [0x47, 0x47, 0x55, 0x46] && Put(3, 4) == [3, 0, 0, 0]
  {
  }

  ghost predicate MetaOK(m: Meta) {
    |m.key| < U64 && TypeOf(m.value) < U32 && Writable(m.value, 0)
  }

  /** The product of the dimensions, if every partial product stays below 2^64. */
  function Elements(dims: seq<nat>): Option<nat> {
    if dims == [] then Some(1)
    else
      match Elements(dims[..|dims| - 1])
      case None => None
      case Some(e) => TimesDim(e, dims[|dims| - 1])
  }

  ghost predicate TensorOK(t: TensorInfo) {
    && |t.name| < U64 && 1 <= |t.dims| <= MAX_DIMS && t.kind < U32 && t.offset < U64
    && (forall i :: 0 <= i < |t.dims| ==> t.dims[i] < U64) && Elements(t.dims).Some?
  }

  // ------------------------------------------------------ parsing the metadata

  /** Entry k of the table is metadata m: its key, its type, and its value standing at the recorded position. */
  ghost predicate Describes(b: Bytes, k: Kv, m: Meta) {
    HasKey(b, k, m.key) && k.kind == TypeOf(m.value) && At(b, k.valuePos, Encode(m.value))
  }

  lemma MetaParses(b: Bytes, pos: nat, m: Meta)
    requires At(b, pos, MetaBytes(m)) && MetaOK(m)
    ensures var r := KvAt(b, pos); r.Some? && r.value.1 == pos + |MetaBytes(m)| && Describes(b, r.value.0, m)
  {
    hide At, Writable, SkipEnd, Encode, TextAt;
    var key, rest := EncodeText(m.key), Put(TypeOf(m.value), 4) + Encode(m.value);
    AtSplit(b, pos, key, rest);
    TextWritten(b, pos, m.key);
    AtSplit(b, pos + |key|, Put(TypeOf(m.value), 4), Encode(m.value));
    Ranges();
    NumberAt(b, pos + |key|, TypeOf(m.value), 4);
    SkipWritten(b, pos + |key| + 4, m.value, 0);
    AtInside(b, pos, key);
  }

  lemma AtInside(b: Bytes, pos: nat, s: Bytes)
    requires At(b, pos, s)
    ensures pos + |s| <= |b|
  {
  }

  lemma {:induction false} MetasParse(b: Bytes, pos: nat, ms: seq<Meta>)
    requires At(b, pos, MetasBytes(ms)) && forall i :: 0 <= i < |ms| ==> MetaOK(ms[i])
    ensures var r := KvsAt(b, pos, |ms|);
      && r.Some? && r.value.1 == pos + |MetasBytes(ms)|
      && forall i :: 0 <= i < |ms| ==> Describes(b, r.value.0[i], ms[i])
    decreases |ms|
  {
    hide At, MetaOK, Describes, KvAt, MetaBytes;
    if ms != [] {
      var n := |ms| - 1;
      AtSplit(b, pos, MetasBytes(ms[..n]), MetaBytes(ms[n]));
      MetasParse(b, pos, ms[..n]);
      MetaParses(b, pos + |MetasBytes(ms[..n])|, ms[n]);
      var p, r := KvsAt(b, pos, n).value.0, KvsAt(b, pos, |ms|).value.0;
      forall i | 0 <= i < |ms|
        ensures Describes(b, r[i], ms[i])
      {
        if i < n {
          assert r[i] == p[i] && ms[..n][i] == ms[i];
        }
      }
    }
  }

  // ----------------------------------------------------- parsing the directory

  lemma {:induction false} DimsParse(b: Bytes, pos: nat, dims: seq<nat>)
    requires At(b, pos, DimsBytes(dims)) && Elements(dims).Some? && forall i :: 0 <= i < |dims| ==> dims[i] < U64
    ensures DimsAt(b, pos, |dims|) == Some((dims, Elements(dims).value))
    decreases |dims|
  {
    hide At, TimesDim;
    if dims != [] {
      var n := |dims| - 1;
      AtSplit(b, pos, DimsBytes(dims[..n]), Put(dims[n], 8));
      DimsParse(b, pos, dims[..n]);
      Ranges();
      NumberAt(b, pos + 8 * n, dims[n], 8);
      assert dims == dims[..n] + [dims[n]];
    }
  }

  /** Entry t of the directory is tensor i: its name, shape, type, offset and size. */
  ghost predicate DescribesTensor(b: Bytes, t: Tensor, i: TensorInfo) {
    && t.nameStart <= t.nameEnd <= |b| && b[t.nameStart..t.nameEnd] == i.name
    && t.dims == i.dims && Elements(i.dims) == Some(t.elements) && t.kind == i.kind && t.relOffset == i.offset
    && t.bytes == match TensorBytes(i.kind, t.elements) case None => 0 case Some(x) => x
  }

  lemma TensorParses(b: Bytes, pos: nat, t: TensorInfo)
    requires At(b, pos, TensorInfoBytes(t)) && TensorOK(t)
    ensures var r := TensorAt(b, pos); r.Some? && r.value.1 == pos + |TensorInfoBytes(t)| && DescribesTensor(b, r.value.0, t)
  {
    hide At, TensorBytes, Elements, DimsAt, TextAt, DimsBytes, ReadNumber, Get;
    var name, dims := EncodeText(t.name), DimsBytes(t.dims);
    var tail := Put(t.kind, 4) + Put(t.offset, 8);
    var at := pos + |name|;
    AtSplit(b, pos, name, Put(|t.dims|, 4) + (dims + tail));
    TextWritten(b, pos, t.name);
    AtInside(b, pos, name);
    AtSplit(b, at, Put(|t.dims|, 4), dims + tail);
    AtSplit(b, at + 4, dims, tail);
    AtSplit(b, at + 4 + |dims|, Put(t.kind, 4), Put(t.offset, 8));
    Ranges();
    NumberAt(b, at, |t.dims|, 4);
    DimsParse(b, at + 4, t.dims);
    NumberAt(b, at + 4 + |dims|, t.kind, 4);
    NumberAt(b, at + 8 + |dims|, t.offset, 8);
  }

  lemma {:induction false} TensorsParse(b: Bytes, pos: nat, ts: seq<TensorInfo>)
    requires At(b, pos, TensorInfosBytes(ts)) && forall i :: 0 <= i < |ts| ==> TensorOK(ts[i])
    ensures var r := TensorsAt(b, pos, |ts|);
      && r.Some? && r.value.1 == pos + |TensorInfosBytes(ts)|
      && forall i :: 0 <= i < |ts| ==> DescribesTensor(b, r.value.0[i], ts[i])
    decreases |ts|
  {
    hide At, TensorOK, DescribesTensor, TensorAt, TensorInfoBytes;
    if ts != [] {
      var n := |ts| - 1;
      AtSplit(b, pos, TensorInfosBytes(ts[..n]), TensorInfoBytes(ts[n]));
      TensorsParse(b, pos, ts[..n]);
      TensorParses(b, pos + |TensorInfosBytes(ts[..n])|, ts[n]);
      var p, r := TensorsAt(b, pos, n).value.0, TensorsAt(b, pos, |ts|).value.0;
      forall i | 0 <= i < |ts|
        ensures DescribesTensor(b, r[i], ts[i])
      {
        if i < n {
          assert r[i] == p[i] && ts[..n][i] == ts[i];
        }
      }
    }
  }

  // ------------------------------------------------------------ the whole file

  lemma {:induction false} MetasLength(ms: seq<Meta>)
    ensures |MetasBytes(ms)| >= |ms|
  {
    if ms != [] {
      MetasLength(ms[..|ms| - 1]);
    }
  }

  lemma {:induction false} TensorInfosLength(ts: seq<TensorInfo>)
    ensures |TensorInfosBytes(ts)| >= |ts|
  {
    if ts != [] {
      TensorInfosLength(ts[..|ts| - 1]);
    }
  }

  /** The header fields of a file that was written. */
  lemma HeaderParses(b: Bytes, tensors: nat, kvs: nat)
    requires At(b, 0, Header(tensors, kvs)) && tensors < U64 && kvs < U64
    ensures |b| >= 24 && ReadNumber(b, 0, 4) == Some(MAGIC) && Get(b[4..8]) == 3 && Get(b[8..16]) == tensors && Get(b[16..24]) == kvs
  {
    hide At;
    AtInside(b, 0, Header(tensors, kvs));
    AtSplit(b, 0, Put(MAGIC, 4), Put(3, 4) + (Put(tensors, 8) + Put(kvs, 8)));
    AtSplit(b, 4, Put(3, 4), Put(tensors, 8) + Put(kvs, 8));
    AtSplit(b, 8, Put(tensors, 8), Put(kvs, 8));
    Ranges();
    NumberAt(b, 0, MAGIC, 4);
    NumberAt(b, 4, 3, 4);
    NumberAt(b, 8, tensors, 8);
    NumberAt(b, 16, kvs, 8);
  }

  /** The tables of a written file are parsed back, whatever its data. */
  lemma TablesParse(ms: seq<Meta>, ts: seq<TensorInfo>, data: Bytes)
    requires |FileOf(ms, ts, data)| < U64 - U32
    requires (forall i :: 0 <= i < |ms| ==> MetaOK(ms[i])) && (forall i :: 0 <= i < |ts| ==> TensorOK(ts[i]))
    ensures var b := FileOf(ms, ts, data);
      var ks := KvsAt(b, 24, |ms|);
      && ks.Some? && ks.value.1 == 24 + |MetasBytes(ms)| <= |b| && |ms| <= |b| - 24 && |ts| <= |b| - ks.value.1
      && (forall i :: 0 <= i < |ms| ==> Describes(b, ks.value.0[i], ms[i]))
      && var tt := TensorsAt(b, ks.value.1, |ts|);
         && tt.Some? && tt.value.1 == |b| - |data|
         && forall i :: 0 <= i < |ts| ==> DescribesTensor(b, tt.value.0[i], ts[i])
  {
    hide At, MetaOK, TensorOK, Describes, DescribesTensor, KvsAt, TensorsAt, MetasBytes, TensorInfosBytes;
    var b := FileOf(ms, ts, data);
    var m, t := MetasBytes(ms), TensorInfosBytes(ts);
    AtStart(b);
    AtSplit(b, 0, Header(|ts|, |ms|), m + (t + data));
    AtSplit(b, 24, m, t + data);
    AtSplit(b, 24 + |m|, t, data);
    MetasLength(ms);
    TensorInfosLength(ts);
    MetasParse(b, 24, ms);
    TensorsParse(b, 24 + |m|, ts);
  }

  lemma AtStart(b: Bytes)
    ensures At(b, 0, b)
  {
    assert b[0..|b|] == b;
  }

  /**
    Parsing undoes writing: the file is accepted exactly when it has 32 bytes and every tensor of known type
    lies inside it, and then the tables are the ones that were written.
   */
  lemma ParseWritten(ms: seq<Meta>, ts: seq<TensorInfo>, data: Bytes)
    requires |FileOf(ms, ts, data)| < U64 - U32
    requires (forall i :: 0 <= i < |ms| ==> MetaOK(ms[i])) && (forall i :: 0 <= i < |ts| ==> TensorOK(ts[i]))
    ensures KvsAt(FileOf(ms, ts, data), 24, |ms|).Some?
    ensures TensorsAt(FileOf(ms, ts, data), KvsAt(FileOf(ms, ts, data), 24, |ms|).value.1, |ts|).Some?
    ensures var b := FileOf(ms, ts, data);
      var kvs := KvsAt(b, 24, |ms|).value;
      var tensors := TensorsAt(b, kvs.1, |ts|).value.0;
      var dataPos := AlignUp(|b| - |data|, Alignment(b, kvs.0));
      && (Parse(b).Some? <==> |b| >= MIN_FILE && forall i :: 0 <= i < |ts| ==> Inside(|b|, dataPos, tensors[i]))
      && (Parse(b).Some? ==>
            var p := Parse(b).value;
            && |p.kvs| == |ms| && (forall i :: 0 <= i < |ms| ==> Describes(b, p.kvs[i], ms[i]))
            && |p.tensors| == |ts| && (forall i :: 0 <= i < |ts| ==> DescribesTensor(b, p.tensors[i], ts[i]))
            && p.dataPos == dataPos)
  {
    hide MetaOK, TensorOK, Describes, DescribesTensor, KvsAt, TensorsAt, Inside, Alignment, AlignUp, MetasBytes, TensorInfosBytes, At;
    var b := FileOf(ms, ts, data);
    TablesParse(ms, ts, data);
    AtStart(b);
    AtSplit(b, 0, Header(|ts|, |ms|), MetasBytes(ms) + (TensorInfosBytes(ts) + data));
    MetasLength(ms);
    TensorInfosLength(ts);
    HeaderParses(b, |ts|, |ms|);
  }

  // ------------------------------------------------------ where the data start

  /** The entry sets the alignment: a nonzero 32-bit number under that key. */
  ghost predicate SetsAlignment(m: Meta, a: nat) {
    && |m.key| == 17 && (forall i :: 0 <= i < 17 ==> m.key[i] == "general.alignment"[i] as int)
    && m.value.Scalar? && m.value.t == VALUE_UINT32 && Get(m.value.bytes) == a && a != 0
  }

  /** The last entry that sets the alignment sets it to a; or none does, and a is 32. */
  ghost predicate AlignedTo(ms: seq<Meta>, a: nat) {
    || (a == 32 && forall k, x :: 0 <= k < |ms| ==> !SetsAlignment(ms[k], x))
    || exists j :: 0 <= j < |ms| && SetsAlignment(ms[j], a) && forall k, x :: j < k < |ms| ==> !SetsAlignment(ms[k], x)
  }

  lemma {:induction false} AlignmentOf(b: Bytes, kvs: seq<Kv>, ms: seq<Meta>) returns (a: nat)
    requires |kvs| == |ms| && forall i :: 0 <= i < |ms| ==> MetaOK(ms[i]) && Describes(b, kvs[i], ms[i])
    ensures AlignedTo(ms, a) && Alignment(b, kvs) == a
  {
    hide Describes, MetaOK, SetsAlignment, HasKey, ReadNumber, AlignmentKey;
    if ms == [] {
      a := 32;
    } else {
      var n := |ms| - 1;
      a := AlignmentOf(b, kvs[..n], ms[..n]);
      assert AlignedTo(ms[..n], a);
      SettingEntry(b, kvs[n], ms[n]);
      if x :| SetsAlignment(ms[n], x) {
        a := x;
      } else {
        LaterEntry(ms, ms[n], a);
      }
    }
  }

  lemma LaterEntry(ms: seq<Meta>, last: Meta, a: nat)
    requires ms != [] && last == ms[|ms| - 1] && AlignedTo(ms[..|ms| - 1], a) && forall x :: !SetsAlignment(last, x)
    ensures AlignedTo(ms, a)
  {
    hide SetsAlignment;
    var n := |ms| - 1;
    if j :| 0 <= j < n && SetsAlignment(ms[..n][j], a) && forall k, x :: j < k < n ==> !SetsAlignment(ms[..n][k], x) {
      assert SetsAlignment(ms[j], a);
      forall k, x | j < k < |ms|
        ensures !SetsAlignment(ms[k], x)
      {
        assert k < n ==> ms[..n][k] == ms[k];
      }
    } else {
      forall k, x | 0 <= k < |ms|
        ensures !SetsAlignment(ms[k], x)
      {
        assert k < n ==> ms[..n][k] == ms[k];
      }
    }
  }

  /** What the parser makes of one entry. */
  lemma SettingEntry(b: Bytes, k: Kv, m: Meta)
    requires MetaOK(m) && Describes(b, k, m)
    ensures var sets := HasKey(b, k, AlignmentKey()) && k.kind == VALUE_UINT32 && ReadNumber(b, k.valuePos, 4).Some?
                        && ReadNumber(b, k.valuePos, 4).value != 0;
      && (sets ==> SetsAlignment(m, ReadNumber(b, k.valuePos, 4).value))
      && forall x :: SetsAlignment(m, x) ==> sets && x == ReadNumber(b, k.valuePos, 4).value
  {
    hide Encode, Get;
    KeyIs(m.key);
    if k.kind == VALUE_UINT32 {
      DecodedAgain(b, k, m);
    }
  }

  lemma KeyIs(key: Bytes)
    ensures key == AlignmentKey() <==> |key| == 17 && forall i :: 0 <= i < 17 ==> key[i] == "general.alignment"[i] as int
  {
  }

  /** The data of an accepted file start at the first multiple of the alignment behind the directory. */
  lemma DataAligned(ms: seq<Meta>, ts: seq<TensorInfo>, data: Bytes) returns (a: nat, k: nat)
    requires |FileOf(ms, ts, data)| < U64 - U32
    requires (forall i :: 0 <= i < |ms| ==> MetaOK(ms[i])) && (forall i :: 0 <= i < |ts| ==> TensorOK(ts[i]))
    requires Parse(FileOf(ms, ts, data)).Some?
    ensures AlignedTo(ms, a) && |data| <= |FileOf(ms, ts, data)|
    ensures var behind := |FileOf(ms, ts, data)| - |data|;
      Parse(FileOf(ms, ts, data)).value.dataPos == k * a && behind <= k * a < behind + a
  {
    hide FileOf, Parse, MetaOK, TensorOK, KvsAt, TensorsAt, Inside, Alignment, AlignUp, Describes, DescribesTensor, AlignedTo;
    var b := FileOf(ms, ts, data);
    ParseWritten(ms, ts, data);
    TablesParse(ms, ts, data);
    a := AlignmentOf(b, KvsAt(b, 24, |ms|).value.0, ms);
    k := AlignedUp(|b| - |data|, a);
  }

  // ----------------------------------------------------- accepted tensors

  lemma {:induction false} TensorsSized(b: Bytes, pos: nat, n: nat)
    requires TensorsAt(b, pos, n).Some?
    ensures forall i :: 0 <= i < n ==> Sized(TensorsAt(b, pos, n).value.0[i])
  {
    hide TensorAt, Sized;
    if n > 0 {
      TensorsSized(b, pos, n - 1);
      var p, r := TensorsAt(b, pos, n - 1).value, TensorsAt(b, pos, n).value.0;
      TensorSized(b, p.1);
      forall i | 0 <= i < n
        ensures Sized(r[i])
      {
        if i < n - 1 {
          assert r[i] == p.0[i];
        }
      }
    }
  }

  /** The recorded size is what tensor_nbytes gave, or zero where it gave up. */
  ghost predicate Sized(t: Tensor) {
    t.elements < U64 && t.bytes == match TensorBytes(t.kind, t.elements) case None => 0 case Some(x) => x
  }

  lemma TensorSized(b: Bytes, pos: nat)
    requires TensorAt(b, pos).Some?
    ensures Sized(TensorAt(b, pos).value.0)
  {
    hide TensorBytes, DimsAt;
    var name := TextAt(b, pos).value;
    DimsBound(b, name.1 + 4, ReadNumber(b, name.1, 4).value);
  }

  lemma {:induction false} DimsBound(b: Bytes, pos: nat, n: nat)
    requires DimsAt(b, pos, n).Some?
    ensures DimsAt(b, pos, n).value.1 < U64
  {
    if n > 0 {
      DimsBound(b, pos, n - 1);
      var e, d := DimsAt(b, pos, n - 1).value.1, ReadNumber(b, pos + 8 * (n - 1), 8).value;
      ProductBound(e, d);
    }
  }

  lemma ProductBound(e: nat, d: nat)
    requires d != 0 ==> e <= (U64 - 1) / d
    ensures e * d < U64
  {
    if d != 0 {
      var q := (U64 - 1) / d;
      assert U64 - 1 == q * d + (U64 - 1) % d;
      assert e * d <= q * d;
    }
  }

  /** No element takes less than an eighth of a byte, so no smaller file holds a tensor whose rounding sum wraps. */
  const BIG_FILE := U64 / 8 - 32

  /**
    In an accepted file, the recorded size of a tensor of known type is the size of its blocks exactly when
    its rounding sum and its size stay below 2^64; and exactly then does the tensor lie inside the file with
    all its blocks.
   */
  lemma KnownTensorInside(b: Bytes, i: nat)
    requires |b| < U64 - U32 && Parse(b).Some? && i < |Parse(b).value.tensors|
    requires TensorType(Parse(b).value.tensors[i].kind).Some?
    ensures var p := Parse(b).value;
      var t := p.tensors[i];
      var per, size := TensorType(t.kind).value.0, TensorType(t.kind).value.1;
      var whole := Blocks(t.elements, per) * size;
      && (t.bytes == whole <==> t.elements + per - 1 < U64 && whole < U64)
      && (t.bytes == whole && whole > 0 ==> p.dataPos + t.relOffset + whole <= |b|)
      && (|b| < BIG_FILE && t.elements > 0 ==>
            (p.dataPos + t.relOffset + whole <= |b| <==> t.elements + per - 1 < U64 && whole < U64))
  {
    hide KvsAt, TensorsAt, Alignment, AlignUp, TensorBytes, Blocks, TensorType, Parse;
    var p := Parse(b).value;
    var t := p.tensors[i];
    ParsedTensors(b);
    assert Sized(t) && Inside(|b|, p.dataPos, t);
    TensorBytesRight(t.kind, t.elements);
    var per, size := TensorType(t.kind).value.0, TensorType(t.kind).value.1;
    if t.elements > 0 {
      SomeBlocks(t.elements, per, size);
      EighthByte(t.kind, t.elements);
    }
  }

  lemma EighthByte(kind: nat, elements: nat)
    requires TensorType(kind).Some?
    ensures 8 * (Blocks(elements, TensorType(kind).value.0) * TensorType(kind).value.1) >= elements
  {
    hide Blocks;
    var per, size := TensorType(kind).value.0, TensorType(kind).value.1;
    assert 8 * size >= per;
    var n := Blocks(elements, per);
    assert n * (8 * size) >= n * per;
  }

  lemma SomeBlocks(elements: nat, per: nat, size: nat)
    requires elements > 0 && per > 0 && size > 0
    ensures Blocks(elements, per) * size > 0
  {
    var n := Blocks(elements, per);
    assert n > 0;
    assert n * size >= size;
  }

  lemma ParsedTensors(b: Bytes)
    requires |b| < U64 - U32 && Parse(b).Some?
    ensures var p := Parse(b).value;
      forall i :: 0 <= i < |p.tensors| ==> Sized(p.tensors[i]) && Inside(|b|, p.dataPos, p.tensors[i])
  {
    hide KvsAt, TensorsAt, Alignment, AlignUp, Sized, Inside;
    var nt, nk := Get(b[8..16]), Get(b[16..24]);
    var ks := KvsAt(b, 24, nk).value;
    TensorsSized(b, ks.1, nt);
  }

  /** The rounding sum or the size of the tensor does not fit 64 bits. */
  predicate Overflows(kind: nat, elements: nat) {
    && elements < U64 && TensorType(kind).Some?
    && var per, size := TensorType(kind).value.0, TensorType(kind).value.1;
       elements + per - 1 >= U64 || Blocks(elements, per) * size >= U64
  }

  /**
    Both bounds of KnownTensorInside are needed: 2^64 - 1 elements of q8_0 wrap around to no blocks, the size of
    2^63 elements of f32 is given up, and both pass as tensors of no bytes.
   */
  lemma SizeWrapsToZero(size: nat, dataPos: nat, offset: nat)
    requires offset + dataPos < U64
    ensures Overflows(8, U64 - 1) && TensorBytes(8, U64 - 1) == Some(0)
    ensures Overflows(0, U64 / 2) && TensorBytes(0, U64 / 2) == None
    ensures Inside(size, dataPos, Tensor(0, 0, [U64 - 1], U64 - 1, 8, offset, 0))
    ensures Inside(size, dataPos, Tensor(0, 0, [U64 / 2], U64 / 2, 0, offset, 0))
  {
  }

  // ----------------------------------------------------------- decoding again

  /** model_find_kv: the first entry with the key. */
  function Find(b: Bytes, kvs: seq<Kv>, key: Bytes): (r: Option<Kv>)
  {
    if kvs == [] then None
    else if HasKey(b, kvs[0], key) then Some(kvs[0])
    else Find(b, kvs[1..], key)
  }

  method FindKv(m: Model, key: Bytes) returns (r: Option<Kv>)
    ensures r == Find(m.image, m.kv, key)
  {
    var i := 0;
    assert m.kv[0..] == m.kv;
    while i < |m.kv|
      invariant 0 <= i <= |m.kv| && Find(m.image, m.kv[i..], key) == Find(m.image, m.kv, key)
    {
      assert m.kv[i..][1..] == m.kv[i + 1..];
      if HasKey(m.image, m.kv[i], key) {
        return Some(m.kv[i]);
      }
      i := i + 1;
    }
    return None;
  }

  /** model_get_u32 */
  method GetU32(m: Model, key: Bytes) returns (r: Option<nat>)
    ensures r == match Find(m.image, m.kv, key) case None => None
                 case Some(k) => if k.kind == VALUE_UINT32 then ReadNumber(m.image, k.valuePos, 4) else None
  {
    var k := FindKv(m, key);
    if k.None? || k.value.kind != VALUE_UINT32 {
      return None;
    }
    var c := new Cursor(m.image, k.value.valuePos);
    var ok, v := c.Number(4);
    return if ok then Some(v) else None;
  }

  /** model_get_u64_compat: a 64-bit value, or a 32-bit one. */
  method GetU64Compat(m: Model, key: Bytes) returns (r: Option<nat>)
    ensures r == match Find(m.image, m.kv, key) case None => None
                 case Some(k) => if k.kind == VALUE_UINT64 then ReadNumber(m.image, k.valuePos, 8)
                                 else if k.kind == VALUE_UINT32 then ReadNumber(m.image, k.valuePos, 4) else None
  {
    var k := FindKv(m, key);
    if k.None? {
      return None;
    }
    var c := new Cursor(m.image, k.value.valuePos);
    var ok, v := false, 0;
    if k.value.kind == VALUE_UINT64 {
      ok, v := c.Number(8);
    } else if k.value.kind == VALUE_UINT32 {
      ok, v := c.Number(4);
    }
    return if ok then Some(v) else None;
  }

  /** model_get_string */
  method GetString(m: Model, key: Bytes) returns (r: Option<Bytes>)
    ensures r == match Find(m.image, m.kv, key) case None => None
                 case Some(k) => if k.kind == VALUE_STRING then StringAt(m.image, k.valuePos) else None
  {
    var k := FindKv(m, key);
    if k.None? || k.value.kind != VALUE_STRING {
      return None;
    }
    var c := new Cursor(m.image, k.value.valuePos);
    var ok, s, e := c.String();
    return if ok then Some(m.image[s..e]) else None;
  }

  function StringAt(b: Bytes, pos: nat): Option<Bytes> {
    match TextAt(b, pos)
    case None => None
    case Some(r) => Some(b[r.0..r.1])
  }

  /** model_get_array: item type, length, and where the items start. */
  method GetArray(m: Model, key: Bytes) returns (r: Option<(nat, nat, nat)>)
    ensures r == match Find(m.image, m.kv, key) case None => None
                 case Some(k) => if k.kind == VALUE_ARRAY then ArrayAt(m.image, k.valuePos) else None
  {
    var k := FindKv(m, key);
    if k.None? || k.value.kind != VALUE_ARRAY {
      return None;
    }
    var c := new Cursor(m.image, k.value.valuePos);
    var ok, t := c.Number(4);
    if !ok {
      return None;
    }
    var n;
    ok, n := c.Number(8);
    return if ok then Some((t, n, c.pos)) else None;
  }

  function ArrayAt(b: Bytes, pos: nat): Option<(nat, nat, nat)> {
    match ReadNumber(b, pos, 4)
    case None => None
    case Some(t) =>
      match ReadNumber(b, pos + 4, 8)
      case None => None
      case Some(n) => Some((t, n, pos + 12))
  }

  /** With distinct keys, looking up a key finds its own entry. */
  lemma {:induction false} FindOwn(b: Bytes, kvs: seq<Kv>, ms: seq<Meta>, i: nat)
    requires |kvs| == |ms| && i < |ms| && forall k :: 0 <= k < |ms| ==> HasKey(b, kvs[k], ms[k].key)
    requires forall j, k :: 0 <= j < k < |ms| ==> ms[j].key != ms[k].key
    ensures Find(b, kvs, ms[i].key) == Some(kvs[i])
  {
    if i > 0 {
      assert ms[0].key != ms[i].key;
      FindOwn(b, kvs[1..], ms[1..], i - 1);
    }
  }

  /** What the lookups decode is what was written. */
  lemma DecodedAgain(b: Bytes, k: Kv, m: Meta)
    requires Describes(b, k, m) && MetaOK(m)
    ensures m.value.Text? ==> k.kind == VALUE_STRING && StringAt(b, k.valuePos) == Some(m.value.s)
    ensures m.value.Scalar? ==> ReadNumber(b, k.valuePos, ScalarSize(k.kind)) == Some(Get(m.value.bytes))
    ensures m.value.Array? ==>
              && k.kind == VALUE_ARRAY && ArrayAt(b, k.valuePos) == Some((m.value.itemType, |m.value.items|, k.valuePos + 12))
              && At(b, k.valuePos + 12, EncodeAll(m.value.items))
  {
    match m.value
    case Scalar(t, bytes) =>
    case Text(s) => TextWritten(b, k.valuePos, s);
    case Array(t, items) => ArrayHeader(b, k.valuePos, t, items);
  }

  // ------------------------------------------- a file read back by its keys

  /** The number of the first metadata with a key, or the number of all. */
  function FirstWith(ms: seq<Meta>, key: Bytes): (j: nat)
    ensures j <= |ms|
  {
    if ms == [] || ms[0].key == key then 0 else 1 + FirstWith(ms[1..], key)
  }

  /** Looking up any key in the parsed table is looking it up in what was written. */
  lemma {:induction false} FindFirst(b: Bytes, kvs: seq<Kv>, ms: seq<Meta>, key: Bytes)
    requires |kvs| == |ms| && forall k :: 0 <= k < |ms| ==> HasKey(b, kvs[k], ms[k].key)
    ensures var j := FirstWith(ms, key); Find(b, kvs, key) == if j < |ms| then Some(kvs[j]) else None
  {
    if ms != [] && ms[0].key != key {
      FindFirst(b, kvs[1..], ms[1..], key);
    }
  }

  function StringIn(v: Value): Option<Bytes> {
    if v.Text? then Some(v.s) else None
  }

  function U32In(v: Value): Option<nat> {
    if v.Scalar? && v.t == VALUE_UINT32 then Some(Get(v.bytes)) else None
  }

  function U64In(v: Value): Option<nat> {
    if v.Scalar? && (v.t == VALUE_UINT32 || v.t == VALUE_UINT64) then Some(Get(v.bytes)) else None
  }

  /** The table entries of an opened file are the metadata that was written to it. */
  ghost predicate Holds(m: Model, ms: seq<Meta>)
    reads m
  {
    |m.kv| == |ms| && forall i :: 0 <= i < |ms| ==> MetaOK(ms[i]) && Describes(m.image, m.kv[i], ms[i])
  }

  /** What was written under a key, if anything was. */
  function Written(ms: seq<Meta>, key: Bytes): Option<Value> {
    var j := FirstWith(ms, key);
    if j < |ms| then Some(ms[j].value) else None
  }

  /** Each getter gives what was written under the key, and nothing for another type or a key that was not. */
  method GetAll(m: Model, key: Bytes, ghost ms: seq<Meta>)
    returns (s: Option<Bytes>, u32: Option<nat>, u64: Option<nat>, arr: Option<(nat, nat, nat)>)
    requires Holds(m, ms)
    ensures var v := Written(ms, key);
      && s == (if v.Some? then StringIn(v.value) else None)
      && u32 == (if v.Some? then U32In(v.value) else None)
      && u64 == (if v.Some? then U64In(v.value) else None)
      && (arr.Some? <==> v.Some? && v.value.Array?)
      && (arr.Some? ==> (arr.value.0, arr.value.1) == (v.value.itemType, |v.value.items|)
                        && At(m.image, arr.value.2, EncodeAll(v.value.items)))
  {
    hide Find, FirstWith, Describes, MetaOK, ReadNumber, StringAt, ArrayAt, At, EncodeAll;
    OwnKeys(m, ms);
    FindFirst(m.image, m.kv, ms, key);
    var j := FirstWith(ms, key);
    if j < |ms| {
      DecodedAgain(m.image, m.kv[j], ms[j]);
      KindIs(m.image, m.kv[j], ms[j]);
    }
    s := GetString(m, key);
    u32 := GetU32(m, key);
    u64 := GetU64Compat(m, key);
    arr := GetArray(m, key);
  }

  lemma OwnKeys(m: Model, ms: seq<Meta>)
    requires Holds(m, ms)
    ensures forall i :: 0 <= i < |ms| ==> HasKey(m.image, m.kv[i], ms[i].key)
  {
    hide At, MetaOK;
  }

  lemma KindIs(b: Bytes, k: Kv, m: Meta)
    requires Describes(b, k, m) && MetaOK(m)
    ensures k.kind == TypeOf(m.value)
    ensures m.value.Scalar? ==> ScalarSize(k.kind) != 0
  {
    hide At;
  }

  /**
    Reading a written file back: it is accepted exactly when it has 32 bytes and its data hold the tensors,
    and then the getters answer every key with what was written under it.
   */
  method ReadBack(ms: seq<Meta>, ts: seq<TensorInfo>, data: Bytes, key: Bytes)
    returns (ok: bool, s: Option<Bytes>, u32: Option<nat>, u64: Option<nat>, arr: Option<(nat, nat, nat)>)
    requires |FileOf(ms, ts, data)| < U64 - U32
    requires (forall i :: 0 <= i < |ms| ==> MetaOK(ms[i])) && (forall i :: 0 <= i < |ts| ==> TensorOK(ts[i]))
    ensures ok <==> Parse(FileOf(ms, ts, data)).Some?
    ensures ok ==>
              var v := Written(ms, key);
              && s == (if v.Some? then StringIn(v.value) else None)
              && u32 == (if v.Some? then U32In(v.value) else None)
              && u64 == (if v.Some? then U64In(v.value) else None)
              && (arr.Some? <==> v.Some? && v.value.Array?)
              && (arr.Some? ==> (arr.value.0, arr.value.1) == (v.value.itemType, |v.value.items|)
                                && At(FileOf(ms, ts, data), arr.value.2, EncodeAll(v.value.items)))
  {
    hide FileOf, Parse, MetaOK, TensorOK, KvsAt, TensorsAt, Describes, DescribesTensor, Inside, Written, At, EncodeAll;
    s, u32, u64, arr := None, None, None, None;
    var m := new Model(FileOf(ms, ts, data));
    ok := m.Open();
    if ok {
      ParseWritten(ms, ts, data);
      s, u32, u64, arr := GetAll(m, key, ms);
    }
  }

  /** A file of one tensor without a name and without data. */
  function BareFile(kind: nat, elements: nat): Bytes {
    FileOf([], [Bare(kind, elements)], [])
  }

  function Bare(kind: nat, elements: nat): TensorInfo {
    TensorInfo([], [elements], kind, 0)
  }

  lemma OverflowSize(kind: nat, elements: nat)
    requires Overflows(kind, elements)
    ensures TensorBytes(kind, elements) == if elements + TensorType(kind).value.0 - 1 >= U64 then Some(0) else None
    ensures Blocks(elements, TensorType(kind).value.0) * TensorType(kind).value.1 > 100
  {
    hide Blocks, TensorType, TensorBytes;
    TensorBytesRight(kind, elements);
    EighthByte(kind, elements);
  }

  /** Whatever does not fit is accepted as a tensor of no bytes, in a file shorter than the tensor's blocks. */
  lemma OverflowAccepted(kind: nat, elements: nat)
    requires kind < U32 && Overflows(kind, elements)
    ensures |BareFile(kind, elements)| < 100
    ensures Parse(BareFile(kind, elements)).Some? && |Parse(BareFile(kind, elements)).value.tensors| == 1
    ensures var t := Parse(BareFile(kind, elements)).value.tensors[0];
      && t.kind == kind && t.elements == elements && t.bytes == 0
      && Blocks(elements, TensorType(kind).value.0) * TensorType(kind).value.1 > |BareFile(kind, elements)|
  {
    hide FileOf, BareFile, Parse, KvsAt, TensorsAt, Inside, Alignment, DescribesTensor, Sized, TensorOK, Blocks, AlignUp;
    hide TensorType, Bare;
    var ts := [Bare(kind, elements)];
    var b := BareFile(kind, elements);
    BareLength(kind, elements);
    ParseWritten([], ts, []);
    var ks := KvsAt(b, 24, 0).value;
    var tt := TensorsAt(b, ks.1, 1).value;
    TablesParse([], ts, []);
    TensorsSized(b, ks.1, 1);
    var dataPos := AlignUp(|b|, Alignment(b, ks.0));
    OverflowTensor(b, tt.0, dataPos, kind, elements);
    assert Parse(b).Some?;
    ParsedTensors(b);
    OverflowTensor(b, Parse(b).value.tensors, dataPos, kind, elements);
  }

  lemma OverflowTensor(b: Bytes, tensors: seq<Tensor>, dataPos: nat, kind: nat, elements: nat)
    requires |tensors| == 1 && |b| < 100 && dataPos < 2 * U32 && Overflows(kind, elements)
    requires forall i :: 0 <= i < 1 ==> DescribesTensor(b, tensors[i], Bare(kind, elements))
    requires forall i :: 0 <= i < 1 ==> Sized(tensors[i])
    ensures forall i :: 0 <= i < 1 ==> Inside(|b|, dataPos, tensors[i])
    ensures var t := tensors[0];
      && t.kind == kind && t.elements == elements && t.bytes == 0
      && Blocks(elements, TensorType(kind).value.0) * TensorType(kind).value.1 > |b|
  {
    hide TensorBytes, Blocks, TensorType;
    BareElements(elements);
    OverflowSize(kind, elements);
  }

  lemma BareElements(elements: nat)
    requires elements < U64
    ensures Elements([elements]) == Some(elements)
  {
    assert Elements([]) == Some(1);
  }

  lemma BareLength(kind: nat, elements: nat)
    requires kind < U32 && elements < U64
    ensures BareFile(kind, elements) == FileOf([], [Bare(kind, elements)], []) && 32 <= |BareFile(kind, elements)| < 100
    ensures TensorOK(Bare(kind, elements))
  {
    BareElements(elements);
    hide Put, Elements;
    var t := Bare(kind, elements);
    assert TensorInfosBytes([t]) == TensorInfosBytes([]) + TensorInfoBytes(t);
    assert MetasBytes([]) == [];
  }
}
