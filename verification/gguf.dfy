/** The GGUF file: its metadata table, its tensor directory, and the lookups that decode values again. */
module Gguf {
  import opened Common
  import opened LittleEndian
  import opened GgufValues

  const MAGIC := 0x46554747
  const MAX_DIMS := 8
  const DEFAULT_ALIGNMENT := 32
  const MIN_FILE := 32

  // ---------------------------------------------------------- tensor sizes

  /** Elements and bytes of a block of a tensor type; None for types that do not exist. */
  function TensorType(t: nat): (r: Option<(nat, nat)>)
    ensures r.Some? ==> 1 <= r.value.0 <= 256 && 1 <= r.value.1 <= 292
  {
    match t
    case 0 => Some((1, 4))     case 1 => Some((1, 2))     case 2 => Some((32, 18))   case 3 => Some((32, 20))
    case 6 => Some((32, 22))   case 7 => Some((32, 24))   case 8 => Some((32, 34))   case 9 => Some((32, 40))
    case 10 => Some((256, 84)) case 11 => Some((256, 110)) case 12 => Some((256, 144)) case 13 => Some((256, 176))
    case 14 => Some((256, 210)) case 15 => Some((256, 292)) case 16 => Some((256, 66)) case 17 => Some((256, 74))
    case 18 => Some((256, 98)) case 19 => Some((256, 110)) case 20 => Some((256, 50)) case 21 => Some((256, 110))
    case 22 => Some((256, 82)) case 23 => Some((256, 136)) case 24 => Some((1, 1))   case 25 => Some((1, 2))
    case 26 => Some((1, 4))    case 27 => Some((1, 8))    case 28 => Some((1, 8))    case 29 => Some((256, 56))
    case 30 => Some((1, 2))    case 39 => Some((32, 17))
    case _ => None
  }

  /**
    A block of the numeric formats is its number. A quantized block is its elements at so many bits and its
    scales and minima behind them; the formats are those of GGML, but for the code's sizes of types 19 and 20.
   */
  lemma BlockSizes()
    ensures forall t :: t in {0, 26} ==> TensorType(t) == Some((1, 4))
    ensures forall t :: t in {1, 25, 30} ==> TensorType(t) == Some((1, 2))
    ensures forall t :: t in {27, 28} ==> TensorType(t) == Some((1, 8))
    ensures TensorType(24) == Some((1, 1))
    ensures TensorType(2) == Some((32, 32 * 4 / 8 + 2)) && TensorType(3) == Some((32, 32 * 4 / 8 + 4))
    ensures TensorType(6) == Some((32, 32 * 5 / 8 + 2)) && TensorType(7) == Some((32, 32 * 5 / 8 + 4))
    ensures TensorType(8) == Some((32, 32 * 8 / 8 + 2)) && TensorType(9) == Some((32, 32 * 8 / 8 + 8))
    ensures TensorType(10) == Some((256, 256 * 2 / 8 + 16 + 4)) && TensorType(11) == Some((256, 256 * 3 / 8 + 12 + 2))
    ensures TensorType(12) == Some((256, 256 * 4 / 8 + 12 + 4)) && TensorType(13) == Some((256, 256 * 5 / 8 + 12 + 4))
    ensures TensorType(14) == Some((256, 256 * 6 / 8 + 16 + 2)) && TensorType(15) == Some((256, 256 * 8 / 8 + 32 + 4))
    ensures TensorType(16) == Some((256, 256 * 2 / 8 + 2)) && TensorType(17) == Some((256, 256 * 2 / 8 + 8 + 2))
    ensures TensorType(18) == Some((256, 256 * 3 / 8 + 2)) && TensorType(21) == Some((256, 256 * 3 / 8 + 8 + 4 + 2))
    ensures TensorType(22) == Some((256, 256 * 2 / 8 + 8 + 8 + 2)) && TensorType(23) == Some((256, 256 * 4 / 8 + 4 + 2 + 2))
    ensures TensorType(29) == Some((256, 256 / 8 + 16 + 8)) && TensorType(39) == Some((32, 32 * 4 / 8 + 1))
    ensures TensorType(19) == Some((256, 110)) && TensorType(20) == Some((256, 50))
    ensures forall t: nat :: t in {4, 5} || 30 < t < 39 || t > 39 ==> TensorType(t) == None
  {
  }

  /** tensor_nbytes: the rounding sum wraps around in 64 bits. */
  function TensorBytes(t: nat, elements: nat): Option<nat> {
    match TensorType(t)
    case None => None
    case Some(info) =>
      var blocks := (elements + info.0 - 1) % U64 / info.0;
      if blocks > (U64 - 1) / info.1 then None else Some(blocks * info.1)
  }

  /** The blocks that hold so many elements. */
  function Blocks(elements: nat, perBlock: nat): (n: nat)
    requires perBlock > 0
    ensures n * perBlock >= elements && (n == 0 || (n - 1) * perBlock < elements)
  {
    var n := (elements + perBlock - 1) / perBlock;
    BlocksCover(elements, perBlock, n);
    n
  }

  lemma BlocksCover(elements: nat, perBlock: nat, n: nat)
    requires perBlock > 0 && n == (elements + perBlock - 1) / perBlock
    ensures n * perBlock >= elements && (n == 0 || (n - 1) * perBlock < elements)
  {
    var m := elements + perBlock - 1;
    assert m == n * perBlock + m % perBlock;
  }

  /** The size is that of the blocks the elements need, exactly when the rounding sum does not wrap. */
  lemma TensorBytesRight(t: nat, elements: nat)
    requires elements < U64 && TensorType(t).Some?
    ensures var per, size := TensorType(t).value.0, TensorType(t).value.1;
      && (elements + per - 1 < U64 ==>
            TensorBytes(t, elements) == if Blocks(elements, per) * size < U64 then Some(Blocks(elements, per) * size) else None)
      && (elements + per - 1 >= U64 ==> TensorBytes(t, elements) == Some(0))
  {
    hide Blocks, TensorType;
    var per, size := TensorType(t).value.0, TensorType(t).value.1;
    if elements + per - 1 < U64 {
      BlocksIs(elements, per);
      FitsProduct(Blocks(elements, per), size);
    } else {
      assert (elements + per - 1) % U64 == elements + per - 1 - U64;
      SmallQuotient(elements + per - 1 - U64, per);
    }
  }

  lemma BlocksIs(elements: nat, per: nat)
    requires per > 0 && elements + per - 1 < U64
    ensures (elements + per - 1) % U64 / per == Blocks(elements, per)
  {
  }

  lemma SmallQuotient(x: nat, per: nat)
    requires x < per
    ensures x / per == 0
  {
  }

  lemma FitsProduct(n: nat, size: nat)
    requires size > 0
    ensures n > (U64 - 1) / size <==> n * size >= U64
  {
    var q := (U64 - 1) / size;
    assert U64 - 1 == q * size + (U64 - 1) % size;
    if n > q {
      assert n * size >= (q + 1) * size;
    } else {
      assert n * size <= q * size;
    }
  }

  // ----------------------------------------------------------- the directory

  /** A metadata entry: where its key and value stand. */
  datatype Kv = Kv(keyStart: nat, keyEnd: nat, kind: nat, valuePos: nat)

  datatype Tensor = Tensor(nameStart: nat, nameEnd: nat, dims: seq<nat>, elements: nat, kind: nat, relOffset: nat, bytes: nat)

  function KvAt(b: Bytes, pos: nat): Option<(Kv, nat)> {
    match TextAt(b, pos)
    case None => None
    case Some(key) =>
      match ReadNumber(b, key.1, 4)
      case None => None
      case Some(kind) =>
        match SkipEnd(b, key.1 + 4, kind, 0)
        case None => None
        case Some(end) => Some((Kv(key.0, key.1, kind, key.1 + 4), end))
  }

  /** The first n entries from pos on, and where they end. */
  function KvsAt(b: Bytes, pos: nat, n: nat): (r: Option<(seq<Kv>, nat)>)
    ensures r.Some? ==> |r.value.0| == n
  {
    if n == 0 then Some(([], pos))
    else
      match KvsAt(b, pos, n - 1)
      case None => None
      case Some(r) =>
        match KvAt(b, r.1)
        case None => None
        case Some(k) => Some((r.0 + [k.0], k.1))
  }

  /** The dimensions and their product, which must stay below 2^64. */
  function DimsAt(b: Bytes, pos: nat, n: nat): (r: Option<(seq<nat>, nat)>)
    ensures r.Some? ==> |r.value.0| == n
  {
    if n == 0 then Some(([], 1))
    else
      match DimsAt(b, pos, n - 1)
      case None => None
      case Some(r) =>
        match ReadNumber(b, pos + 8 * (n - 1), 8)
        case None => None
        case Some(d) =>
          match TimesDim(r.1, d)
          case None => None
          case Some(e) => Some((r.0 + [d], e))
  }

  /** The element count with one more dimension, unless it leaves 64 bits. */
  function TimesDim(elements: nat, d: nat): Option<nat> {
    if d != 0 && elements > (U64 - 1) / d then None else Some(elements * d)
  }

  function TensorAt(b: Bytes, pos: nat): Option<(Tensor, nat)> {
    match TextAt(b, pos)
    case None => None
    case Some(name) =>
      match ReadNumber(b, name.1, 4)
      case None => None
      case Some(ndim) =>
        if ndim == 0 || ndim > MAX_DIMS then None
        else
          match DimsAt(b, name.1 + 4, ndim)
          case None => None
          case Some(d) =>
            var at := name.1 + 4 + 8 * ndim;
            match ReadNumber(b, at, 4)
            case None => None
            case Some(kind) =>
              match ReadNumber(b, at + 4, 8)
              case None => None
              case Some(off) =>
                var bytes := match TensorBytes(kind, d.1) case None => 0 case Some(x) => x;
                Some((Tensor(name.0, name.1, d.0, d.1, kind, off, bytes), at + 12))
  }

  function TensorsAt(b: Bytes, pos: nat, n: nat): (r: Option<(seq<Tensor>, nat)>)
    ensures r.Some? ==> |r.value.0| == n
  {
    if n == 0 then Some(([], pos))
    else
      match TensorsAt(b, pos, n - 1)
      case None => None
      case Some(r) =>
        match TensorAt(b, r.1)
        case None => None
        case Some(t) => Some((r.0 + [t.0], t.1))
  }

  function AlignmentKey(): Bytes {
    var s := "general.alignment";
    seq(|s|, i requires 0 <= i < |s| => if s[i] as int < 256 then s[i] as int else 0)
  }

  /** The alignment behind an entry: its number if it has a nonzero one under the key, else the one before it. */
  function Adopted(b: Bytes, k: Kv, before: nat): (a: nat)
    requires 0 < before < U32
    ensures 0 < a < U32
  {
    if HasKey(b, k, AlignmentKey()) && k.kind == VALUE_UINT32 then
      NumberBound(b, k.valuePos);
      match ReadNumber(b, k.valuePos, 4)
      case None => before
      case Some(a) => if a != 0 then a else before
    else before
  }

  /** The last nonzero 32-bit "general.alignment", or 32. */
  function Alignment(b: Bytes, kvs: seq<Kv>): (a: nat)
    ensures 0 < a < U32
  {
    if kvs == [] then DEFAULT_ALIGNMENT
    else Adopted(b, kvs[|kvs| - 1], Alignment(b, kvs[..|kvs| - 1]))
  }

  lemma OneMore(b: Bytes, kvs: seq<Kv>, k: Kv, pos: nat, end: nat, next: nat)
    requires KvsAt(b, pos, |kvs|) == Some((kvs, end)) && KvAt(b, end) == Some((k, next))
    ensures KvsAt(b, pos, |kvs| + 1) == Some((kvs + [k], next))
    ensures Alignment(b, kvs + [k]) == Adopted(b, k, Alignment(b, kvs))
  {
    hide KvAt, Adopted;
    assert (kvs + [k])[..|kvs|] == kvs;
  }

  lemma NumberBound(b: Bytes, pos: nat)
    ensures ReadNumber(b, pos, 4).Some? ==> ReadNumber(b, pos, 4).value < U32
  {
    Ranges();
    if pos + 4 <= |b| {
      GetBound(b[pos..pos + 4]);
    }
  }

  predicate HasKey(b: Bytes, k: Kv, key: Bytes) {
    k.keyStart <= k.keyEnd <= |b| && b[k.keyStart..k.keyEnd] == key
  }

  // ----------------------------------------------------------------- parsing

  datatype Parsed = Parsed(kvs: seq<Kv>, alignment: nat, tensors: seq<Tensor>, dataPos: nat, maxBytes: nat)

  /** A tensor of the directory lies inside the file; unknown types have size zero and are not checked. */
  predicate Inside(size: nat, dataPos: nat, t: Tensor) {
    && t.relOffset + dataPos < U64
    && (t.bytes != 0 ==> dataPos + t.relOffset <= size && t.bytes <= size - (dataPos + t.relOffset))
  }

  function MaxBytes(ts: seq<Tensor>): nat {
    if ts == [] then 0
    else
      var m := MaxBytes(ts[..|ts| - 1]);
      if ts[|ts| - 1].bytes > m then ts[|ts| - 1].bytes else m
  }

  lemma {:induction false} MaxIsMost(ts: seq<Tensor>)
    ensures forall i :: 0 <= i < |ts| ==> ts[i].bytes <= MaxBytes(ts)
    ensures MaxBytes(ts) == 0 || exists i :: 0 <= i < |ts| && ts[i].bytes == MaxBytes(ts)
  {
    if ts != [] {
      MaxIsMost(ts[..|ts| - 1]);
    }
  }

  /** What parsing a file comes to; None stands for every way of giving up. */
  function Parse(b: Bytes): Option<Parsed>
    requires |b| < U64 - U32
  {
    if |b| < MIN_FILE || Get(b[0..4]) != MAGIC || Get(b[4..8]) != 3 then None
    else
      var nt, nk := Get(b[8..16]), Get(b[16..24]);
      if nk > |b| - 24 then None
      else
        match KvsAt(b, 24, nk)
        case None => None
        case Some(ks) =>
          if ks.1 > |b| || nt > |b| - ks.1 then None
          else
            match TensorsAt(b, ks.1, nt)
            case None => None
            case Some(ts) =>
              var dataPos := AlignUp(ts.1, Alignment(b, ks.0));
              if forall i :: 0 <= i < |ts.0| ==> Inside(|b|, dataPos, ts.0[i]) then
                Some(Parsed(ks.0, Alignment(b, ks.0), ts.0, dataPos, MaxBytes(ts.0)))
              else None
  }

  /** A model file being opened: the fields the parser fills in. */
  class Model {
    const image: Bytes
    var kv: seq<Kv>
    var alignment: nat
    var tensors: seq<Tensor>
    var dataPos: nat
    var maxTensorBytes: nat

    constructor (image: Bytes)
      ensures this.image == image
    {
      this.image := image;
      kv, alignment, tensors, dataPos, maxTensorBytes := [], DEFAULT_ALIGNMENT, [], 0, 0;
    }

    /** model_open, once the file is open: a file of fewer than 32 bytes is refused before it is mapped. */
    method Open() returns (ok: bool)
      requires |image| < U64 - U32
      modifies this
      ensures Parse(image) == if ok then Some(Parsed(kv, alignment, tensors, dataPos, maxTensorBytes)) else None
    {
      hide KvsAt, TensorsAt, Alignment, Inside;
      if |image| < MIN_FILE {
        return false;
      }
      var c := new Cursor(image, 0);
      var magic, version, nTensors, nKv;
      ok, magic := c.Number(4);
      if !ok || magic != MAGIC {
        return false;
      }
      ok, version := c.Number(4);
      if !ok {
        return;
      }
      ok, nTensors := c.Number(8);
      if !ok {
        return;
      }
      ok, nKv := c.Number(8);
      if !ok || version != 3 {
        return false;
      }
      ok := ParseMetadata(c, nKv);
      if !ok {
        return;
      }
      ok := ParseTensors(c, nTensors);
    }

    /** parse_metadata */
    method ParseMetadata(c: Cursor, n: nat) returns (ok: bool)
      requires c.base == image && c.pos == 24 <= |image| < U64 - U32
      modifies this`kv, this`alignment, c
      ensures ok ==> n <= |image| - 24 && KvsAt(image, 24, n) == Some((kv, c.pos)) && alignment == Alignment(image, kv) && c.pos <= |image|
      ensures !ok ==> n > |image| - 24 || KvsAt(image, 24, n) == None
    {
      if n > |c.base| - c.pos {
        return false;
      }
      kv, alignment := [], DEFAULT_ALIGNMENT;
      assert Alignment(image, []) == DEFAULT_ALIGNMENT && KvsAt(image, 24, 0) == Some(([], 24));
      hide Alignment, Adopted, KvAt, KvsAt;
      var i := 0;
      while i < n
        invariant 0 <= i <= n && |kv| == i && KvsAt(image, 24, i) == Some((kv, c.pos)) && alignment == Alignment(image, kv) && c.pos <= |image|
      {
        var k;
        ghost var at := c.pos;
        ok, k := ReadKv(c);
        if !ok {
          NoMore(image, 24, i, at);
          KvsFail(image, 24, i + 1, n);
          return;
        }
        OneMore(image, kv, k, 24, at, c.pos);
        Adopt(k);
        kv := kv + [k];
        i := i + 1;
      }
      return true;
    }

    /** The alignment that an entry leaves. */
    method Adopt(k: Kv)
      requires 0 < alignment < U32
      modifies this`alignment
      ensures alignment == Adopted(image, k, old(alignment))
    {
      if HasKey(image, k, AlignmentKey()) && k.kind == VALUE_UINT32 {
        var tmp := new Cursor(image, k.valuePos);
        var good, a := tmp.Number(4);
        if good && a != 0 {
          alignment := a;
        }
      }
    }

    /** One turn of the metadata loop: key, type and value. */
    method ReadKv(c: Cursor) returns (ok: bool, k: Kv)
      requires c.base == image && |image| < U64
      modifies c
      ensures KvAt(image, old(c.pos)) == if ok then Some((k, c.pos)) else None
      ensures ok && old(c.pos) <= |image| ==> c.pos <= |image|
    {
      hide SkipEnd, TextAt, ReadNumber;
      k := Kv(0, 0, 0, 0);
      var s, e, kind;
      ok, s, e := c.String();
      if !ok {
        return;
      }
      ok, kind := c.Number(4);
      if !ok {
        return;
      }
      k := Kv(s, e, kind, c.pos);
      NumberInside(image, c.pos - 4, 4);
      ok := c.SkipValue(kind, 0);
    }

    /** parse_tensors: the directory, then the check of every tensor against the file. */
    method ParseTensors(c: Cursor, n: nat) returns (ok: bool)
      requires c.base == image && c.pos <= |image| < U64 - U32 && 0 < alignment < U32
      modifies this`tensors, this`dataPos, this`maxTensorBytes, c
      ensures ok <==> n <= |image| - old(c.pos) && TensorsAt(image, old(c.pos), n).Some?
                      && var ts := TensorsAt(image, old(c.pos), n).value;
                         forall i :: 0 <= i < |ts.0| ==> Inside(|image|, AlignUp(ts.1, alignment), ts.0[i])
      ensures ok ==> var ts := TensorsAt(image, old(c.pos), n).value;
                     tensors == ts.0 && dataPos == AlignUp(ts.1, alignment) && maxTensorBytes == MaxBytes(ts.0)
    {
      hide TensorAt, Inside;
      ghost var start := c.pos;
      if n > |c.base| - c.pos {
        return false;
      }
      tensors := [];
      var i := 0;
      while i < n
        invariant 0 <= i <= n && TensorsAt(image, start, i) == Some((tensors, c.pos)) && c.pos <= |image|
      {
        var t;
        ok, t := ReadTensor(c);
        if !ok {
          TensorsFail(image, start, i + 1, n);
          return;
        }
        tensors := tensors + [t];
        i := i + 1;
      }
      dataPos := AlignUp(c.pos, alignment);
      maxTensorBytes := 0;
      ghost var k := AlignedUp(c.pos, alignment);
      i := 0;
      while i < n
        invariant 0 <= i <= n && maxTensorBytes == MaxBytes(tensors[..i])
        invariant forall k :: 0 <= k < i ==> Inside(|image|, dataPos, tensors[k])
        modifies this`maxTensorBytes
      {
        var inside := CheckInside(tensors[i]);
        if !inside {
          return false;
        }
        assert tensors[..i + 1][..i] == tensors[..i];
        if tensors[i].bytes > maxTensorBytes {
          maxTensorBytes := tensors[i].bytes;
        }
        i := i + 1;
      }
      assert tensors[..n] == tensors;
      return true;
    }

    /** The bounds check of one tensor. */
    method CheckInside(t: Tensor) returns (ok: bool)
      requires dataPos < U64
      ensures ok == Inside(|image|, dataPos, t)
    {
      if t.relOffset > U64 - 1 - dataPos {
        return false;
      }
      var absOffset := dataPos + t.relOffset;
      if t.bytes != 0 && (absOffset > |image| || t.bytes > |image| - absOffset) {
        return false;
      }
      return true;
    }

    /** One turn of the directory loop. */
    method ReadTensor(c: Cursor) returns (ok: bool, t: Tensor)
      requires c.base == image
      modifies c
      ensures TensorAt(image, old(c.pos)) == if ok then Some((t, c.pos)) else None
      ensures ok ==> c.pos <= |image|
    {
      hide TextAt, ReadNumber, DimsAt, TensorBytes;
      t := Tensor(0, 0, [], 0, 0, 0, 0);
      var s, e, ndim, dims, elements, kind, off;
      ok, s, e := c.String();
      if !ok {
        return;
      }
      ok, ndim := c.Number(4);
      if !ok || ndim == 0 || ndim > MAX_DIMS {
        return false, t;
      }
      ok, dims, elements := ReadDims(c, ndim);
      if !ok {
        return;
      }
      ok, kind := c.Number(4);
      if !ok {
        return;
      }
      ok, off := c.Number(8);
      if !ok {
        return;
      }
      NumberInside(image, c.pos - 8, 8);
      var bytes := TensorBytes(kind, elements);
      t := Tensor(s, e, dims, elements, kind, off, if bytes.Some? then bytes.value else 0);
    }

    method ReadDims(c: Cursor, n: nat) returns (ok: bool, dims: seq<nat>, elements: nat)
      requires c.base == image
      modifies c
      ensures DimsAt(image, old(c.pos), n) == if ok then Some((dims, elements)) else None
      ensures ok ==> c.pos == old(c.pos) + 8 * n
    {
      hide ReadNumber, TimesDim;
      ghost var start := c.pos;
      dims, elements := [], 1;
      var d := 0;
      while d < n
        invariant 0 <= d <= n && c.pos == start + 8 * d
        invariant DimsAt(image, start, d) == Some((dims, elements))
      {
        var x;
        ok, x := c.Number(8);
        if !ok || TimesDim(elements, x).None? {
          DimsFail(image, start, d + 1, n);
          return false, dims, elements;
        }
        dims, elements := dims + [x], TimesDim(elements, x).value;
        d := d + 1;
      }
      return true, dims, elements;
    }
  }

  lemma NumberInside(b: Bytes, pos: nat, n: nat)
    requires ReadNumber(b, pos, n).Some?
    ensures pos + n <= |b|
  {
  }

  lemma NoMore(b: Bytes, pos: nat, i: nat, end: nat)
    requires KvsAt(b, pos, i).Some? && KvsAt(b, pos, i).value.1 == end && KvAt(b, end).None?
    ensures KvsAt(b, pos, i + 1).None?
  {
    hide KvAt;
  }

  lemma {:induction false} KvsFail(b: Bytes, pos: nat, i: nat, n: nat)
    requires i <= n && KvsAt(b, pos, i).None?
    ensures KvsAt(b, pos, n).None?
  {
    if i < n {
      KvsFail(b, pos, i, n - 1);
    }
  }

  lemma {:induction false} TensorsFail(b: Bytes, pos: nat, i: nat, n: nat)
    requires i <= n && TensorsAt(b, pos, i).None?
    ensures TensorsAt(b, pos, n).None?
  {
    if i < n {
      TensorsFail(b, pos, i, n - 1);
    }
  }

  lemma {:induction false} DimsFail(b: Bytes, pos: nat, i: nat, n: nat)
    requires i <= n && DimsAt(b, pos, i).None?
    ensures DimsAt(b, pos, n).None?
  {
    if i < n {
      DimsFail(b, pos, i, n - 1);
    }
  }
}
