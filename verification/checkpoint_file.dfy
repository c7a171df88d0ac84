/** The bytes of a checkpoint file: a 48-byte header, the text with its length, and the payload. */
module CheckpointFile {
  import opened Common
  import opened LittleEndian

  const FIXED_HEADER := 48
  const VERSION: byte := 1
  const PAYLOAD_ABI: byte := 2
  const LAST_REASON: byte := 6
  const UNKNOWN_REASON: byte := 0

  datatype Header = Header(quantBits: byte, reason: byte, extFlags: byte, modelId: byte,
                           tokens: nat, hits: nat, ctxSize: nat,
                           createdAt: nat, lastUsed: nat, payloadBytes: nat)

  ghost predicate InRange(h: Header) {
    h.tokens < U32 && h.hits < U32 && h.ctxSize < U32 && h.createdAt < U64 && h.lastUsed < U64 && h.payloadBytes < U64
  }

  /** ds4_kvstore_fill_header: the bytes between the fields stay zero. */
  function FillHeader(h: Header): (r: Bytes)
    ensures |r| == FIXED_HEADER
  {
    ['K' as int, 'V' as int, 'C' as int, VERSION, h.quantBits, h.reason, h.extFlags, h.modelId]
    + Put(h.tokens, 4) + Put(h.hits, 4) + Put(h.ctxSize, 4) + [PAYLOAD_ABI, 0, 0, 0]
    + Put(h.createdAt, 8) + Put(h.lastUsed, 8) + Put(h.payloadBytes, 8)
  }

  /** ds4_kvstore_read_header: the header and the text length, if the file starts with a valid header. */
  function ReadHeader(f: Bytes): Option<(Header, nat)> {
    if |f| < FIXED_HEADER then None
    else if f[0] != 'K' as int || f[1] != 'V' as int || f[2] != 'C' as int || f[3] != VERSION then None
    else if f[20] != PAYLOAD_ABI then None
    else if |f| < FIXED_HEADER + 4 then None
    else
      var h := Header(f[4], if f[5] <= LAST_REASON then f[5] else UNKNOWN_REASON, f[6], f[7],
                      Get(f[8..12]), Get(f[12..16]), Get(f[16..20]), Get(f[24..32]), Get(f[32..40]), Get(f[40..48]));
      if h.tokens != 0 && (h.quantBits == 2 || h.quantBits == 4) then Some((h, Get(f[48..52]))) else None
  }

  function FileBytes(h: Header, text: Bytes, payload: Bytes): (f: Bytes)
    ensures |f| == FIXED_HEADER + 4 + |text| + |payload|
  {
    FillHeader(h) + Put(|text|, 4) + text + payload
  }

  /** The bytes of a header, field by field. */
  lemma HeaderFields(h: Header)
    ensures var f := FillHeader(h);
      && f[..8] == ['K' as int, 'V' as int, 'C' as int, VERSION, h.quantBits, h.reason, h.extFlags, h.modelId]
      && f[8..12] == Put(h.tokens, 4) && f[12..16] == Put(h.hits, 4) && f[16..20] == Put(h.ctxSize, 4)
      && f[20] == PAYLOAD_ABI
      && f[24..32] == Put(h.createdAt, 8) && f[32..40] == Put(h.lastUsed, 8) && f[40..48] == Put(h.payloadBytes, 8)
  {
    hide Put;
  }

  /** Reading undoes writing, for any header the program can store. */
  lemma HeaderReads(h: Header, textBytes: nat, rest: Bytes)
    requires InRange(h) && textBytes < U32 && h.tokens != 0 && (h.quantBits == 2 || h.quantBits == 4) && h.reason <= LAST_REASON
    ensures ReadHeader(FillHeader(h) + Put(textBytes, 4) + rest) == Some((h, textBytes))
  {
    hide Put, Get, FillHeader;
    var r := FillHeader(h);
    var f := r + Put(textBytes, 4) + rest;
    HeaderFields(h);
    assert f[..8] == r[..8] && f[8..12] == r[8..12] && f[12..16] == r[12..16] && f[16..20] == r[16..20] && f[20] == r[20];
    assert f[24..32] == r[24..32] && f[32..40] == r[32..40] && f[40..48] == r[40..48] && f[48..52] == Put(textBytes, 4);
    assert f[0] == f[..8][0] && f[1] == f[..8][1] && f[2] == f[..8][2] && f[3] == f[..8][3];
    assert f[4] == f[..8][4] && f[5] == f[..8][5] && f[6] == f[..8][6] && f[7] == f[..8][7];
    Ranges();
    GetPut(h.tokens, 4);
    GetPut(h.hits, 4);
    GetPut(h.ctxSize, 4);
    GetPut(h.createdAt, 8);
    GetPut(h.lastUsed, 8);
    GetPut(h.payloadBytes, 8);
    GetPut(textBytes, 4);
  }

  lemma ReadInRange(f: Bytes)
    ensures var r := ReadHeader(f);
      r.Some? ==> InRange(r.value.0) && r.value.1 < U32 && r.value.0.reason <= LAST_REASON
  {
    Ranges();
    if |f| >= 52 {
      GetBound(f[8..12]);
      GetBound(f[12..16]);
      GetBound(f[16..20]);
      GetBound(f[24..32]);
      GetBound(f[32..40]);
      GetBound(f[40..48]);
      GetBound(f[48..52]);
    }
  }

  /** The text of a file with a valid header, and what follows it. */
  function TextOf(f: Bytes, textBytes: nat): Bytes
    requires FIXED_HEADER + 4 + textBytes <= |f|
  {
    f[52..52 + textBytes]
  }

  lemma FileParts(h: Header, text: Bytes, payload: Bytes)
    ensures var f := FileBytes(h, text, payload);
      TextOf(f, |text|) == text && f[52 + |text|..] == payload
  {
    hide FillHeader, Put;
  }

  /** A file with a rewritten header keeps its text and payload. */
  lemma HeaderReplaced(f: Bytes, h: Header)
    requires ReadHeader(f).Some? && InRange(h) && h.reason <= LAST_REASON
    requires h.tokens != 0 && (h.quantBits == 2 || h.quantBits == 4)
    ensures var f2 := FillHeader(h) + f[48..];
      |f2| == |f| && f2[48..] == f[48..] && ReadHeader(f2) == Some((h, ReadHeader(f).value.1))
  {
    hide Put, FillHeader, Get;
    var tb := Get(f[48..52]);
    PutGet(f[48..52]);
    assert f[48..] == Put(tb, 4) + f[52..];
    assert FillHeader(h) + f[48..] == FillHeader(h) + Put(tb, 4) + f[52..];
    ReadInRange(f);
    HeaderReads(h, tb, f[52..]);
  }
}
