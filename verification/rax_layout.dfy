/**
  The packed bytes of a radix tree node: after a four byte header come the
  characters, padding up to a word boundary, the child words, and the value word
  if the node has one. Adding and removing a child moves these bytes in place.
 */
module RaxLayout {
  import opened Common
  import opened RaxTree
  import opened RaxEdits
  import opened RaxRemoval
  import LittleEndian

  /** The padding after n characters; a remainder stands for the mask with 7. */
  function Padding(n: nat): nat {
    (8 - (n + 4) % 8) % 8
  }

  /** Where the child words start, counted from the first character. */
  function FirstChild(n: nat): nat {
    n + Padding(n)
  }

  function Children(iscompr: bool, n: nat): nat {
    if iscompr then 1 else n
  }

  /** Length of a node behind its header. */
  function CurrentLength(iscompr: bool, n: nat, hasValue: bool): nat {
    FirstChild(n) + 8 * Children(iscompr, n) + if hasValue then 8 else 0
  }

  /** Adding a character moves the child words by a whole word or not at all. */
  lemma Shift(n: nat)
    ensures n <= FirstChild(n) && n + 1 <= FirstChild(n + 1)
    ensures FirstChild(n + 1) - FirstChild(n) == if (n + 1 + 4) % 8 == 1 then 8 else 0
  {
    var r := (n + 4) % 8;
    assert (n + 1 + 4) % 8 == if r == 7 then 0 else r + 1;
  }

  // ------------------------------------------------------------ the bitmap

  function Bit(bm: bv16, i: bv4): bool {
    (bm >> i) & 1 == 1
  }

  /** Slot i holds an inline value. */
  predicate IsInline(bm: bv16, i: nat) {
    i < MAX_INLINE && Bit(bm, i as bv4)
  }

  /** The bitmap after a child was inserted at pos. */
  function BitsUp(bm: bv16, pos: bv4): bv16 {
    var below := bm & ((1 << pos) - 1);
    var above := bm & !below;
    below | ((above << 1) & ((1 << 13) - 1))
  }

  /** The bitmap after the child at pos was removed. */
  function BitsDown(bm: bv16, pos: bv4): bv16 {
    var above := bm & !((1 << (pos as bv5 + 1)) - 1);
    var below := bm & ((1 << pos) - 1);
    below | (above >> 1)
  }

  lemma BitsUpAt(bm: bv16, pos: bv4, i: bv4)
    requires pos < 13 && i < 13
    ensures Bit(BitsUp(bm, pos), i) <==> if i < pos then Bit(bm, i) else i > pos && Bit(bm, i - 1)
  {
    if i < pos {
    } else if i == pos {
    } else {
    }
  }

  lemma BitsDownAt(bm: bv16, pos: bv4, i: bv4)
    requires pos < 13 && i < 13 && bm < 0x2000
    ensures Bit(BitsDown(bm, pos), i) <==> if i < pos then Bit(bm, i) else i < 12 && Bit(bm, i + 1)
  {
  }

  lemma Index(i: nat, j: nat)
    requires i < MAX_INLINE && j < MAX_INLINE
    ensures i as bv4 < 13 && ((i as bv4) < j as bv4 <==> i < j)
  {
  }

  lemma NextSlot(i: nat)
    requires i < 12
    ensures (i + 1) as bv4 == i as bv4 + 1 && i as bv4 < 12
  {
  }

  function ShiftUp(bm: bv16, pos: nat): bv16 {
    if bm != 0 && pos < MAX_INLINE then BitsUp(bm, pos as bv4) else bm
  }

  function ShiftDown(bm: bv16, pos: nat): bv16 {
    if bm != 0 && pos < MAX_INLINE then BitsDown(bm, pos as bv4) else bm
  }

  lemma NoBits(i: bv4)
    ensures !Bit(0, i)
  {
  }

  /** The tags move up with their slots; the new slot is a pointer, and a tag that leaves the bitmap is lost. */
  lemma TagsUp(bm: bv16, pos: nat, i: nat)
    ensures IsInline(ShiftUp(bm, pos), i) <==>
            i < MAX_INLINE && if i < pos then IsInline(bm, i) else i > pos && IsInline(bm, i - 1)
  {
    hide Bit, BitsUp;
    if i < MAX_INLINE {
      NoBits(i as bv4);
      if i > 0 {
        NoBits((i - 1) as bv4);
        NextSlot(i - 1);
      }
      if pos < MAX_INLINE {
        Index(i, pos);
        Index(pos, i);
        BitsUpAt(bm, pos as bv4, i as bv4);
      }
    }
  }

  /** The tags move down with their slots. */
  lemma TagsDown(bm: bv16, pos: nat, i: nat)
    requires bm < 0x2000
    ensures IsInline(ShiftDown(bm, pos), i) <==> if i < pos then IsInline(bm, i) else IsInline(bm, i + 1)
  {
    hide Bit, BitsDown;
    if i < MAX_INLINE {
      NoBits(i as bv4);
      if i < 12 {
        NoBits((i + 1) as bv4);
        NextSlot(i);
      }
      if pos < MAX_INLINE {
        Index(i, pos);
        Index(pos, i);
        BitsDownAt(bm, pos as bv4, i as bv4);
      }
    }
  }

  lemma NoTag(bm: bv16, i: nat)
    requires i >= MAX_INLINE
    ensures !IsInline(bm, i)
  {
  }

  function SetBit(bm: bv16, j: bv4): bv16 {
    bm | (1 << j)
  }

  function ClearBit(bm: bv16, j: bv4): bv16 {
    bm & !(1 << j)
  }

  lemma BitSet(bm: bv16, j: bv4, i: bv4)
    requires j < 13 && i < 13 && bm < 0x2000
    ensures Bit(SetBit(bm, j), i) <==> i == j || Bit(bm, i)
    ensures SetBit(bm, j) < 0x2000
  {
  }

  lemma BitCleared(bm: bv16, j: bv4, i: bv4)
    requires j < 13 && i < 13 && bm < 0x2000
    ensures Bit(ClearBit(bm, j), i) <==> i != j && Bit(bm, i)
    ensures ClearBit(bm, j) < 0x2000
  {
  }

  lemma SameIndex(i: nat, j: nat)
    requires i < MAX_INLINE && j < MAX_INLINE
    ensures i as bv4 == j as bv4 <==> i == j
  {
  }

  ghost predicate TagsBelow(bm: bv16, count: nat) {
    bm < 0x2000 && forall i: nat :: IsInline(bm, i) ==> i < count
  }

  /** leafbitmap |= 1 << j */
  function WithTag(bm: bv16, j: nat): bv16
    requires j < MAX_INLINE
  {
    SetBit(bm, j as bv4)
  }

  /** leafbitmap &= ~(1 << j) */
  function WithoutTag(bm: bv16, j: nat): bv16
    requires j < MAX_INLINE
  {
    ClearBit(bm, j as bv4)
  }

  lemma TagSetAt(bm: bv16, j: nat, i: nat)
    requires j < MAX_INLINE && bm < 0x2000
    ensures IsInline(WithTag(bm, j), i) <==> i == j || IsInline(bm, i)
    ensures WithTag(bm, j) < 0x2000
  {
    hide Bit, SetBit;
    Index(j, j);
    BitSet(bm, j as bv4, j as bv4);
    if i < MAX_INLINE {
      Index(i, j);
      SameIndex(i, j);
      BitSet(bm, j as bv4, i as bv4);
    }
  }

  lemma TagSet(bm: bv16, j: nat, count: nat)
    requires j < MAX_INLINE && TagsBelow(bm, count) && j < count
    ensures TagsBelow(WithTag(bm, j), count)
    ensures forall i: nat :: IsInline(WithTag(bm, j), i) <==> i == j || IsInline(bm, i)
  {
    hide IsInline, WithTag;
    TagSetAt(bm, j, j);
    forall i: nat
      ensures IsInline(WithTag(bm, j), i) <==> i == j || IsInline(bm, i)
    {
      TagSetAt(bm, j, i);
    }
  }

  lemma TagClearedAt(bm: bv16, j: nat, i: nat)
    requires j < MAX_INLINE && bm < 0x2000
    ensures IsInline(WithoutTag(bm, j), i) <==> i != j && IsInline(bm, i)
    ensures WithoutTag(bm, j) < 0x2000
  {
    hide Bit, ClearBit;
    Index(j, j);
    BitCleared(bm, j as bv4, j as bv4);
    if i < MAX_INLINE {
      Index(i, j);
      SameIndex(i, j);
      BitCleared(bm, j as bv4, i as bv4);
    }
  }

  lemma TagCleared(bm: bv16, j: nat, count: nat)
    requires j < MAX_INLINE && TagsBelow(bm, count) && j < count
    ensures TagsBelow(WithoutTag(bm, j), count)
    ensures forall i: nat :: IsInline(WithoutTag(bm, j), i) <==> i != j && IsInline(bm, i)
  {
    hide IsInline, WithoutTag;
    TagClearedAt(bm, j, j);
    forall i: nat
      ensures IsInline(WithoutTag(bm, j), i) <==> i != j && IsInline(bm, i)
    {
      TagClearedAt(bm, j, i);
    }
  }

  lemma TagsStayUp(bm: bv16, n: nat, pos: nat)
    requires TagsBelow(bm, n) && pos <= n
    ensures TagsBelow(ShiftUp(bm, pos), n + 1)
  {
    hide IsInline, ShiftUp;
    forall i: nat | IsInline(ShiftUp(bm, pos), i)
      ensures i < n + 1
    {
      TagsUp(bm, pos, i);
    }
    StayThirteen(bm, pos);
  }

  lemma StayThirteen(bm: bv16, pos: nat)
    requires bm < 0x2000
    ensures ShiftUp(bm, pos) < 0x2000 && ShiftDown(bm, pos) < 0x2000
  {
    if pos < MAX_INLINE {
      ThirteenBits(bm, pos as bv4);
    }
  }

  lemma ThirteenBits(bm: bv16, pos: bv4)
    requires bm < 0x2000
    ensures BitsUp(bm, pos) < 0x2000 && BitsDown(bm, pos) < 0x2000
  {
  }

  lemma TagsStayDown(bm: bv16, n: nat, pos: nat)
    requires TagsBelow(bm, n) && pos < n
    ensures TagsBelow(ShiftDown(bm, pos), n - 1)
  {
    hide IsInline, ShiftDown;
    forall i: nat | IsInline(ShiftDown(bm, pos), i)
      ensures i < n - 1
    {
      TagsDown(bm, pos, i);
      if i < pos {
        assert IsInline(bm, i);
      }
    }
    StayThirteen(bm, pos);
  }

  // ------------------------------------------------------------- the bytes

  /** Word number i of the words that start at offset off. */
  function Word(d: seq<byte>, off: nat, i: nat): (w: seq<byte>)
    requires off + 8 * i + 8 <= |d|
    ensures |w| == 8
  {
    d[off + 8 * i..off + 8 * i + 8]
  }

  function Tagged(bm: bv16, i: nat, w: seq<byte>): Slot {
    if IsInline(bm, i) then Inline(LittleEndian.Get(w)) else Child(LittleEndian.Get(w))
  }

  /** Slot i of a node with n characters: the tag in the bitmap says how to read the word. */
  function SlotAt(d: seq<byte>, bm: bv16, n: nat, i: nat): Slot
    requires FirstChild(n) + 8 * i + 8 <= |d|
  {
    Tagged(bm, i, Word(d, FirstChild(n), i))
  }

  function Slots(d: seq<byte>, bm: bv16, n: nat, count: nat): (s: seq<Slot>)
    requires FirstChild(n) + 8 * count <= |d|
    ensures |s| == count
  {
    seq(count, i requires 0 <= i < count => SlotAt(d, bm, n, i))
  }

  /** What memmove does to the bytes. */
  ghost predicate Moved(d: seq<byte>, d2: seq<byte>, dst: nat, src: nat, n: nat)
    requires dst + n <= |d| && src + n <= |d|
  {
    && |d2| == |d|
    && (forall k :: dst <= k < dst + n ==> d2[k] == d[k - dst + src])
    && (forall k :: 0 <= k < |d| && !(dst <= k < dst + n) ==> d2[k] == d[k])
  }

  method Memmove(a: array<byte>, dst: nat, src: nat, n: nat)
    requires dst + n <= a.Length && src + n <= a.Length
    modifies a
    ensures Moved(old(a[..]), a[..], dst, src, n)
  {
    forall k | 0 <= k < n {
      a[dst + k] := a[src + k];
    }
  }

  /** A move that is made only under a condition. */
  method MemmoveIf(cond: bool, a: array<byte>, dst: nat, src: nat, n: nat)
    requires cond ==> dst + n <= a.Length && src + n <= a.Length
    modifies a
    ensures if cond then Moved(old(a[..]), a[..], dst, src, n) else a[..] == old(a[..])
  {
    if cond {
      Memmove(a, dst, src, n);
    }
  }

  lemma MovedWord(d: seq<byte>, d2: seq<byte>, off: nat, i: nat, off2: nat, j: nat)
    requires off + 8 * i + 8 <= |d| && off2 + 8 * j + 8 <= |d2|
    requires var p, p2 := off + 8 * i, off2 + 8 * j;
      forall k :: p2 <= k < p2 + 8 ==> d2[k] == d[k - p2 + p]
    ensures Word(d2, off2, j) == Word(d, off, i)
  {
  }

  /** The bytes of a plain node with n children, before and after room was made for edge c at pos. */
  ghost predicate Opened(d: seq<byte>, d2: seq<byte>, n: nat, pos: nat, c: byte, hasValue: bool)
    requires CurrentLength(false, n, hasValue) <= |d| && CurrentLength(false, n + 1, hasValue) <= |d2| && pos <= n
  {
    && d2[..n + 1] == Insert(d[..n], pos, c)
    && (forall i :: 0 <= i < n ==> Word(d2, FirstChild(n + 1), if i < pos then i else i + 1) == Word(d, FirstChild(n), i))
    && (hasValue ==> Word(d2, FirstChild(n + 1), n + 1) == Word(d, FirstChild(n), n))
  }

  /** The bytes of a plain node with n children, before and after the child at pos was cut out. */
  ghost predicate Closed(d: seq<byte>, d2: seq<byte>, n: nat, pos: nat, hasValue: bool)
    requires CurrentLength(false, n, hasValue) <= |d| == |d2| && pos < n
  {
    && d2[..n - 1] == Delete(d[..n], pos)
    && (forall i :: 0 <= i < n && i != pos ==> Word(d2, FirstChild(n - 1), if i < pos then i else i - 1) == Word(d, FirstChild(n), i))
    && (hasValue ==> Word(d2, FirstChild(n - 1), n - 1) == Word(d, FirstChild(n), n))
  }

  /** The four moves of raxAddChildNoAlloc, in its order: value, tail words, head words, characters. */
  ghost predicate OpenMoves(d0: seq<byte>, d1: seq<byte>, d2: seq<byte>, d3: seq<byte>, d4: seq<byte>,
                            n: nat, pos: nat, off: nat, shift: nat, hasValue: bool)
  {
    && pos <= n <= off && n + 1 <= off + shift && (shift == 0 || shift == 8)
    && WordMoves(d0, d1, d2, d3, n, pos, off, shift, hasValue)
    && Moved(d3, d4, pos + 1, pos, n - pos)
  }

  ghost predicate WordMoves(d0: seq<byte>, d1: seq<byte>, d2: seq<byte>, d3: seq<byte>,
                            n: nat, pos: nat, off: nat, shift: nat, hasValue: bool)
  {
    && pos <= n && off + shift + 8 * (n + 1) + (if hasValue then 8 else 0) <= |d0| == |d1| == |d2| == |d3|
    && (if hasValue then Moved(d0, d1, off + shift + 8 * (n + 1), off + 8 * n, 8) else d1 == d0)
    && Moved(d1, d2, off + 8 * pos + shift + 8, off + 8 * pos, 8 * (n - pos))
    && (if shift != 0 then Moved(d2, d3, off + shift, off, 8 * pos) else d3 == d2)
  }

  lemma MovesOpenChars(d0: seq<byte>, d1: seq<byte>, d2: seq<byte>, d3: seq<byte>, d4: seq<byte>,
                       n: nat, pos: nat, off: nat, shift: nat, c: byte, hasValue: bool)
    requires OpenMoves(d0, d1, d2, d3, d4, n, pos, off, shift, hasValue)
    ensures d4[pos := c][..n + 1] == Insert(d0[..n], pos, c)
  {
    forall k | 0 <= k < n
      ensures d3[k] == d0[k]
    {
      assert d1[k] == d0[k] && d2[k] == d1[k];
    }
    var e := Insert(d0[..n], pos, c);
    forall k | 0 <= k <= n
      ensures d4[pos := c][k] == e[k]
    {
    }
  }

  lemma HeadWord(d0: seq<byte>, d1: seq<byte>, d2: seq<byte>, d3: seq<byte>,
                 n: nat, pos: nat, off: nat, shift: nat, hasValue: bool, i: nat)
    requires WordMoves(d0, d1, d2, d3, n, pos, off, shift, hasValue) && i < pos
    ensures Word(d3, off + shift, i) == Word(d0, off, i)
  {
    var p, p2 := off + 8 * i, off + shift + 8 * i;
    forall k | p2 <= k < p2 + 8
      ensures d3[k] == d0[k - p2 + p]
    {
      assert shift != 0 ==> d3[k] == d2[k - p2 + p];
      assert d2[k - p2 + p] == d1[k - p2 + p];
    }
    MovedWord(d0, d3, off, i, off + shift, i);
  }

  lemma TailWord(d0: seq<byte>, d1: seq<byte>, d2: seq<byte>, d3: seq<byte>,
                 n: nat, pos: nat, off: nat, shift: nat, hasValue: bool, i: nat)
    requires WordMoves(d0, d1, d2, d3, n, pos, off, shift, hasValue) && pos <= i < n
    ensures Word(d3, off + shift, i + 1) == Word(d0, off, i)
  {
    var p, p2 := off + 8 * i, off + shift + 8 * (i + 1);
    forall k | p2 <= k < p2 + 8
      ensures d3[k] == d0[k - p2 + p]
    {
      assert d3[k] == d2[k];
      assert d2[k] == d1[k - p2 + p];
    }
    MovedWord(d0, d3, off, i, off + shift, i + 1);
  }

  lemma ValueWord(d0: seq<byte>, d1: seq<byte>, d2: seq<byte>, d3: seq<byte>,
                 n: nat, pos: nat, off: nat, shift: nat, hasValue: bool, i: nat)
    requires WordMoves(d0, d1, d2, d3, n, pos, off, shift, hasValue) && i == n && hasValue
    ensures Word(d3, off + shift, i + 1) == Word(d0, off, i)
  {
    var p, p2 := off + 8 * i, off + shift + 8 * (i + 1);
    forall k | p2 <= k < p2 + 8
      ensures d3[k] == d0[k - p2 + p]
    {
      assert d3[k] == d2[k];
      assert d2[k] == d1[k];
    }
    MovedWord(d0, d3, off, i, off + shift, i + 1);
  }

  lemma MovesOpenWord(d0: seq<byte>, d1: seq<byte>, d2: seq<byte>, d3: seq<byte>, d4: seq<byte>,
                      n: nat, pos: nat, off: nat, shift: nat, c: byte, hasValue: bool, i: nat)
    requires OpenMoves(d0, d1, d2, d3, d4, n, pos, off, shift, hasValue) && (i < n || (i == n && hasValue))
    ensures Word(d4[pos := c], off + shift, if i < pos then i else i + 1) == Word(d0, off, i)
  {
    hide WordMoves, Word;
    MoveSizes(d0, d1, d2, d3, n, pos, off, shift, hasValue);
    var j := if i < pos then i else i + 1;
    if i < pos {
      HeadWord(d0, d1, d2, d3, n, pos, off, shift, hasValue, i);
    } else if i < n {
      TailWord(d0, d1, d2, d3, n, pos, off, shift, hasValue, i);
    } else {
      ValueWord(d0, d1, d2, d3, n, pos, off, shift, hasValue, i);
    }
    MovedWord(d3, d4[pos := c], off + shift, j, off + shift, j);
  }

  lemma MoveSizes(d0: seq<byte>, d1: seq<byte>, d2: seq<byte>, d3: seq<byte>,
                  n: nat, pos: nat, off: nat, shift: nat, hasValue: bool)
    requires WordMoves(d0, d1, d2, d3, n, pos, off, shift, hasValue)
    ensures pos <= n && off + shift + 8 * (n + 1) + (if hasValue then 8 else 0) <= |d0| == |d3|
  {
  }

  lemma MovesOpen(d0: seq<byte>, d1: seq<byte>, d2: seq<byte>, d3: seq<byte>, d4: seq<byte>,
                  n: nat, pos: nat, c: byte, hasValue: bool)
    requires FirstChild(n) <= FirstChild(n + 1) && OpenMoves(d0, d1, d2, d3, d4, n, pos, FirstChild(n), FirstChild(n + 1) - FirstChild(n), hasValue)
    ensures CurrentLength(false, n, hasValue) <= |d0| && CurrentLength(false, n + 1, hasValue) <= |d4| == |d0|
    ensures Opened(d0, d4[pos := c], n, pos, c, hasValue)
  {
    hide WordMoves, Word;
    var off, off2 := FirstChild(n), FirstChild(n + 1);
    MoveSizes(d0, d1, d2, d3, n, pos, off, off2 - off, hasValue);
    var d := d4[pos := c];
    MovesOpenChars(d0, d1, d2, d3, d4, n, pos, off, off2 - off, c, hasValue);
    forall i | 0 <= i < n || (i == n && hasValue)
      ensures Word(d, off2, if i < pos then i else i + 1) == Word(d0, off, i)
    {
      MovesOpenWord(d0, d1, d2, d3, d4, n, pos, off, off2 - off, c, hasValue, i);
    }
  }

  /** The moves of raxRemoveChildAtPtr, in its order: characters, head words, tail words with the value. */
  ghost predicate CloseMoves(d0: seq<byte>, d1: seq<byte>, d2: seq<byte>, d3: seq<byte>,
                             n: nat, pos: nat, off: nat, shift: nat, hasValue: bool)
  {
    && pos < n && n - 1 + shift <= off && n <= off
    && off + 8 * n + (if hasValue then 8 else 0) <= |d0| == |d1| == |d2| == |d3|
    && Moved(d0, d1, pos, pos + 1, n - pos - 1)
    && (if shift != 0 then Moved(d1, d2, off - shift, off, 8 * pos) else d2 == d1)
    && Moved(d2, d3, off + 8 * pos - shift, off + 8 * pos + 8, 8 * (n - pos - 1) + if hasValue then 8 else 0)
  }

  lemma MovesCloseChars(d0: seq<byte>, d1: seq<byte>, d2: seq<byte>, d3: seq<byte>,
                        n: nat, pos: nat, off: nat, shift: nat, hasValue: bool)
    requires CloseMoves(d0, d1, d2, d3, n, pos, off, shift, hasValue)
    ensures d3[..n - 1] == Delete(d0[..n], pos)
  {
    forall k | 0 <= k < n - 1
      ensures d3[k] == d1[k]
    {
      assert d2[k] == d1[k];
    }
    var e := Delete(d0[..n], pos);
    forall k | 0 <= k < n - 1
      ensures d3[k] == e[k]
    {
    }
  }

  lemma CloseHeadWord(d0: seq<byte>, d1: seq<byte>, d2: seq<byte>, d3: seq<byte>,
                      n: nat, pos: nat, off: nat, shift: nat, hasValue: bool, i: nat)
    requires CloseMoves(d0, d1, d2, d3, n, pos, off, shift, hasValue) && i < pos
    ensures Word(d3, off - shift, i) == Word(d0, off, i)
  {
    hide Word;
    MovedWord(d0, d1, off, i, off, i);
    MovedWord(d1, d2, off, i, off - shift, i);
    MovedWord(d2, d3, off - shift, i, off - shift, i);
  }

  lemma CloseTailWord(d0: seq<byte>, d1: seq<byte>, d2: seq<byte>, d3: seq<byte>,
                      n: nat, pos: nat, off: nat, shift: nat, hasValue: bool, i: nat)
    requires CloseMoves(d0, d1, d2, d3, n, pos, off, shift, hasValue) && pos < i && (i < n || (i == n && hasValue))
    ensures Word(d3, off - shift, i - 1) == Word(d0, off, i)
  {
    var p, p2 := off + 8 * i, off - shift + 8 * (i - 1);
    forall k | p2 <= k < p2 + 8
      ensures d3[k] == d0[k - p2 + p]
    {
      assert d3[k] == d2[k - p2 + p];
      assert d2[k - p2 + p] == d1[k - p2 + p];
    }
    MovedWord(d0, d3, off, i, off - shift, i - 1);
  }

  lemma MovesClose(d0: seq<byte>, d1: seq<byte>, d2: seq<byte>, d3: seq<byte>, n: nat, pos: nat, shift: nat, hasValue: bool)
    requires n > 0 && FirstChild(n - 1) + shift == FirstChild(n)
    requires CloseMoves(d0, d1, d2, d3, n, pos, FirstChild(n), shift, hasValue)
    ensures CurrentLength(false, n, hasValue) <= |d0| == |d3|
    ensures Closed(d0, d3, n, pos, hasValue)
  {
    hide Moved, Word;
    var off := FirstChild(n);
    MovesCloseChars(d0, d1, d2, d3, n, pos, off, shift, hasValue);
    forall i | 0 <= i <= n && i != pos && (i < n || hasValue)
      ensures Word(d3, off - shift, if i < pos then i else i - 1) == Word(d0, off, i)
    {
      if i < pos {
        CloseHeadWord(d0, d1, d2, d3, n, pos, off, shift, hasValue, i);
      } else {
        CloseTailWord(d0, d1, d2, d3, n, pos, off, shift, hasValue, i);
      }
    }
  }

  /** The record in which an inline value at slot 12 that is about to leave the bitmap is a node instead. */
  function SpillSlot(n: Node, pos: nat, leaf: seq<byte>): Node {
    if pos <= 12 < |n.slots| && n.slots[12].Inline? then SetSlot(n, 12, Child(LittleEndian.Get(leaf))) else n
  }

  /** Slots other than the new one are the old ones, moved up from pos on. */
  lemma OpenedSlot(d: seq<byte>, d2: seq<byte>, n: nat, pos: nat, c: byte, hasValue: bool, bm: bv16, i: nat)
    requires CurrentLength(false, n, hasValue) <= |d| && CurrentLength(false, n + 1, hasValue) <= |d2| && pos <= n
    requires Opened(d, d2, n, pos, c, hasValue) && i < n
    ensures var j := if i < pos then i else i + 1;
      var s := SlotAt(d, bm, n, i);
      SlotAt(d2, ShiftUp(bm, pos), n + 1, j) == if pos <= i == 12 && s.Inline? then Child(s.v) else s
  {
    hide ShiftUp, Word, LittleEndian.Get;
    var j := if i < pos then i else i + 1;
    TagsUp(bm, pos, j);
    assert Word(d2, FirstChild(n + 1), j) == Word(d, FirstChild(n), i);
  }

  function RecordOf(iskey: bool, isnull: bool, iscompr: bool, bm: bv16, n: nat, d: seq<byte>): Node
    requires CurrentLength(iscompr, n, iskey && !isnull) <= |d|
  {
    var count := Children(iscompr, n);
    Node(iskey, isnull, if iskey && !isnull then LittleEndian.Get(Word(d, FirstChild(n), count)) else NULL,
         iscompr, d[..n], Slots(d, bm, n, count))
  }

  /** The opened bytes are the record with the new edge, up to the slot that leaves the bitmap. */
  lemma OpenedRecord(iskey: bool, isnull: bool, bm: bv16, n: nat, d: seq<byte>, d2: seq<byte>, pos: nat, c: byte)
    requires var hasValue := iskey && !isnull;
      && CurrentLength(false, n, hasValue) <= |d| && CurrentLength(false, n + 1, hasValue) <= |d2| && pos <= n
      && Opened(d, d2, n, pos, c, hasValue)
    ensures var r := RecordOf(iskey, isnull, false, bm, n, d);
      var r2 := RecordOf(iskey, isnull, false, ShiftUp(bm, pos), n + 1, d2);
      && r2.slots[pos].Child?
      && r2 == InsertEdge(if pos <= 12 < n && r.slots[12].Inline? then SetSlot(r, 12, Child(r.slots[12].v)) else r,
                          pos, c, r2.slots[pos])
  {
    hide Word, FirstChild, ShiftUp, LittleEndian.Get, SlotAt;
    var r := RecordOf(iskey, isnull, false, bm, n, d);
    var r2 := RecordOf(iskey, isnull, false, ShiftUp(bm, pos), n + 1, d2);
    var r1 := if pos <= 12 < n && r.slots[12].Inline? then SetSlot(r, 12, Child(r.slots[12].v)) else r;
    NewSlot(d2, bm, n, pos);
    var e := Insert(r1.slots, pos, r2.slots[pos]);
    forall j | 0 <= j <= n && j != pos
      ensures r2.slots[j] == e[j]
    {
      OpenedSlot(d, d2, n, pos, c, iskey && !isnull, bm, if j < pos then j else j - 1);
    }
    assert r2.slots == e;
  }

  lemma NewSlot(d2: seq<byte>, bm: bv16, n: nat, pos: nat)
    requires FirstChild(n + 1) + 8 * (n + 1) <= |d2| && pos <= n
    ensures SlotAt(d2, ShiftUp(bm, pos), n + 1, pos).Child?
  {
    TagsUp(bm, pos, pos);
  }

  /** The eight bytes at `at` were replaced by w. */
  ghost predicate Stored(d: seq<byte>, d2: seq<byte>, at: nat, w: seq<byte>)
    requires |w| == 8 && at + 8 <= |d|
  {
    && |d2| == |d|
    && (forall k :: at <= k < at + 8 ==> d2[k] == w[k - at])
    && (forall k :: 0 <= k < |d| && !(at <= k < at + 8) ==> d2[k] == d[k])
  }

  /** Storing a word in slot j and setting its tag changes that slot only. */
  lemma StoredSlot(iskey: bool, isnull: bool, iscompr: bool, bm: bv16, bm2: bv16, n: nat, d: seq<byte>, d2: seq<byte>, j: nat, w: seq<byte>)
    requires CurrentLength(iscompr, n, iskey && !isnull) <= |d| && j < Children(iscompr, n) && |w| == 8
    requires Stored(d, d2, FirstChild(n) + 8 * j, w)
    requires forall i: nat :: i < Children(iscompr, n) && i != j ==> (IsInline(bm2, i) <==> IsInline(bm, i))
    ensures RecordOf(iskey, isnull, iscompr, bm2, n, d2)
         == SetSlot(RecordOf(iskey, isnull, iscompr, bm, n, d), j, Tagged(bm2, j, w))
  {
    hide IsInline, LittleEndian.Get;
    var off := FirstChild(n);
    assert Word(d2, off, j) == w;
    var r := RecordOf(iskey, isnull, iscompr, bm, n, d);
    var r2 := RecordOf(iskey, isnull, iscompr, bm2, n, d2);
    forall i: nat | i < Children(iscompr, n) && i != j
      ensures r2.slots[i] == r.slots[i]
    {
      assert Word(d2, off, i) == Word(d, off, i);
    }
    if iskey && !isnull {
      assert Word(d2, off, Children(iscompr, n)) == Word(d, off, Children(iscompr, n));
    }
    assert r2.data == r.data;
    assert r2.slots == r.slots[j := Tagged(bm2, j, w)];
  }

  /** The record is read from the node's own bytes only. */
  lemma SameBytes(iskey: bool, isnull: bool, iscompr: bool, bm: bv16, n: nat, d: seq<byte>, d2: seq<byte>)
    requires var len := CurrentLength(iscompr, n, iskey && !isnull);
      len <= |d| && len <= |d2| && forall k :: 0 <= k < len ==> d2[k] == d[k]
    ensures RecordOf(iskey, isnull, iscompr, bm, n, d2) == RecordOf(iskey, isnull, iscompr, bm, n, d)
  {
    hide LittleEndian.Get, IsInline, FirstChild;
    var r, r2 := RecordOf(iskey, isnull, iscompr, bm, n, d), RecordOf(iskey, isnull, iscompr, bm, n, d2);
    var off, count := FirstChild(n), Children(iscompr, n);
    Shift(n);
    forall i: nat | i < count || (i == count && iskey && !isnull)
      ensures Word(d2, off, i) == Word(d, off, i)
    {
    }
    assert r2.slots == r.slots && r2.data == r.data;
  }

  /** The closed bytes are the record without the edge and slot at pos. */
  lemma ClosedRecord(iskey: bool, isnull: bool, bm: bv16, n: nat, d: seq<byte>, d2: seq<byte>, pos: nat)
    requires var hasValue := iskey && !isnull;
      && pos < n && bm < 0x2000 && CurrentLength(false, n, hasValue) <= |d| == |d2| && Closed(d, d2, n, pos, hasValue)
    ensures CurrentLength(false, n - 1, iskey && !isnull) <= |d2|
    ensures RecordOf(iskey, isnull, false, ShiftDown(bm, pos), n - 1, d2)
         == DeleteEdge(RecordOf(iskey, isnull, false, bm, n, d), pos)
  {
    hide Word, FirstChild, ShiftDown, LittleEndian.Get, IsInline;
    Shift(n - 1);
    var r := RecordOf(iskey, isnull, false, bm, n, d);
    var r2 := RecordOf(iskey, isnull, false, ShiftDown(bm, pos), n - 1, d2);
    var e := Delete(r.slots, pos);
    forall j | 0 <= j < n - 1
      ensures r2.slots[j] == e[j]
    {
      var i := if j < pos then j else j + 1;
      TagsDown(bm, pos, j);
      assert Word(d2, FirstChild(n - 1), if i < pos then i else i - 1) == Word(d, FirstChild(n), i);
    }
    assert r2.slots == e;
  }

  lemma SpilledInsert(r: Node, pos: nat, c: byte, x: Slot, leaf: seq<byte>)
    requires pos <= 12 < |r.slots| == |r.data| && r.slots[12].Inline?
    ensures var s := InsertEdge(SetSlot(r, 12, Child(r.slots[12].v)), pos, c, x);
      && |s.slots| > 13 && s.slots[pos] == x
      && SetSlot(s, 13, Child(LittleEndian.Get(leaf))) == InsertEdge(SpillSlot(r, pos, leaf), pos, c, x)
      && SetSlot(s, 13, Child(LittleEndian.Get(leaf))).slots[pos] == x
  {
  }

  lemma KeptSlots(iscompr: bool, bm: bv16, n: nat, d: seq<byte>, d2: seq<byte>)
    requires var len := CurrentLength(iscompr, n, false);
      len <= |d| && len <= |d2| && forall k :: 0 <= k < len ==> d2[k] == d[k]
    ensures d2[..n] == d[..n] && Slots(d2, bm, n, Children(iscompr, n)) == Slots(d, bm, n, Children(iscompr, n))
  {
    SameBytes(false, false, iscompr, bm, n, d, d2);
    var r, r2 := RecordOf(false, false, iscompr, bm, n, d), RecordOf(false, false, iscompr, bm, n, d2);
    assert r2.data == r.data && r2.slots == r.slots;
  }

  lemma NoTags()
    ensures TagsBelow(0, 0)
  {
    hide Bit;
    forall i: nat
      ensures !IsInline(0, i)
    {
      if i < MAX_INLINE {
        NoBits(i as bv4);
      }
    }
  }

  class PackedNode {
    var iskey: bool
    var isnull: bool
    var iscompr: bool
    var leafbitmap: bv16
    var size: nat
    /** The allocated bytes behind the header; there may be more than the node needs. */
    var data: array<byte>

    predicate HasValue()
      reads this
    {
      iskey && !isnull
    }

    ghost predicate Valid()
      reads this, data
    {
      && size <= NODE_MAX_SIZE && TagsBelow(leafbitmap, Children(iscompr, size))
      && CurrentLength(iscompr, size, HasValue()) <= data.Length
    }

    /** The node record these bytes stand for. */
    ghost function Record(): Node
      reads this, data
      requires Valid()
    {
      RecordOf(iskey, isnull, iscompr, leafbitmap, size, data[..])
    }

    /** raxNodeFindChildPos: where edge c goes. */
    method FindChildPos(c: byte) returns (pos: nat)
      requires Valid() && !iscompr
      ensures pos == ChildPos(Record().data, c) && pos <= size
    {
      pos := 0;
      while pos < size
        invariant pos <= size
        invariant forall k :: 0 <= k < pos ==> data[k] <= c
      {
        if data[pos] > c {
          break;
        }
        pos := pos + 1;
      }
      ChildPosUnique(data[..size], c, pos);
    }

    /** realloc to a length that still holds the node. */
    method Realloc(length: nat)
      requires Valid() && CurrentLength(iscompr, size, HasValue()) <= length
      modifies this`data
      ensures fresh(data) && data.Length == length
      ensures Valid() && Record() == old(Record())
    {
      hide RecordOf, IsInline, FirstChild;
      ghost var d0 := data[..];
      var d := new byte[length];
      forall k | 0 <= k < length && k < data.Length {
        d[k] := data[k];
      }
      SameBytes(iskey, isnull, iscompr, leafbitmap, size, d0, d[..]);
      data := d;
    }

    method WriteWord(j: nat, w: seq<byte>)
      requires FirstChild(size) + 8 * j + 8 <= data.Length && |w| == 8
      modifies data
      ensures Stored(old(data[..]), data[..], FirstChild(size) + 8 * j, w)
    {
      hide FirstChild;
      var at := FirstChild(size) + 8 * j;
      forall k | 0 <= k < 8 {
        data[at + k] := w[k];
      }
    }

    /** memcpy of a word into a child slot; the tag stays. */
    method StoreWord(j: nat, w: seq<byte>)
      requires Valid() && j < Children(iscompr, size) && |w| == 8
      modifies data
      ensures Valid()
      ensures Record() == SetSlot(old(Record()), j, Tagged(leafbitmap, j, w))
    {
      hide LittleEndian.Get, IsInline, RecordOf, SetSlot, Stored, FirstChild, WithTag, WithoutTag;
      ghost var d, bm := data[..], leafbitmap;
      WriteWord(j, w);
      StoredSlot(iskey, isnull, iscompr, bm, leafbitmap, size, d, data[..], j, w);
    }

    /** A value goes into a slot itself: memcpy, and the slot's bit is set. */
    method StoreInline(j: nat, w: seq<byte>)
      requires Valid() && j < Children(iscompr, size) && |w| == 8 && j < MAX_INLINE
      modifies data, this`leafbitmap
      ensures Valid()
      ensures Record() == SetSlot(old(Record()), j, Inline(LittleEndian.Get(w)))
    {
      hide LittleEndian.Get, IsInline, RecordOf, SetSlot, Stored, FirstChild, WithTag, WithoutTag;
      ghost var d, bm := data[..], leafbitmap;
      WriteWord(j, w);
      TagSet(bm, j, Children(iscompr, size));
      leafbitmap := WithTag(leafbitmap, j);
      StoredSlot(iskey, isnull, iscompr, bm, leafbitmap, size, d, data[..], j, w);
    }

    /** A pointer takes the place of an inline value: memcpy, and the slot's bit is cleared. */
    method StoreChild(j: nat, w: seq<byte>)
      requires Valid() && j < Children(iscompr, size) && |w| == 8
      modifies data, this`leafbitmap
      ensures Valid()
      ensures Record() == SetSlot(old(Record()), j, Child(LittleEndian.Get(w)))
    {
      hide LittleEndian.Get, IsInline, RecordOf, SetSlot, Stored, FirstChild, WithTag, WithoutTag;
      ghost var d, bm := data[..], leafbitmap;
      WriteWord(j, w);
      if j < MAX_INLINE {
        TagCleared(bm, j, Children(iscompr, size));
        leafbitmap := WithoutTag(leafbitmap, j);
      } else {
        NoTag(bm, j);
      }
      StoredSlot(iskey, isnull, iscompr, bm, leafbitmap, size, d, data[..], j, w);
    }

    /** raxAddChildNoAlloc: room for edge c; leaf is the node made for an inline value that leaves the bitmap. */
    method AddChildNoAlloc(c: byte, leaf: seq<byte>) returns (pos: nat)
      requires Valid() && !iscompr && size < NODE_MAX_SIZE && |leaf| == 8
      modifies this, data
      ensures Valid() && !iscompr && pos == ChildPos(old(Record()).data, c)
      ensures pos < |Record().slots| && Record().slots[pos].Child?
      ensures Record() == InsertEdge(SpillSlot(old(Record()), pos, leaf), pos, c, Record().slots[pos])
    {
      hide RecordOf, LittleEndian.Get, IsInline, ChildPos, FirstChild, Stored, SetSlot, InsertEdge;
      Shift(size);
      RecordShape();
      Realloc(CurrentLength(false, size + 1, HasValue()));
      pos := FindChildPos(c);
      var spill := pos <= 12 && IsInline(leafbitmap, 12);
      SlotTag(12);
      ghost var r := Record();
      Insert(c, pos);
      RecordShape();
      if spill {
        SpilledInsert(r, pos, c, Record().slots[pos], leaf);
        StoreWord(13, leaf);
        NoTag(leafbitmap, 13);
        RecordShape();
      }
    }

    lemma RecordShape()
      requires Valid()
      ensures |Record().slots| == Children(iscompr, size) && Record().iscompr == iscompr && |Record().data| == size
    {
    }

    lemma SlotTag(i: nat)
      requires Valid()
      ensures IsInline(leafbitmap, i) <==> i < |Record().slots| && Record().slots[i].Inline?
    {
    }

    /** The moves of the words: value, tail, head. */
    method MoveWords(pos: nat, shift: nat) returns (ghost d1: seq<byte>, ghost d2: seq<byte>)
      requires pos <= size && FirstChild(size) + shift + 8 * (size + 1) + (if HasValue() then 8 else 0) <= data.Length
      modifies data
      ensures WordMoves(old(data[..]), d1, d2, data[..], size, pos, FirstChild(size), shift, HasValue())
    {
      hide FirstChild, Moved;
      var n, off := size, FirstChild(size);
      MemmoveIf(HasValue(), data, off + shift + 8 * (n + 1), off + 8 * n, 8);
      d1 := data[..];
      Memmove(data, off + 8 * pos + shift + 8, off + 8 * pos, 8 * (n - pos));
      d2 := data[..];
      MemmoveIf(shift != 0, data, off + shift, off, 8 * pos);
    }

    /** The four moves of raxAddChildNoAlloc, and the new character. */
    method Open(c: byte, pos: nat)
      requires CurrentLength(false, size, HasValue()) <= data.Length && pos <= size
      requires CurrentLength(false, size + 1, HasValue()) <= data.Length
      modifies data
      ensures Opened(old(data[..]), data[..], size, pos, c, HasValue())
    {
      hide FirstChild, Moved, Opened, WordMoves;
      Shift(size);
      ghost var d0 := data[..];
      ghost var d1, d2 := MoveWords(pos, FirstChild(size + 1) - FirstChild(size));
      ghost var d3 := data[..];
      Memmove(data, pos + 1, pos, size - pos);
      ghost var d4 := data[..];
      data[pos] := c;
      assert data[..] == d4[pos := c];
      MovesOpen(d0, d1, d2, d3, d4, size, pos, c, HasValue());
    }

    /** The moves, then the new size and bitmap. */
    method Insert(c: byte, pos: nat)
      requires Valid() && !iscompr && size < NODE_MAX_SIZE && pos <= size
      requires CurrentLength(false, size + 1, HasValue()) <= data.Length
      modifies this`size, this`leafbitmap, data
      ensures Valid() && size == old(size) + 1
      ensures var r := old(Record());
        && Record().slots[pos].Child?
        && Record() == InsertEdge(if pos <= 12 < |r.slots| && r.slots[12].Inline? then SetSlot(r, 12, Child(r.slots[12].v)) else r,
                                  pos, c, Record().slots[pos])
    {
      hide RecordOf, ShiftUp, IsInline, FirstChild, Opened;
      ghost var d0 := data[..];
      RecordShape();
      Open(c, pos);
      Shift(size);
      OpenedRecord(iskey, isnull, leafbitmap, size, d0, data[..], pos, c);
      TagsStayUp(leafbitmap, size, pos);
      size, leafbitmap := size + 1, ShiftUp(leafbitmap, pos);
    }

    // ------------------------------------------------------------ removal

    /** raxGetData: the value word, or a word of zeros. */
    method GetDataWord() returns (w: seq<byte>)
      requires Valid() && iskey
      ensures |w| == 8 && LittleEndian.Get(w) == GetData(Record())
    {
      if isnull {
        return [0, 0, 0, 0, 0, 0, 0, 0];
      }
      var at := FirstChild(size) + 8 * Children(iscompr, size);
      w := data[at..at + 8];
    }

    /** The node without regard to its key bits and value word. */
    ghost predicate Roomy()
      reads this, data
    {
      && size <= NODE_MAX_SIZE && TagsBelow(leafbitmap, Children(iscompr, size))
      && CurrentLength(iscompr, size, false) <= data.Length
    }

    ghost function Keyless(): Node
      reads this, data
      requires Roomy()
    {
      RecordOf(false, false, iscompr, leafbitmap, size, data[..])
    }

    /** raxSetData: the node is a key from now on; a NULL value takes no word. */
    method SetDataWord(w: seq<byte>)
      requires Roomy() && |w| == 8
      requires LittleEndian.Get(w) != NULL ==> CurrentLength(iscompr, size, true) <= data.Length
      modifies this`iskey, this`isnull, data
      ensures Valid()
      ensures Record() == SetData(old(Keyless()), LittleEndian.Get(w))
    {
      hide LittleEndian.Get, IsInline, FirstChild;
      ghost var d0 := data[..];
      iskey := true;
      if LittleEndian.Get(w) != NULL {
        isnull := false;
        var at := CurrentLength(iscompr, size, true) - 8;
        forall k | 0 <= k < 8 {
          data[at + k] := w[k];
        }
        assert data[at..at + 8] == w;
      } else {
        isnull := true;
      }
      KeptSlots(iscompr, leafbitmap, size, d0, data[..]);
    }

    /** raxRemoveChildAtPtr: the child at index pos is cut out; a compressed node becomes a childless plain one. */
    method RemoveChildAt(pos: nat)
      requires Valid() && pos < Children(iscompr, size)
      modifies this, data
      ensures Valid() && data == old(data)
      ensures Record() == RemoveChildRecord(old(Record()), pos)
    {
      hide Word, LittleEndian.Get, ShiftDown, IsInline, FirstChild, Closed;
      if iscompr {
        Uncompress();
        return;
      }
      ghost var d0 := data[..];
      Close(pos);
      ClosedRecord(iskey, isnull, leafbitmap, size, d0, data[..], pos);
      TagsStayDown(leafbitmap, size, pos);
      size, leafbitmap := size - 1, ShiftDown(leafbitmap, pos);
    }

    method Uncompress()
      requires Valid() && iscompr
      modifies this, data
      ensures Valid() && data == old(data)
      ensures Record() == RemoveChildRecord(old(Record()), 0)
    {
      hide LittleEndian.Get;
      var w := [0, 0, 0, 0, 0, 0, 0, 0];
      ghost var r := Record();
      if iskey {
        w := GetDataWord();
      }
      isnull, iscompr, size, leafbitmap := false, false, 0, 0;
      NoTags();
      assert Keyless().slots == [];
      if iskey {
        SetDataWord(w);
      }
    }

    method Close(pos: nat)
      requires pos < size && CurrentLength(false, size, HasValue()) <= data.Length
      modifies data
      ensures Closed(old(data[..]), data[..], size, pos, HasValue())
    {
      hide FirstChild, Moved, Closed;
      var n, off := size, FirstChild(size);
      var taillen := n - pos - 1;
      Shift(n - 1);
      ghost var d0 := data[..];
      Memmove(data, pos, pos + 1, taillen);
      ghost var d1 := data[..];
      var shift := if (n + 4) % 8 == 1 then 8 else 0;
      MemmoveIf(shift != 0, data, off - shift, off, 8 * pos);
      ghost var d2 := data[..];
      Memmove(data, off + 8 * pos - shift, off + 8 * pos + 8, 8 * taillen + if HasValue() then 8 else 0);
      MovesClose(d0, d1, d2, data[..], n, pos, shift, HasValue());
    }
  }
}
