/** The checkpoint store: eviction under a byte budget, storing, prefix lookup and loading. */
module KvStore {
  import opened Common
  import opened CheckpointFile
  import opened LittleEndian
  import opened KvDirectory
  import B = BytePairs
  import T = Tokenizer
  import Sha1

  const DEFAULT_MB := 4096

  /** The engine side of a store: what the session and the outside world contribute. */
  datatype Saving = Saving(
    tokens: seq<int>, storeLen: nat, live: Option<seq<int>>,
    textOverride: Option<Bytes>, overrideFlag: byte,
    quantBits: int, modelId: int, ctxSize: nat, reason: byte, now: nat,
    payload: Option<Bytes>, writeOk: bool, renameOk: bool)

  /** What a server asks of the store while it runs. */
  datatype Op =
    | Save(p: Saving)
    | Load(prompt: Bytes, quantBits: int, modelId: int, ctxSize: nat, now: nat)

  /** What a request came to: whether a text is stored, or how many tokens were restored and the prompt built on them. */
  datatype Outcome =
    | Saved(ok: bool)
    | Loaded(count: nat, items: seq<int>)

  class KvStore {
    const vocab: B.Vocab
    const score: Score
    /** The token history that the session restores from a payload. */
    const restore: Bytes -> Option<seq<int>>

    var enabled: bool
    var budget: nat
    var rejectDifferentQuant: bool
    var minTokens: int
    var dir: Directory
    var entry: seq<Entry>

    constructor (vocab: B.Vocab, score: Score, restore: Bytes -> Option<seq<int>>, dir: Directory)
      ensures this.vocab == vocab && this.score == score && this.restore == restore && this.dir == dir && !enabled
    {
      this.vocab, this.score, this.restore, this.dir := vocab, score, restore, dir;
      enabled, budget, rejectDifferentQuant, minTokens, entry := false, 0, false, 0, [];
    }

    /** kv_cache_refresh: lists the valid files, in whatever order the directory gives them. */
    method Refresh()
      modifies this`entry
      ensures enabled ==> Lists(dir, dir.Keys, entry)
      ensures !enabled ==> entry == old(entry)
    {
      hide Lists, ReadEntry, ShaOfName;
      if !enabled {
        return;
      }
      entry := [];
      ListsNone(dir);
      var todo := dir.Keys;
      while todo != {}
        invariant todo <= dir.Keys && Lists(dir, dir.Keys - todo, entry)
        decreases todo
      {
        var n: string :| n in todo;
        ListsMore(dir, dir.Keys - todo, n, entry);
        assert dir.Keys - (todo - {n}) == dir.Keys - todo + {n};
        todo := todo - {n};
        var sha := ShaOfName(n);
        if sha.Some? {
          var e := ReadEntry(n, sha.value, dir[n]);
          if e.Some? {
            entry := entry + [e.value];
          }
        }
      }
      assert dir.Keys - todo == dir.Keys;
    }

    /** The scan for the entry to evict: strictly lower scores win, then strictly older last uses. */
    method PickVictim(now: nat, inc: Option<Incoming>) returns (victim: nat)
      requires entry != []
      ensures IsVictim(score, now, inc, entry, victim)
    {
      victim := 0;
      var victimScore := score(entry[0], now, inc);
      var i := 1;
      while i < |entry|
        invariant 1 <= i <= |entry| && victim < i && victimScore == score(entry[victim], now, inc)
        invariant forall k :: 0 <= k < i ==> !Before(score, now, inc, entry[k], entry[victim])
        invariant forall k :: 0 <= k < victim ==> Before(score, now, inc, entry[victim], entry[k])
      {
        var s := score(entry[i], now, inc);
        if s < victimScore || (s == victimScore && entry[i].header.lastUsed < entry[victim].header.lastUsed) {
          victim, victimScore := i, s;
        }
        i := i + 1;
      }
    }

    /** The sum of the listed sizes, in 64 bits. */
    method SumSizes() returns (total: nat)
      ensures total == SumEntries(entry) % U64
    {
      total := 0;
      var i := 0;
      assert entry[..0] == [];
      while i < |entry|
        invariant 0 <= i <= |entry| && total == SumEntries(entry[..i]) % U64
      {
        SumNext(entry, i);
        total := (total + entry[i].fileSize) % U64;
        i := i + 1;
      }
      assert entry[..|entry|] == entry;
    }

    /**
      ds4_kvstore_evict: removes files until the rest and extraBytes fit. Files in
      `stuck` cannot be unlinked; meeting one ends the eviction.
     */
    method Evict(extraBytes: nat, now: nat, inc: Option<Incoming>, stuck: set<string>) returns (ghost gone: seq<Entry>)
      modifies this`entry, this`dir
      ensures dir == old(dir) - Names(gone)
      ensures !enabled || budget == 0 || extraBytes > budget ==> gone == [] && entry == old(entry)
      ensures enabled && budget != 0 && extraBytes <= budget && Total(old(dir)) < U64 && stuck !! old(dir).Keys ==>
                && Total(dir) + extraBytes <= budget
                && exists es: seq<Entry> :: Lists(old(dir), old(dir).Keys, es)
                     && Evicts(score, now, inc, es, budget - extraBytes, gone, entry)
                     && SumEntries(entry) <= budget - extraBytes
      ensures enabled && 0 < budget < U64 && extraBytes <= budget && stuck !! old(dir).Keys && FileSizes(old(dir)) ==>
                (Total(dir) + extraBytes <= budget <==> Total(old(dir)) < U64)
    {
      hide Lists, ReadEntry, ShaOfName, IsVictim, Evicts, Names, FileSizes;
      gone := [];
      NoNames(dir);
      if !enabled || budget == 0 {
        return;
      }
      if extraBytes > budget {
        return;
      }
      Refresh();
      ghost var es := entry;
      ListingTotal(dir, dir.Keys, entry);
      var total: nat := SumSizes();
      var target := budget - extraBytes;
      EvictsNone(score, now, inc, es, target);
      ghost var fits := Total(old(dir)) < U64 && stuck !! old(dir).Keys;
      ghost var wraps := !(Total(old(dir)) < U64) && stuck !! old(dir).Keys && FileSizes(old(dir)) && budget < U64;
      while total > target && |entry| > 0
        invariant dir == old(dir) - Names(gone)
        invariant fits ==> Lists(dir, dir.Keys, entry) && total == SumEntries(entry) && stuck !! dir.Keys
        invariant fits ==> Evicts(score, now, inc, es, target, gone, entry)
        invariant wraps ==> Lists(dir, dir.Keys, entry) && stuck !! dir.Keys
        invariant wraps ==> SumEntries(entry) >= U64 + total || (total <= target && SumEntries(entry) > target)
        decreases |entry|
      {
        var victim := PickVictim(now, inc);
        VictimInRange(score, now, inc, entry, victim);
        var e := entry[victim];
        if fits {
          EvictsMore(score, now, inc, es, target, gone, entry, victim);
          ListsWithout(dir, entry, victim);
          SumWithout(entry, victim);
        }
        if wraps {
          SizeInside(old(dir), dir, entry, victim);
          ListsWithout(dir, entry, victim);
          SumWithout(entry, victim);
        }
        if e.name !in stuck {
          NamesMore(old(dir), gone, e);
          dir := dir - {e.name};
          gone := gone + [e];
          total := if total >= e.fileSize then total - e.fileSize else 0;
        } else {
          total := 0;
        }
        entry := Without(entry, victim);
      }
      if fits || wraps {
        ListingTotal(dir, dir.Keys, entry);
      }
    }

    /** A file size is a signed 64-bit number. */
    static ghost predicate FileSizes(d: Directory) {
      forall n :: n in d ==> |d[n]| < 0x8000_0000_0000_0000
    }

    static lemma SizeInside(was: Directory, d: Directory, es: seq<Entry>, i: nat)
      requires FileSizes(was) && Lists(d, d.Keys, es) && i < |es|
      requires forall n :: n in d ==> n in was && d[n] == was[n]
      ensures es[i].fileSize < U64
    {
    }

    // ------------------------------------------------------------------ open

    /** ds4_kvstore_open, once the directory exists: sets the options and makes the files fit. */
    method Open(budgetMb: nat, rejectDifferentQuant: bool, minTokens: int, now: nat, stuck: set<string>)
      requires budgetMb < U64
      modifies this
      ensures enabled && this.rejectDifferentQuant == rejectDifferentQuant && this.minTokens == minTokens
      ensures budget == (if budgetMb == 0 then DEFAULT_MB else budgetMb) * 0x10_0000 % U64
      ensures Total(old(dir)) < U64 && stuck == {} ==> WithinBudget()
      ensures stuck == {} && FileSizes(old(dir)) && budget != 0 ==> (WithinBudget() <==> Total(old(dir)) < U64)
      ensures forall n :: n in dir ==> n in old(dir) && dir[n] == old(dir)[n]
    {
      hide Total;
      enabled := true;
      budget := (if budgetMb == 0 then DEFAULT_MB else budgetMb) * 0x10_0000 % U64;
      this.rejectDifferentQuant, this.minTokens := rejectDifferentQuant, minTokens;
      ghost var gone := Evict(0, now, None, stuck);
    }

    /** The valid files fit into the budget; a budget of zero is no limit. */
    ghost predicate WithinBudget()
      reads this`budget, this`dir
    {
      Fits(dir)
    }

    ghost predicate Fits(d: Directory)
      reads this`budget
    {
      budget != 0 ==> Total(d) <= budget
    }

    // ------------------------------------------------------------------ store

    /** kv_cache_file_size_bytes without a trailer: None when the sum does not fit into 64 bits. */
    static function FileSize(textBytes: nat, payloadBytes: nat): Option<nat> {
      var fixed := FIXED_HEADER + 4;
      if U64 - 1 - fixed < textBytes || U64 - 1 - fixed - textBytes < payloadBytes then None
      else Some(fixed + textBytes + payloadBytes)
    }

    /** ds4_kvstore_file_size_fits: the file and one percent of headroom, rounded up, are within the budget. */
    predicate FileFits(textBytes: nat, payloadBytes: nat)
      reads this`budget
    {
      match FileSize(textBytes, payloadBytes)
      case None => false
      case Some(size) =>
        budget == 0 ||
        (var slack := size / 100 + if size % 100 != 0 then 1 else 0;
         size + slack < U64 && size + slack <= budget)
    }

    /** The sum and its hundredth, rounded up, fit 64 bits and the budget; without a budget the sum fits 64 bits. */
    lemma FitsExactly(textBytes: nat, payloadBytes: nat)
      ensures var size := 52 + textBytes + payloadBytes;
        FileFits(textBytes, payloadBytes)
        <==> size < U64 && (budget == 0 || (size + (size + 99) / 100 < U64 && size + (size + 99) / 100 <= budget))
    {
    }

    /** A file of the directory that serves a store of the text as it is. */
    ghost predicate Compatible(d: Directory, name: string, sha: string, text: Bytes, modelId: int, quantBits: int, ctxSize: nat)
      reads this`rejectDifferentQuant
    {
      && name in d && ReadEntry(name, sha, d[name]).Some?
      && var h := ReadEntry(name, sha, d[name]).value.header;
      && h.modelId == modelId % 256 && (rejectDifferentQuant ==> h.quantBits == quantBits % 256) && h.ctxSize <= ctxSize
      && |text| < U32 && HoldsText(d[name], text) && Sha1.HexDigest(text) == sha
    }

    /** kv_cache_existing_compatible: the same text is stored already; an incompatible file is removed. */
    method ExistingCompatible(name: string, sha: string, text: Bytes, modelId: int, quantBits: int, ctxSize: nat, stuck: set<string>)
      returns (ok: bool)
      modifies this`dir
      ensures ok <==> Compatible(old(dir), name, sha, text, modelId, quantBits, ctxSize)
      ensures ok ==> name in dir && HoldsText(dir[name], text)
      ensures dir == if !ok && name in old(dir) && ReadEntry(name, sha, old(dir)[name]).Some? && name !in stuck
                       then old(dir) - {name} else old(dir)
    {
      hide ReadEntry, HoldsText;
      if name !in dir {
        return false;
      }
      var e := ReadEntry(name, sha, dir[name]);
      if e.None? {
        return false;
      }
      var h := e.value.header;
      ok := h.modelId == modelId % 256 && (!rejectDifferentQuant || h.quantBits == quantBits % 256) && h.ctxSize <= ctxSize;
      if ok {
        ok := TextMatches(dir[name], sha, text);
      }
      if !ok && name !in stuck {
        dir := dir - {name};
      }
    }

    /** kv_cache_file_text_matches */
    static method TextMatches(f: Bytes, sha: string, text: Bytes) returns (ok: bool)
      ensures ok <==> |text| < U32 && HoldsText(f, text) && Sha1.HexDigest(text) == sha
    {
      if |text| >= U32 {
        return false;
      }
      var r := ReadHeader(f);
      if r.None? || r.value.1 != |text| || |f| < FIXED_HEADER + 4 + |text| {
        return false;
      }
      var stored := TextOf(f, |text|);
      var storedSha := Sha1.BytesHex(stored);
      return storedSha == sha && stored == text;
    }

    /** A valid file whose text is the given one. */
    static ghost predicate HoldsText(f: Bytes, text: Bytes) {
      && ReadHeader(f).Some? && ReadHeader(f).value.1 == |text|
      && FIXED_HEADER + 4 + |text| <= |f| && TextOf(f, |text|) == text
    }

    /** The payload of a file, as far as the file goes. */
    static function PayloadOf(f: Bytes, h: Header, textBytes: nat): Bytes
      requires FIXED_HEADER + 4 + textBytes <= |f|
    {
      var at := FIXED_HEADER + 4 + textBytes;
      if at + h.payloadBytes <= |f| then f[at..at + h.payloadBytes] else f[at..]
    }

    /** The file is stored under the text that its tokens render to. */
    ghost predicate OwnText(f: Bytes) {
      match ReadHeader(f)
      case None => true
      case Some(r) =>
        FIXED_HEADER + 4 + r.1 <= |f| && restore(PayloadOf(f, r.0, r.1)).Some? ==>
          B.Rendered(vocab, restore(PayloadOf(f, r.0, r.1)).value) == TextOf(f, r.1)
    }

    /** Every checkpoint of the directory is. */
    ghost predicate OwnTexts(d: Directory) {
      forall n :: n in d ==> OwnText(d[n])
    }

    /** The token prefix that a store is about. */
    static function StoreTokens(p: Saving): (ts: seq<int>)
      ensures ts <= p.tokens && |ts| == Min(p.storeLen, |p.tokens|)
    {
      if p.storeLen <= |p.tokens| then p.tokens[..p.storeLen] else p.tokens
    }

    /** The text a checkpoint is stored under. */
    ghost function StoreText(p: Saving): Bytes {
      if p.textOverride.Some? && p.textOverride.value != [] then p.textOverride.value else B.Rendered(vocab, StoreTokens(p))
    }

    ghost function NameFor(p: Saving): string {
      Sha1.HexDigest(StoreText(p)) + ".kv"
    }

    static function HeaderFor(p: Saving): Header
      requires p.payload.Some? && 0 <= p.quantBits < 256
    {
      var flags := if p.textOverride.Some? && p.textOverride.value != [] then p.overrideFlag else 0;
      Header(p.quantBits, p.reason, flags, p.modelId % 256, |StoreTokens(p)|, 0, p.ctxSize, p.now, p.now, |p.payload.value|)
    }

    /** The file a store writes. */
    ghost function FileFor(p: Saving): Bytes
      requires p.payload.Some? && 0 <= p.quantBits < 256
    {
      FileBytes(HeaderFor(p), StoreText(p), p.payload.value)
    }

    /** What can be read from the file of a saving: its options and counts, its times, its text and its payload. */
    ghost predicate Records(f: Bytes, p: Saving) {
      && p.payload.Some? && ReadHeader(f).Some?
      && var h, n := ReadHeader(f).value.0, ReadHeader(f).value.1;
      && h.modelId == p.modelId % 256 && h.quantBits == p.quantBits && h.reason == p.reason
      && h.tokens == |StoreTokens(p)| && h.ctxSize == p.ctxSize && h.hits == 0 && h.createdAt == p.now && h.lastUsed == p.now
      && h.extFlags == (if p.textOverride.Some? && p.textOverride.value != [] then p.overrideFlag else 0)
      && h.payloadBytes == |p.payload.value| && n == |StoreText(p)|
      && |f| == 52 + n + |p.payload.value| && f[52..52 + n] == StoreText(p) && f[52 + n..] == p.payload.value
    }

    lemma FileRecords(p: Saving)
      requires p.payload.Some? && (p.quantBits == 2 || p.quantBits == 4) && p.reason <= LAST_REASON
      requires 0 < |StoreTokens(p)| < U32 && p.ctxSize < U32 && p.now < U64
      requires |StoreText(p)| < U32 && |p.payload.value| < U64
      ensures Records(FileFor(p), p)
    {
      hide FillHeader, Put, ReadHeader, StoreText;
      var h, text, payload := HeaderFor(p), StoreText(p), p.payload.value;
      FileParts(h, text, payload);
      FileLayout(h, text, payload);
      HeaderReads(h, |text|, text + payload);
    }

    /** The store is asked for the tokens that the session holds, all of them, and enough of them. */
    ghost predicate Storable(p: Saving)
      reads this`enabled, this`minTokens
    {
      && enabled && p.storeLen >= minTokens && (p.quantBits == 2 || p.quantBits == 4)
      && p.live == Some(StoreTokens(p)) && |StoreText(p)| < U32
    }

    ghost predicate StoredAlready(p: Saving)
      reads this`rejectDifferentQuant, this`dir
    {
      StoredIn(dir, p)
    }

    ghost predicate StoredIn(d: Directory, p: Saving)
      reads this`rejectDifferentQuant
    {
      Compatible(d, NameFor(p), Sha1.HexDigest(StoreText(p)), StoreText(p), p.modelId, p.quantBits, p.ctxSize)
    }

    /** A file of that size may be made, and the file system makes it. */
    ghost predicate Writable(p: Saving)
      reads this`budget
    {
      p.payload.Some? && FileFits(|StoreText(p)|, |p.payload.value|) && p.writeOk && p.renameOk
    }

    /** The directory once an incompatible file of the same text is out of the way. */
    ghost function Cleared(d: Directory, p: Saving): Directory {
      var name := NameFor(p);
      if name in d && ReadEntry(name, Sha1.HexDigest(StoreText(p)), d[name]).Some? then d - {name} else d
    }

    /** The victims of the listing are gone, one by one and no more than the file to come needs. */
    ghost predicate RoomMade(d: Directory, p: Saving, d2: Directory)
      requires p.payload.Some? && FileFits(|StoreText(p)|, |p.payload.value|)
      reads this`budget, this`rejectDifferentQuant
    {
      if budget == 0 then d2 == d
      else Total(d) < U64 ==> exists es, gone, rest :: Shrinks(d, p, es, gone, rest, d2)
    }

    ghost predicate Shrinks(d: Directory, p: Saving, es: seq<Entry>, gone: seq<Entry>, rest: seq<Entry>, d2: Directory)
      requires p.payload.Some? && FileFits(|StoreText(p)|, |p.payload.value|)
      reads this`budget, this`rejectDifferentQuant
    {
      var inc := Incoming(StoreText(p), p.modelId % 256, p.quantBits % 256, p.ctxSize, rejectDifferentQuant);
      var target := budget - FileSize(|StoreText(p)|, |p.payload.value|).value;
      && Lists(d, d.Keys, es) && Evicts(score, p.now, Some(inc), es, target, gone, rest) && SumEntries(rest) <= target
      && d2 == d - Names(gone)
    }

    /** Room was made, and on success the file was written. */
    ghost predicate Wrote(d: Directory, p: Saving, ok: bool, d2: Directory)
      requires p.payload.Some? && 0 <= p.quantBits < 256 && FileFits(|StoreText(p)|, |p.payload.value|)
      reads this`budget, this`rejectDifferentQuant
    {
      exists d1 :: RoomMade(d, p, d1) && d2 == if ok then d1[NameFor(p) := FileFor(p)] else d1
    }

    /** A text that is not stored yet: its file is written if its size allows that, and else nothing is. */
    ghost predicate StoresNew(d: Directory, p: Saving, ok: bool, d2: Directory)
      requires 0 <= p.quantBits < 256
      reads this`budget, this`rejectDifferentQuant
    {
      if p.payload.Some? && FileFits(|StoreText(p)|, |p.payload.value|) then Wrote(Cleared(d, p), p, ok, d2)
      else !ok && d2 == Cleared(d, p)
    }

    /**
      ds4_kvstore_store_live_prefix_text, without trailer hooks: on success the text is stored, under
      the hash of the text, and the files still fit.
     */
    method Store(p: Saving, stuck: set<string>) returns (ok: bool)
      requires budget < U64 && |p.tokens| < U32 && p.ctxSize < U32 && p.now < U64 && p.reason <= LAST_REASON
      requires p.payload.Some? && p.live.Some? ==> restore(p.payload.value) == p.live
      modifies this`dir, this`entry
      ensures stuck == {} && old(WithinBudget()) ==> WithinBudget()
      ensures ok <==> old(Storable(p)) && (old(StoredAlready(p)) || Writable(p))
      ensures ok && StoreTokens(p) != [] ==> NameFor(p) in dir && HoldsText(dir[NameFor(p)], StoreText(p))
      ensures ok && !old(StoredAlready(p)) ==> NameFor(p) in dir && dir[NameFor(p)] == FileFor(p)
      ensures ok && !old(StoredAlready(p)) && StoreTokens(p) != [] ==> Records(dir[NameFor(p)], p)
      ensures forall n :: n in dir && n != NameFor(p) ==> n in old(dir) && dir[n] == old(dir)[n]
      ensures !old(Storable(p)) || old(StoredAlready(p)) ==> dir == old(dir)
      ensures stuck == {} && old(Storable(p)) && !old(StoredAlready(p)) ==> StoresNew(old(dir), p, ok, dir)
      ensures OwnTexts(old(dir)) && (p.textOverride.None? || p.textOverride.value == []) ==> OwnTexts(dir)
    {
      hide Total, OwnTexts, HoldsText, OwnText, StoredAlready, FileFor, NameFor, StoresNew, Records;
      if !enabled || p.storeLen < minTokens {
        return false;
      }
      var tokens := StoreTokens(p);
      if p.quantBits != 2 && p.quantBits != 4 {
        return false;
      }
      if p.live.None? || |p.live.value| != |tokens| || !(tokens <= p.live.value) {
        return false;
      }
      assert p.live.value == tokens;
      var text;
      var override := p.textOverride.Some? && p.textOverride.value != [];
      if override {
        text := p.textOverride.value;
      } else {
        text := B.RenderTokens(vocab, tokens);
      }
      if |text| >= U32 {
        return false;
      }
      ghost var isNew := !StoredAlready(p);
      ok := StoreChecked(p, text, stuck);
      if ok && isNew && tokens != [] {
        FileRecords(p);
      }
    }

    /** The rest of the store, once the text is known: look for the file, or write it. */
    method StoreChecked(p: Saving, text: Bytes, stuck: set<string>) returns (ok: bool)
      requires budget < U64 && |p.tokens| < U32 && p.ctxSize < U32 && p.now < U64 && p.reason <= LAST_REASON
      requires p.payload.Some? ==> restore(p.payload.value) == Some(StoreTokens(p))
      requires Storable(p) && text == StoreText(p)
      modifies this`dir, this`entry
      ensures stuck == {} && old(WithinBudget()) ==> WithinBudget()
      ensures ok <==> old(StoredAlready(p)) || Writable(p)
      ensures ok && StoreTokens(p) != [] ==> NameFor(p) in dir && HoldsText(dir[NameFor(p)], text)
      ensures ok && !old(StoredAlready(p)) ==> NameFor(p) in dir && dir[NameFor(p)] == FileFor(p)
      ensures forall n :: n in dir && n != NameFor(p) ==> n in old(dir) && dir[n] == old(dir)[n]
      ensures old(StoredAlready(p)) ==> dir == old(dir)
      ensures stuck == {} && !old(StoredAlready(p)) ==> StoresNew(old(dir), p, ok, dir)
      ensures OwnTexts(old(dir)) && B.Rendered(vocab, StoreTokens(p)) == text ==> OwnTexts(dir)
    {
      hide Total, OwnTexts, HoldsText, OwnText, Compatible, FileFits, StoreText, FileFor, HeaderFor, Wrote;
      var sha := Sha1.BytesHex(text);
      var name := sha + ".kv";
      ghost var before := dir;
      var exists_ := ExistingCompatible(name, sha, text, p.modelId, p.quantBits, p.ctxSize, stuck);
      FewerFiles(before, dir, name);
      if exists_ || p.payload.None? || !FileFits(|text|, |p.payload.value|) {
        return exists_;
      }
      ok := Write(p, text, name, stuck);
    }

    /** Makes room, writes the file under a temporary name, and renames it. */
    method Write(p: Saving, text: Bytes, name: string, stuck: set<string>) returns (ok: bool)
      requires enabled && budget < U64 && |StoreTokens(p)| < U32 && p.ctxSize < U32 && p.now < U64 && p.reason <= LAST_REASON
      requires (p.quantBits == 2 || p.quantBits == 4) && p.payload.Some? && restore(p.payload.value) == Some(StoreTokens(p))
      requires text == StoreText(p) && |text| < U32 && FileFits(|text|, |p.payload.value|) && name == NameFor(p)
      modifies this`dir, this`entry
      ensures stuck == {} && old(WithinBudget()) ==> WithinBudget()
      ensures ok <==> p.writeOk && p.renameOk
      ensures ok ==> name in dir && dir[name] == FileFor(p)
      ensures stuck == {} ==> Wrote(old(dir), p, ok, dir)
      ensures ok && StoreTokens(p) != [] ==> HoldsText(dir[name], text)
      ensures forall n :: n in dir && (n != name || !ok) ==> n in old(dir) && dir[n] == old(dir)[n]
      ensures OwnTexts(old(dir)) && B.Rendered(vocab, StoreTokens(p)) == text ==> OwnTexts(dir)
    {
      hide Total, HoldsText, OwnText, FillHeader, NameFor, Lists, Evicts, Names, FileSizes;
      var payload := p.payload.value;
      var size := FileSize(|text|, |payload|).value;
      var inc := Incoming(text, p.modelId % 256, p.quantBits, p.ctxSize, rejectDifferentQuant);
      ghost var was := dir;
      ghost var gone := Evict(size, p.now, Some(inc), stuck);
      ghost var room := dir;
      NoNames(was);
      assert stuck == {} ==> RoomMade(was, p, room) by {
        if stuck == {} && budget != 0 && Total(was) < U64 {
          var es :| Lists(was, was.Keys, es) && Evicts(score, p.now, Some(inc), es, budget - size, gone, entry)
                    && SumEntries(entry) <= budget - size;
          assert Shrinks(was, p, es, gone, entry, room);
        }
      }
      var h := HeaderFor(p);
      if !p.writeOk || !FileFits(|text|, |payload|) || !p.renameOk {
        assert stuck == {} ==> Wrote(was, p, false, room);
        return false;
      }
      assert stuck == {} ==> Wrote(was, p, true, room[name := FileFor(p)]);
      TotalWrite(dir, name, FileBytes(h, text, payload));
      WrittenFile(h, text, payload, StoreTokens(p));
      dir := dir[name := FileBytes(h, text, payload)];
      return true;
    }

    /** What can be read back from a file just written. */
    lemma WrittenFile(h: Header, text: Bytes, payload: Bytes, tokens: seq<int>)
      requires InRange(h) && |text| < U32 && (h.quantBits == 2 || h.quantBits == 4) && h.reason <= LAST_REASON
      requires h.payloadBytes == |payload| && h.tokens == |tokens| && restore(payload) == Some(tokens)
      ensures tokens != [] ==> HoldsText(FileBytes(h, text, payload), text)
      ensures B.Rendered(vocab, tokens) == text ==> OwnText(FileBytes(h, text, payload))
    {
      hide FillHeader, Put, ReadHeader, B.Rendered;
      var f := FileBytes(h, text, payload);
      FileParts(h, text, payload);
      FileLayout(h, text, payload);
      if tokens != [] {
        HeaderReads(h, |text|, text + payload);
        WholePayload(f, h, |text|, payload);
      } else {
        NoTokens(h, text + payload, |text|);
      }
    }

    static lemma FileLayout(h: Header, text: Bytes, payload: Bytes)
      ensures FileBytes(h, text, payload) == FillHeader(h) + Put(|text|, 4) + (text + payload)
    {
      hide FillHeader, Put;
    }

    static lemma WholePayload(f: Bytes, h: Header, textBytes: nat, payload: Bytes)
      requires FIXED_HEADER + 4 + textBytes <= |f| && f[FIXED_HEADER + 4 + textBytes..] == payload && h.payloadBytes == |payload|
      ensures PayloadOf(f, h, textBytes) == payload
    {
      var at := FIXED_HEADER + 4 + textBytes;
      assert f[at..at + |payload|] == f[at..];
    }

    /** A file without tokens is not valid. */
    static lemma NoTokens(h: Header, rest: Bytes, textBytes: nat)
      requires h.tokens == 0
      ensures ReadHeader(FillHeader(h) + Put(textBytes, 4) + rest) == None
    {
      hide Put, FillHeader, Get;
      HeaderFields(h);
      var f := FillHeader(h) + Put(textBytes, 4) + rest;
      assert f[8..12] == FillHeader(h)[8..12];
      Ranges();
      GetPut(0, 4);
    }

    /** A directory with fewer files takes no more room. */
    lemma FewerFiles(d: Directory, d2: Directory, name: string)
      requires d2 == d || (name in d && d2 == d - {name})
      ensures Total(d2) <= Total(d)
      ensures OwnTexts(d) ==> OwnTexts(d2)
    {
      hide Total, OwnText;
      if name in d {
        TotalRemove(d, name);
      }
    }

    // ----------------------------------------------------------------- lookup

    /** A stored 32-bit count, as the signed number it is compared as. */
    static function Signed(n: nat): int {
      if n % U32 < 0x8000_0000 then n % U32 else n % U32 - U32
    }

    /** Entry e may serve the prompt, by its length, its options, and the hash of the prompt's start. */
    predicate Serves(e: Entry, prompt: Bytes, modelId: int, quantBits: int, ctxSize: nat)
      reads this`minTokens, this`rejectDifferentQuant
    {
      && e.textBytes <= |prompt| && Signed(e.header.tokens) >= minTokens && e.header.modelId == modelId % 256
      && ctxSize % U32 >= e.header.ctxSize && (rejectDifferentQuant ==> e.header.quantBits == quantBits % 256)
      && Sha1.HexDigest(prompt[..e.textBytes]) == e.sha
    }

    /** Entry a has the longer text, or the same length and more tokens. */
    static predicate Longer(a: Entry, b: Entry) {
      a.textBytes > b.textBytes || (a.textBytes == b.textBytes && a.header.tokens > b.header.tokens)
    }

    /** Entry i of a listing serves the prompt, no entry that serves it is longer, and none before it is as good. */
    ghost predicate BestFor(es: seq<Entry>, i: nat, prompt: Bytes, modelId: int, quantBits: int, ctxSize: nat)
      reads this`minTokens, this`rejectDifferentQuant
    {
      && i < |es| && Serves(es[i], prompt, modelId, quantBits, ctxSize)
      && (forall k :: 0 <= k < |es| && Serves(es[k], prompt, modelId, quantBits, ctxSize) ==> !Longer(es[k], es[i]))
      && (forall k :: 0 <= k < i && Serves(es[k], prompt, modelId, quantBits, ctxSize) ==> Longer(es[i], es[k]))
    }

    /** ds4_kvstore_find_text_prefix: the first of the longest entries that serve the prompt, or -1. */
    method FindTextPrefix(prompt: Bytes, modelId: int, quantBits: int, ctxSize: nat) returns (best: int)
      modifies this`entry
      ensures enabled ==> Lists(dir, dir.Keys, entry)
      ensures best < 0 ==> forall i :: 0 <= i < |entry| ==> !Serves(entry[i], prompt, modelId, quantBits, ctxSize)
      ensures best >= 0 ==> best < |entry| && BestFor(entry, best, prompt, modelId, quantBits, ctxSize)
    {
      hide Lists, Serves;
      Refresh();
      best := -1;
      var i := 0;
      while i < |entry|
        invariant 0 <= i <= |entry| && -1 <= best < i
        invariant best < 0 ==> forall k :: 0 <= k < i ==> !Serves(entry[k], prompt, modelId, quantBits, ctxSize)
        invariant best >= 0 ==> Serves(entry[best], prompt, modelId, quantBits, ctxSize)
        invariant best >= 0 ==> forall k :: 0 <= k < i && Serves(entry[k], prompt, modelId, quantBits, ctxSize) ==> !Longer(entry[k], entry[best])
        invariant best >= 0 ==> forall k :: 0 <= k < best && Serves(entry[k], prompt, modelId, quantBits, ctxSize) ==> Longer(entry[best], entry[k])
        modifies {}
      {
        var better := Better(entry[i], best, prompt, modelId, quantBits, ctxSize);
        if better {
          best := i;
        }
        i := i + 1;
      }
    }

    /** One turn of the lookup loop: whether the entry is the best so far. */
    method Better(e: Entry, best: int, prompt: Bytes, modelId: int, quantBits: int, ctxSize: nat) returns (better: bool)
      requires best < |entry|
      ensures better <==> Serves(e, prompt, modelId, quantBits, ctxSize) && (best >= 0 ==> Longer(e, entry[best]))
    {
      if e.textBytes > |prompt| || Signed(e.header.tokens) < minTokens || e.header.modelId != modelId % 256 {
        return false;
      }
      if ctxSize % U32 < e.header.ctxSize || (rejectDifferentQuant && e.header.quantBits != quantBits % 256) {
        return false;
      }
      if best >= 0 {
        var b := entry[best];
        if e.textBytes < b.textBytes || (e.textBytes == b.textBytes && e.header.tokens <= b.header.tokens) {
          return false;
        }
      }
      var sha := Sha1.BytesHex(prompt[..e.textBytes]);
      return sha == e.sha;
    }

    // ------------------------------------------------------------------- load

    /**
      ds4_kvstore_try_load_text: the token count of the checkpoint that was loaded, or 0, and the
      prompt made of its exact tokens and the tokens of the text behind it.
     */
    method TryLoad(prompt: Bytes, quantBits: int, modelId: int, ctxSize: nat, now: nat, stuck: set<string>, out: B.TokenVec)
      returns (loaded: nat)
      requires now < U64 && |vocab.specials| == T.MARKERS
      modifies this`entry, this`dir, out
      ensures enabled && (quantBits == 2 || quantBits == 4) ==> Lists(old(dir), old(dir).Keys, entry)
      ensures loaded == 0 ==> out.items == []
      ensures loaded > 0 <==>
              enabled && (quantBits == 2 || quantBits == 4)
              && exists i: nat :: BestFor(entry, i, prompt, modelId, quantBits, ctxSize) && Loads(old(dir), entry[i], modelId, prompt)
      ensures loaded > 0 ==> exists i: nat ::
                && BestFor(entry, i, prompt, modelId, quantBits, ctxSize) && LoadedFrom(old(dir), entry[i], modelId, prompt, loaded, out.items)
                && dir == HitCounted(old(dir), entry[i].name, now)
      ensures loaded == 0 ==> dir == old(dir) || exists i: nat ::
                BestFor(entry, i, prompt, modelId, quantBits, ctxSize) && entry[i].name !in stuck && dir == old(dir) - {entry[i].name}
      ensures OwnTexts(old(dir)) ==> OwnTexts(dir)
      ensures old(WithinBudget()) ==> WithinBudget()
      ensures loaded > 0 && OwnTexts(old(dir)) && B.Loaded(vocab) && B.MergeClosed(vocab) && T.MarkersLoaded(vocab) ==>
                B.Rendered(vocab, out.items) == prompt
    {
      hide Total, OwnTexts, OwnText, BestFor, Loads, LoadedFrom, Lists, Serves, ReadHeader, ReadEntry, FillHeader, T.ChatTokens, B.Rendered, B.Loaded, B.MergeClosed, T.MarkersLoaded;
      out.items := [];
      if !enabled || (quantBits != 2 && quantBits != 4) {
        return 0;
      }
      var idx := FindTextPrefix(prompt, modelId, quantBits, ctxSize);
      if idx < 0 {
        NoBest(entry, prompt, modelId, quantBits, ctxSize);
        return 0;
      }
      BestHere(entry, idx, prompt, modelId, quantBits, ctxSize);
      loaded := LoadEntry(idx, prompt, modelId, now, stuck, out);
    }

    /** The rest of the load, once the best entry is known: check its file, restore it, count the hit. */
    method LoadEntry(idx: nat, prompt: Bytes, modelId: int, now: nat, stuck: set<string>, out: B.TokenVec) returns (loaded: nat)
      requires now < U64 && |vocab.specials| == T.MARKERS
      requires idx < |entry| && Lists(dir, dir.Keys, entry) && out.items == []
      modifies this`dir, out
      ensures loaded == 0 ==> out.items == []
      ensures loaded > 0 <==> Loads(old(dir), entry[idx], modelId, prompt)
      ensures loaded > 0 ==> LoadedFrom(old(dir), entry[idx], modelId, prompt, loaded, out.items)
      ensures loaded > 0 ==> dir == HitCounted(old(dir), entry[idx].name, now)
      ensures loaded == 0 ==> dir == old(dir) || (entry[idx].name !in stuck && dir == old(dir) - {entry[idx].name})
      ensures OwnTexts(old(dir)) ==> OwnTexts(dir)
      ensures old(WithinBudget()) ==> WithinBudget()
      ensures loaded > 0 && OwnTexts(old(dir)) && B.Loaded(vocab) && B.MergeClosed(vocab) && T.MarkersLoaded(vocab) ==>
                B.Rendered(vocab, out.items) == prompt
    {
      hide Total, OwnTexts, OwnText, Loads, LoadedFrom, Lists, ReadHeader, ReadEntry, FillHeader, T.ChatTokens, B.Rendered, B.Loaded, B.MergeClosed, T.MarkersLoaded;
      loaded := 0;
      var e := entry[idx];
      ghost var was := dir;
      InListing(dir, entry, idx);
      var f := dir[e.name];
      var r := CheckFile(f, e.sha, modelId, prompt);
      NotLoaded(was, e, modelId, prompt);
      if r.None? {
        return;
      }
      var h, n := r.value.0, r.value.1;
      var ts := restore(PayloadOf(f, h, n));
      if ts.None? {
        return;
      }
      if |ts.value| != h.tokens {
        FewerFiles(dir, dir - {e.name}, e.name);
        if e.name !in stuck {
          dir := dir - {e.name};
        }
        return;
      }
      loaded := h.tokens;
      GoodHeader(f);
      OwnOne(dir, e.name);
      T.BuildPrompt(vocab, ts.value, prompt[n..], out);
      LoadedPrompt(f, ts.value, n, prompt);
      LoadedIs(was, e, modelId, prompt, ts.value, n, out.items);
      TouchedDirectory(dir, e.name, h, now);
      SameRoom(dir, entry, idx, Touched(f, h, now));
      dir := dir[e.name := Touched(f, h, now)];
    }

    /** Loading the entry's file gives tokens. */
    ghost predicate Loads(d: Directory, e: Entry, modelId: int, prompt: Bytes) {
      e.name in d && TokensOf(d[e.name], e.sha, modelId, prompt).Some?
    }

    /** The prompt made from the entry's file: its exact tokens, and the tokens of the text behind its text. */
    ghost predicate LoadedFrom(d: Directory, e: Entry, modelId: int, prompt: Bytes, loaded: nat, items: seq<int>)
    {
      && Loads(d, e, modelId, prompt) && |vocab.specials| == T.MARKERS
      && var f := d[e.name];
      && var ts, n := TokensOf(f, e.sha, modelId, prompt).value, ReadHeader(f).value.1;
      && |ts| == loaded && items == ts + T.ChatTokens(vocab, prompt[n..], 0, 0)
    }

    lemma NoBest(es: seq<Entry>, prompt: Bytes, modelId: int, quantBits: int, ctxSize: nat)
      requires forall i :: 0 <= i < |es| ==> !Serves(es[i], prompt, modelId, quantBits, ctxSize)
      ensures forall i: nat :: !BestFor(es, i, prompt, modelId, quantBits, ctxSize)
    {
      hide Serves;
    }

    /** Whether anything is loaded depends on the best entry alone. */
    lemma BestHere(es: seq<Entry>, best: nat, prompt: Bytes, modelId: int, quantBits: int, ctxSize: nat)
      requires BestFor(es, best, prompt, modelId, quantBits, ctxSize)
      ensures forall i: nat :: BestFor(es, i, prompt, modelId, quantBits, ctxSize) ==> i == best
    {
      hide Serves, BestFor;
      forall i: nat | BestFor(es, i, prompt, modelId, quantBits, ctxSize)
        ensures i == best
      {
        OnlyBest(es, i, best, prompt, modelId, quantBits, ctxSize);
      }
    }

    lemma NotLoaded(d: Directory, e: Entry, modelId: int, prompt: Bytes)
      requires e.name in d
      ensures Loads(d, e, modelId, prompt) <==>
              Checked(d[e.name], e.sha, modelId, prompt)
              && var r := ReadHeader(d[e.name]).value;
              var ts := restore(PayloadOf(d[e.name], r.0, r.1)); ts.Some? && |ts.value| == r.0.tokens
    {
      hide ReadHeader;
    }

    lemma LoadedIs(d: Directory, e: Entry, modelId: int, prompt: Bytes, ts: seq<int>, n: nat, items: seq<int>)
      requires Loads(d, e, modelId, prompt) && |vocab.specials| == T.MARKERS
      requires TokensOf(d[e.name], e.sha, modelId, prompt) == Some(ts) && ReadHeader(d[e.name]).value.1 == n
      requires items == ts + T.ChatTokens(vocab, prompt[n..], 0, 0)
      ensures LoadedFrom(d, e, modelId, prompt, |ts|, items)
    {
      hide ReadHeader, T.ChatTokens;
    }

    lemma OwnOne(d: Directory, name: string)
      requires name in d
      ensures OwnTexts(d) ==> OwnText(d[name])
    {
    }

    /** Only one entry of a listing is the best. */
    lemma OnlyBest(es: seq<Entry>, i: nat, j: nat, prompt: Bytes, modelId: int, quantBits: int, ctxSize: nat)
      requires BestFor(es, i, prompt, modelId, quantBits, ctxSize) && BestFor(es, j, prompt, modelId, quantBits, ctxSize)
      ensures i == j
    {
      hide Serves;
    }

    static lemma InListing(d: Directory, es: seq<Entry>, i: nat)
      requires Lists(d, d.Keys, es) && i < |es|
      ensures es[i].name in d && ReadEntry(es[i].name, es[i].sha, d[es[i].name]).Some?
    {
      assert Listed(d, es[i].name) == Some(es[i]);
    }

    /** The file is for the model, and its text has the hash of its name and starts the prompt. */
    static ghost predicate Checked(f: Bytes, sha: string, modelId: int, prompt: Bytes) {
      match ReadHeader(f)
      case None => false
      case Some(r) =>
        && r.0.modelId == modelId % 256 && r.1 <= |prompt| && FIXED_HEADER + 4 + r.1 <= |f|
        && Sha1.HexDigest(TextOf(f, r.1)) == sha && TextOf(f, r.1) == prompt[..r.1]
    }

    /** The tokens that loading a checked file restores, when they are as many as its header says. */
    ghost function TokensOf(f: Bytes, sha: string, modelId: int, prompt: Bytes): Option<seq<int>> {
      if !Checked(f, sha, modelId, prompt) then None
      else
        var r := ReadHeader(f).value;
        var ts := restore(PayloadOf(f, r.0, r.1));
        if ts.Some? && |ts.value| == r.0.tokens then ts else None
    }

    /** The checks on the opened file: header, model, and that its text is hashed right and starts the prompt. */
    static method CheckFile(f: Bytes, sha: string, modelId: int, prompt: Bytes) returns (r: Option<(Header, nat)>)
      ensures r.Some? <==> Checked(f, sha, modelId, prompt)
      ensures r.Some? ==> ReadHeader(f) == r
    {
      r := ReadHeader(f);
      if r.None? || r.value.0.modelId != modelId % 256 || r.value.1 > |prompt| {
        return None;
      }
      var n := r.value.1;
      if |f| < FIXED_HEADER + 4 + n {
        return None;
      }
      var cached := TextOf(f, n);
      var textSha := Sha1.BytesHex(cached);
      if textSha != sha || !(cached <= prompt) {
        return None;
      }
    }

    /** ds4_kvstore_touch_file: one more hit, used now. */
    static function Touched(f: Bytes, h: Header, now: nat): Bytes
      requires |f| >= FIXED_HEADER
    {
      FillHeader(h.(hits := (h.hits + 1) % U32, lastUsed := now)) + f[FIXED_HEADER..]
    }

    /** The directory once the file of a hit has been touched. */
    static function HitCounted(d: Directory, name: string, now: nat): Directory {
      if name in d && ReadHeader(d[name]).Some? && |d[name]| >= FIXED_HEADER
        then d[name := Touched(d[name], ReadHeader(d[name]).value.0, now)] else d
    }

    /** A hit leaves the file as it was, but for one more hit, modulo 2^32, and the time. */
    static lemma TouchedReads(d: Directory, name: string, now: nat)
      requires name in d && ReadHeader(d[name]).Some? && now < U64
      ensures var d2 := HitCounted(d, name, now);
        && d2.Keys == d.Keys && (forall n :: n in d && n != name ==> d2[n] == d[n])
        && |d2[name]| == |d[name]| && d2[name][48..] == d[name][48..] && ReadHeader(d2[name]).Some?
        && var h, h2 := ReadHeader(d[name]).value.0, ReadHeader(d2[name]).value.0;
        && h2.hits == (h.hits + 1) % 0x1_0000_0000 && h2.lastUsed == now
        && h2.modelId == h.modelId && h2.quantBits == h.quantBits && h2.reason == h.reason && h2.extFlags == h.extFlags
        && h2.tokens == h.tokens && h2.ctxSize == h.ctxSize && h2.createdAt == h.createdAt && h2.payloadBytes == h.payloadBytes
        && ReadHeader(d2[name]).value.1 == ReadHeader(d[name]).value.1
    {
      hide FillHeader, ReadHeader;
      var h := ReadHeader(d[name]).value.0;
      ReadInRange(d[name]);
      GoodHeader(d[name]);
      HeaderReplaced(d[name], h.(hits := (h.hits + 1) % U32, lastUsed := now));
    }

    lemma TouchedDirectory(d: Directory, name: string, h: Header, now: nat)
      requires name in d && ReadHeader(d[name]).Some? && ReadHeader(d[name]).value.0 == h && now < U64
      ensures OwnTexts(d) ==> OwnTexts(d[name := Touched(d[name], h, now)])
    {
      hide FillHeader, ReadHeader, B.Rendered;
      var f := d[name];
      var h2 := h.(hits := (h.hits + 1) % U32, lastUsed := now);
      ReadInRange(f);
      GoodHeader(f);
      HeaderReplaced(f, h2);
      SameParts(f, Touched(f, h, now), h, ReadHeader(f).value.1, h2);
    }

    /** Overwriting a listed file with one of its length takes no more room. */
    static lemma SameRoom(d: Directory, es: seq<Entry>, i: nat, f: Bytes)
      requires Lists(d, d.Keys, es) && i < |es| && es[i].name in d && |f| == |d[es[i].name]|
      ensures Total(d[es[i].name := f]) <= Total(d)
    {
      hide Total, ReadEntry, ShaOfName;
      assert Listed(d, es[i].name) == Some(es[i]);
      TotalWrite(d, es[i].name, f);
    }

    static lemma GoodHeader(f: Bytes)
      requires ReadHeader(f).Some?
      ensures |f| >= FIXED_HEADER + 4
      ensures var h := ReadHeader(f).value.0; h.tokens != 0 && (h.quantBits == 2 || h.quantBits == 4)
    {
      hide Get;
    }

    static lemma SameParts(f: Bytes, f2: Bytes, h: Header, n: nat, h2: Header)
      requires |f2| == |f| >= FIXED_HEADER + 4 && f2[FIXED_HEADER..] == f[FIXED_HEADER..] && h2.payloadBytes == h.payloadBytes
      ensures FIXED_HEADER + 4 + n <= |f| ==> TextOf(f2, n) == TextOf(f, n) && PayloadOf(f2, h2, n) == PayloadOf(f, h, n)
    {
      if FIXED_HEADER + 4 + n <= |f| {
        var at, m := FIXED_HEADER + 4 + n, |PayloadOf(f, h, n)|;
        Behind(f, f2, FIXED_HEADER + 4, at);
        Behind(f, f2, at, at + m);
        assert PayloadOf(f, h, n) == f[at..at + m] && PayloadOf(f2, h2, n) == f2[at..at + m];
      }
    }

    static lemma Behind(f: Bytes, f2: Bytes, a: nat, b: nat)
      requires |f2| == |f| >= FIXED_HEADER && f2[FIXED_HEADER..] == f[FIXED_HEADER..] && FIXED_HEADER <= a <= b <= |f|
      ensures f2[a..b] == f[a..b]
    {
      var r, r2 := f[FIXED_HEADER..], f2[FIXED_HEADER..];
      assert r[a - FIXED_HEADER..b - FIXED_HEADER] == f[a..b];
      assert r2[a - FIXED_HEADER..b - FIXED_HEADER] == f2[a..b];
    }

    /** The effective prompt of a checkpoint stored under its own text renders to the prompt. */
    lemma LoadedPrompt(f: Bytes, ts: seq<int>, n: nat, prompt: Bytes)
      requires |vocab.specials| == T.MARKERS && n <= |prompt|
      requires ReadHeader(f).Some? && ReadHeader(f).value.1 == n && FIXED_HEADER + 4 + n <= |f|
      requires restore(PayloadOf(f, ReadHeader(f).value.0, n)) == Some(ts) && TextOf(f, n) == prompt[..n]
      ensures OwnText(f) && B.Loaded(vocab) && B.MergeClosed(vocab) && T.MarkersLoaded(vocab) ==>
                B.Rendered(vocab, ts + T.ChatTokens(vocab, prompt[n..], 0, 0)) == prompt
    {
      hide B.Loaded, B.MergeClosed, T.MarkersLoaded, T.ChatTokens, B.Rendered, ReadHeader;
      if OwnText(f) && B.Loaded(vocab) && B.MergeClosed(vocab) && T.MarkersLoaded(vocab) {
        T.PromptReturns(vocab, ts, prompt);
      }
    }

    // ------------------------------------------------------------- whole runs

    /** Counts and times fit their words, and a payload restores to the tokens it was made from. */
    ghost predicate Proper(op: Op) {
      match op
      case Save(p) =>
        && |p.tokens| < U32 && p.ctxSize < U32 && p.now < U64 && p.reason <= LAST_REASON
        && (p.payload.Some? && p.live.Some? ==> restore(p.payload.value) == p.live)
      case Load(_, _, _, _, now) => now < U64
    }

    static predicate OwnKey(op: Op) {
      op.Save? ==> op.p.textOverride.None? || op.p.textOverride.value == []
    }

    /** Saving p came to ok and turned directory d into d2. */
    ghost predicate Saves(d: Directory, p: Saving, ok: bool, d2: Directory)
      reads this`enabled, this`minTokens, this`rejectDifferentQuant, this`budget
    {
      && (ok <==> Storable(p) && (StoredIn(d, p) || Writable(p)))
      && (ok && StoreTokens(p) != [] ==> NameFor(p) in d2 && HoldsText(d2[NameFor(p)], StoreText(p)))
      && (ok && !StoredIn(d, p) ==> NameFor(p) in d2 && d2[NameFor(p)] == FileFor(p))
      && (ok && !StoredIn(d, p) && StoreTokens(p) != [] ==> Records(d2[NameFor(p)], p))
      && (forall n :: n in d2 && n != NameFor(p) ==> n in d && d2[n] == d[n])
      && (if Storable(p) && !StoredIn(d, p) then StoresNew(d, p, ok, d2) else d2 == d)
    }

    /** Loading came to count and items and turned directory d, listed as es, into d2. */
    ghost predicate Answers(d: Directory, es: seq<Entry>, op: Op, count: nat, items: seq<int>, d2: Directory)
      requires op.Load?
      reads this`enabled, this`minTokens, this`rejectDifferentQuant
    {
      var on := enabled && (op.quantBits == 2 || op.quantBits == 4);
      && (on ==> Lists(d, d.Keys, es))
      && (count > 0 <==> on && exists i: nat :: Best(es, i, op) && Loads(d, es[i], op.modelId, op.prompt))
      && (count > 0 ==> exists i: nat :: Best(es, i, op) && LoadedFrom(d, es[i], op.modelId, op.prompt, count, items)
                                         && d2 == HitCounted(d, es[i].name, op.now))
      && (count == 0 ==> items == [] && (d2 == d || exists i: nat :: Best(es, i, op) && d2 == d - {es[i].name}))
    }

    ghost predicate Best(es: seq<Entry>, i: nat, op: Op)
      requires op.Load?
      reads this`minTokens, this`rejectDifferentQuant
      ensures Best(es, i, op) ==> i < |es|
    {
      BestFor(es, i, op.prompt, op.modelId, op.quantBits, op.ctxSize)
    }

    /** A request came to an outcome and turned directory d into d2. */
    ghost predicate Did(d: Directory, op: Op, o: Outcome, d2: Directory)
      reads this`enabled, this`minTokens, this`rejectDifferentQuant, this`budget
    {
      match op
      case Save(p) => o.Saved? && Saves(d, p, o.ok, d2)
      case Load(_, _, _, _, _) => o.Loaded? && exists es :: Answers(d, es, op, o.count, o.items, d2)
    }

    /** A load that hit built a prompt that renders to the one asked for. */
    ghost predicate Renders(op: Op, o: Outcome) {
      op.Load? && o.Loaded? && o.count > 0 ==> B.Rendered(vocab, o.items) == op.prompt
    }

    /** One request. */
    method Request(op: Op, out: B.TokenVec) returns (o: Outcome)
      requires budget < U64 && |vocab.specials| == T.MARKERS && Proper(op)
      modifies this`dir, this`entry, out
      ensures Did(old(dir), op, o, dir)
      ensures old(WithinBudget()) ==> WithinBudget()
      ensures OwnTexts(old(dir)) && OwnKey(op) ==> OwnTexts(dir)
      ensures OwnTexts(old(dir)) && Complete(vocab) ==> Renders(op, o)
    {
      hide Total, OwnText, OwnTexts, B.Rendered, B.Loaded, B.MergeClosed, T.MarkersLoaded, BestFor, Loads, LoadedFrom;
      hide Storable, StoredIn, StoresNew, Records, Writable, NameFor, FileFor, HoldsText, Lists, HitCounted;
      match op {
        case Save(p) =>
          var ok := Store(p, {});
          o := Saved(ok);
        case Load(prompt, quantBits, modelId, ctxSize, now) =>
          var count := TryLoad(prompt, quantBits, modelId, ctxSize, now, {}, out);
          o := Loaded(count, out.items);
          assert Answers(old(dir), entry, op, count, out.items, dir);
      }
    }

    /**
      A store is opened and then asked for any mix of stores and loads: every request does what it does on
      its own to the directory that the requests before it leave. The files fit the budget when the store
      is opened and after every request; and if every checkpoint was and is stored under its own text,
      every load that hits builds a prompt that renders to the one asked for.
     */
    method Serve(budgetMb: nat, rejectDifferentQuant: bool, minTokens: int, openedAt: nat, ops: seq<Op>, out: B.TokenVec)
      returns (outcomes: seq<Outcome>, ghost dirs: seq<Directory>)
      requires budgetMb < U64 && |vocab.specials| == T.MARKERS && forall i :: 0 <= i < |ops| ==> Proper(ops[i])
      modifies this, out
      ensures enabled && this.rejectDifferentQuant == rejectDifferentQuant && this.minTokens == minTokens
      ensures budget == (if budgetMb == 0 then DEFAULT_MB else budgetMb) * 0x10_0000 % U64
      ensures |outcomes| == |ops| && |dirs| == |ops| + 1 && dirs[|ops|] == dir
      ensures forall n :: n in dirs[0] ==> n in old(dir) && dirs[0][n] == old(dir)[n]
      ensures forall i :: 0 <= i < |ops| ==> Did(dirs[i], ops[i], outcomes[i], dirs[i + 1])
      ensures Total(old(dir)) < U64 ==> forall i :: 0 <= i <= |ops| ==> Fits(dirs[i])
      ensures OwnTexts(old(dir)) && (forall i :: 0 <= i < |ops| ==> OwnKey(ops[i])) ==>
                forall i :: 0 <= i <= |ops| ==> OwnTexts(dirs[i])
      ensures OwnTexts(old(dir)) && (forall i :: 0 <= i < |ops| ==> OwnKey(ops[i])) && Complete(vocab) ==>
                forall i :: 0 <= i < |ops| ==> Renders(ops[i], outcomes[i])
    {
      hide Total, OwnText, OwnTexts, Complete, Did, Renders, Proper;
      ghost var was := dir;
      Open(budgetMb, rejectDifferentQuant, minTokens, openedAt, {});
      FewerTexts(was, dir);
      outcomes, dirs := Run(ops, out);
    }

    /** The vocabulary is loaded, closed under merges, and has its markers. */
    static ghost predicate Complete(v: B.Vocab) {
      |v.specials| == T.MARKERS && B.Loaded(v) && B.MergeClosed(v) && T.MarkersLoaded(v)
    }

    method Run(ops: seq<Op>, out: B.TokenVec) returns (outcomes: seq<Outcome>, ghost dirs: seq<Directory>)
      requires budget < U64 && |vocab.specials| == T.MARKERS && forall i :: 0 <= i < |ops| ==> Proper(ops[i])
      modifies this`dir, this`entry, out
      ensures |outcomes| == |ops| && |dirs| == |ops| + 1 && dirs[0] == old(dir) && dirs[|ops|] == dir
      ensures forall i :: 0 <= i < |ops| ==> Did(dirs[i], ops[i], outcomes[i], dirs[i + 1])
      ensures old(WithinBudget()) ==> forall i :: 0 <= i <= |ops| ==> Fits(dirs[i])
      ensures OwnTexts(old(dir)) && (forall i :: 0 <= i < |ops| ==> OwnKey(ops[i])) ==>
                forall i :: 0 <= i <= |ops| ==> OwnTexts(dirs[i])
      ensures OwnTexts(old(dir)) && (forall i :: 0 <= i < |ops| ==> OwnKey(ops[i])) && Complete(vocab) ==>
                forall i :: 0 <= i < |ops| ==> Renders(ops[i], outcomes[i])
    {
      hide Total, OwnTexts, Complete, Did, Renders, Proper, Fits, OwnKey;
      outcomes, dirs := [], [dir];
      ghost var own := OwnTexts(dir) && forall i :: 0 <= i < |ops| ==> OwnKey(ops[i]);
      for n := 0 to |ops|
        invariant |outcomes| == n && |dirs| == n + 1 && dirs[0] == old(dir) && dirs[n] == dir
        invariant forall i :: 0 <= i < n ==> Did(dirs[i], ops[i], outcomes[i], dirs[i + 1])
        invariant old(WithinBudget()) ==> forall i :: 0 <= i <= n ==> Fits(dirs[i])
        invariant own ==> forall i :: 0 <= i <= n ==> OwnTexts(dirs[i])
        invariant own && Complete(vocab) ==> forall i :: 0 <= i < n ==> Renders(ops[i], outcomes[i])
      {
        assert own ==> OwnTexts(dirs[n]) && OwnKey(ops[n]);
        assert old(WithinBudget()) ==> Fits(dirs[n]);
        var o := Request(ops[n], out);
        outcomes, dirs := outcomes + [o], dirs + [dir];
      }
    }

    lemma FewerTexts(d: Directory, d2: Directory)
      requires forall n :: n in d2 ==> n in d && d2[n] == d[n]
      ensures OwnTexts(d) ==> OwnTexts(d2)
    {
      hide OwnText;
    }

    // ------------------------------------------------- a store, and a load after it

    /** The file of a new saving is in the listing, and serves just the prompts and sessions it should. */
    lemma SavedServes(d: Directory, es: seq<Entry>, p: Saving, prompt: Bytes, modelId: int, quantBits: int, ctxSize: nat) returns (i: nat)
      requires NameFor(p) in d && Records(d[NameFor(p)], p) && Lists(d, d.Keys, es) && FileFits(|StoreText(p)|, |p.payload.value|)
      requires StoreText(p) <= prompt
      ensures i < |es| && es[i].name == NameFor(p) && es[i].textBytes == |StoreText(p)|
      ensures es[i].header.tokens == |StoreTokens(p)| && es[i].header.ctxSize == p.ctxSize
      ensures Serves(es[i], prompt, modelId, quantBits, ctxSize)
         <==> modelId % 256 == p.modelId % 256 && ctxSize % U32 >= p.ctxSize
              && (rejectDifferentQuant ==> quantBits % 256 == p.quantBits) && Signed(|StoreTokens(p)|) >= minTokens
    {
      hide ReadHeader, StoreText, Signed, Sha1.HexDigest, ShaOfName;
      var name, sha := NameFor(p), Sha1.HexDigest(StoreText(p));
      NameSpellsSha(StoreText(p));
      FitsExactly(|StoreText(p)|, |p.payload.value|);
      assert Listed(d, name) == Some(Entry(name, sha, ReadHeader(d[name]).value.0, |StoreText(p)|, |d[name]|));
      i :| 0 <= i < |es| && es[i].name == name;
      assert Listed(d, name) == Some(es[i]);
      assert prompt[..|StoreText(p)|] == StoreText(p);
    }

    static lemma NameSpellsSha(text: Bytes)
      ensures ShaOfName(Sha1.HexDigest(text) + ".kv") == Some(Sha1.HexDigest(text))
    {
      var sha := Sha1.HexDigest(text);
      var name := sha + ".kv";
      Sha1.DigestLower(text);
      hide Sha1.HexDigest;
      assert name[40..] == ".kv" && name[..40] == sha;
      assert Lower(sha) == sha;
    }

    lemma {:induction false} SomeBestFor(es: seq<Entry>, k: nat, prompt: Bytes, modelId: int, quantBits: int, ctxSize: nat) returns (i: nat)
      requires k < |es| && Serves(es[k], prompt, modelId, quantBits, ctxSize)
      ensures BestFor(es, i, prompt, modelId, quantBits, ctxSize) && es[i].textBytes >= es[k].textBytes
      decreases |es|
    {
      hide Serves;
      var n := |es| - 1;
      if j :| 0 <= j < n && Serves(es[j], prompt, modelId, quantBits, ctxSize) {
        i := SomeBestFor(es[..n], if k < n then k else j, prompt, modelId, quantBits, ctxSize);
        assert forall j :: 0 <= j < n ==> es[..n][j] == es[j];
        if Serves(es[n], prompt, modelId, quantBits, ctxSize) && Longer(es[n], es[i]) {
          i := n;
        }
      } else {
        i := n;
      }
    }

    /** The file of a saving, opened under its own name, gives the saving's tokens. */
    lemma SavedRestores(d: Directory, e: Entry, p: Saving, modelId: int, prompt: Bytes)
      requires e.name in d && Records(d[e.name], p) && e.sha == Sha1.HexDigest(StoreText(p))
      requires restore(p.payload.value) == Some(StoreTokens(p)) && StoreText(p) <= prompt && modelId % 256 == p.modelId % 256
      ensures TokensOf(d[e.name], e.sha, modelId, prompt) == Some(StoreTokens(p))
    {
      hide ReadHeader, StoreText, Sha1.HexDigest;
      var f, n := d[e.name], |StoreText(p)|;
      assert prompt[..n] == StoreText(p) && TextOf(f, n) == StoreText(p);
      WholePayload(f, ReadHeader(f).value.0, n, p.payload.value);
    }

    lemma SavedName(d: Directory, es: seq<Entry>, i: nat, p: Saving)
      requires Lists(d, d.Keys, es) && i < |es| && es[i].name == NameFor(p)
      ensures es[i].name in d && es[i].sha == Sha1.HexDigest(StoreText(p))
    {
      hide ReadHeader, StoreText, Sha1.HexDigest, ShaOfName;
      NameSpellsSha(StoreText(p));
      assert Listed(d, es[i].name) == Some(es[i]);
    }

    lemma SavedAnswer(d: Directory, e: Entry, p: Saving, modelId: int, prompt: Bytes, count: nat, items: seq<int>)
      requires e.name in d && Records(d[e.name], p) && TokensOf(d[e.name], e.sha, modelId, prompt) == Some(StoreTokens(p))
      requires |StoreText(p)| <= |prompt|
      ensures Loads(d, e, modelId, prompt)
      ensures LoadedFrom(d, e, modelId, prompt, count, items) ==>
                count == |StoreTokens(p)| && items == StoreTokens(p) + T.ChatTokens(vocab, prompt[|StoreText(p)|..], 0, 0)
    {
      hide ReadHeader, StoreText, TokensOf, T.ChatTokens;
    }

    lemma SavedNew(d: Directory, p: Saving, d2: Directory)
      requires Proper(Save(p)) && Did(d, Save(p), Saved(true), d2) && !StoredIn(d, p) && StoreTokens(p) != []
      ensures NameFor(p) in d2 && Records(d2[NameFor(p)], p) && FileFits(|StoreText(p)|, |p.payload.value|)
      ensures enabled && (p.quantBits == 2 || p.quantBits == 4) && restore(p.payload.value) == Some(StoreTokens(p))
    {
      hide ReadHeader, StoreText, NameFor, FileFits, FileFor, HoldsText, StoresNew, Records, StoredIn, StoreTokens;
    }

    /**
      A text newly stored serves a load of a prompt that begins with it, for the same model and quantization
      and a context no smaller: the load goes to an entry at least as long, and if that is the stored one, it
      restores exactly the stored tokens.
     */
    lemma SavedIsLoaded(d: Directory, p: Saving, d2: Directory, op: Op, o: Outcome, d3: Directory) returns (es: seq<Entry>, i: nat)
      requires Proper(Save(p)) && Did(d, Save(p), Saved(true), d2) && !StoredIn(d, p) && StoreTokens(p) != []
      requires op.Load? && Did(d2, op, o, d3) && |vocab.specials| == T.MARKERS
      requires StoreText(p) <= op.prompt && op.modelId % 256 == p.modelId % 256 && op.quantBits == p.quantBits
      requires p.ctxSize <= op.ctxSize < U32 && Signed(|StoreTokens(p)|) >= minTokens
      ensures Lists(d2, d2.Keys, es) && Best(es, i, op) && es[i].textBytes >= |StoreText(p)|
      ensures es[i].name == NameFor(p) ==>
                && o == Loaded(|StoreTokens(p)|, StoreTokens(p) + T.ChatTokens(vocab, op.prompt[|StoreText(p)|..], 0, 0))
                && d3 == HitCounted(d2, NameFor(p), op.now)
    {
      hide ReadHeader, StoreText, NameFor, Lists, T.ChatTokens, Serves, BestFor, Loads, LoadedFrom, FileFits, HitCounted, FileFor, HoldsText;
      hide StoresNew, Records, TokensOf, Signed, Saves, StoredIn, Proper, StoreTokens, Storable;
      SavedNew(d, p, d2);
      es :| Answers(d2, es, op, o.count, o.items, d3);
      var k := SavedServes(d2, es, p, op.prompt, op.modelId, op.quantBits, op.ctxSize);
      i := SomeBestFor(es, k, op.prompt, op.modelId, op.quantBits, op.ctxSize);
      BestHere(es, i, op.prompt, op.modelId, op.quantBits, op.ctxSize);
      if es[i].name == NameFor(p) {
        SavedName(d2, es, i, p);
        SavedRestores(d2, es[i], p, op.modelId, op.prompt);
        SavedAnswer(d2, es[i], p, op.modelId, op.prompt, o.count, o.items);
      }
    }

    /** Storing the same text again for such a session finds it stored; for others it is written anew. */
    lemma SavedTwice(d: Directory, p: Saving, p2: Saving)
      requires NameFor(p) in d && Records(d[NameFor(p)], p) && FileFits(|StoreText(p)|, |p.payload.value|)
      requires StoreText(p2) == StoreText(p) && |StoreText(p)| < U32
      ensures StoredIn(d, p2) <==> p2.modelId % 256 == p.modelId % 256 && p.ctxSize <= p2.ctxSize
                                   && (rejectDifferentQuant ==> p2.quantBits % 256 == p.quantBits)
    {
      hide ReadHeader, StoreText, Sha1.HexDigest;
      FitsExactly(|StoreText(p)|, |p.payload.value|);
    }

    /** With a smaller context it does not serve. */
    lemma SavedTooWide(d: Directory, p: Saving, es: seq<Entry>, i: nat, op: Op)
      requires NameFor(p) in d && Records(d[NameFor(p)], p) && Lists(d, d.Keys, es) && op.Load?
      requires op.ctxSize < p.ctxSize && i < |es| && es[i].name == NameFor(p)
      ensures !Best(es, i, op)
    {
      hide ReadHeader, StoreText, Signed, Sha1.HexDigest, ShaOfName;
      assert Listed(d, es[i].name) == Some(es[i]);
    }
  }
}
