/** The checkpoint directory: which files count, how much they take, and which one is evicted next. */
module KvDirectory {
  import opened Common
  import opened CheckpointFile
  import opened LittleEndian

  /** File contents by file name. */
  type Directory = map<string, Bytes>

  datatype Entry = Entry(name: string, sha: string, header: Header, textBytes: nat, fileSize: nat)

  predicate HexChar(c: char) {
    '0' <= c <= '9' || 'a' <= c <= 'f' || 'A' <= c <= 'F'
  }

  function LowerChar(c: char): char {
    if 'A' <= c <= 'Z' then c - 'A' + 'a' else c
  }

  function Lower(s: string): (r: string)
    ensures |r| == |s|
  {
    seq(|s|, i requires 0 <= i < |s| => LowerChar(s[i]))
  }

  /** ds4_kvstore_sha_hex_name: the hash that a file name spells. */
  function ShaOfName(name: string): Option<string> {
    if |name| == 43 && name[40..] == ".kv" && (forall i :: 0 <= i < 40 ==> HexChar(name[i])) then Some(Lower(name[..40]))
    else None
  }

  /** ds4_kvstore_read_entry_file: a file counts if its header is valid and it is as long as the header says. */
  function ReadEntry(name: string, sha: string, f: Bytes): Option<Entry> {
    match ReadHeader(f)
    case None => None
    case Some(r) =>
      var fixed := FIXED_HEADER + 4;
      if U64 - 1 - fixed < r.1 || U64 - 1 - fixed - r.1 < r.0.payloadBytes then None
      else if |f| < fixed + r.1 + r.0.payloadBytes then None
      else Some(Entry(name, sha, r.0, r.1, |f|))
  }

  /** The test avoids an overflowing sum: header, text and payload must lie in the file and fit 64 bits. */
  lemma EntryExactly(name: string, sha: string, f: Bytes)
    ensures ReadEntry(name, sha, f).Some? <==>
              ReadHeader(f).Some?
              && var r := ReadHeader(f).value; 52 + r.1 + r.0.payloadBytes < U64 && 52 + r.1 + r.0.payloadBytes <= |f|
  {
    hide ReadHeader;
  }

  function Listed(d: Directory, name: string): Option<Entry> {
    if name !in d || ShaOfName(name).None? then None else ReadEntry(name, ShaOfName(name).value, d[name])
  }

  // ------------------------------------------------------------- total size

  ghost function SizeOf(d: Directory, name: string): nat {
    if Listed(d, name).Some? then |d[name]| else 0
  }

  ghost function SumOver(d: Directory, names: set<string>): nat {
    if names == {} then 0
    else
      var n :| n in names;
      SizeOf(d, n) + SumOver(d, names - {n})
  }

  /** The bytes taken by the valid checkpoint files. */
  ghost function Total(d: Directory): nat {
    SumOver(d, d.Keys)
  }

  lemma {:induction false} SumPick(d: Directory, names: set<string>, n: string)
    requires n in names
    ensures SumOver(d, names) == SizeOf(d, n) + SumOver(d, names - {n})
    decreases names
  {
    hide SizeOf;
    var m :| m in names && SumOver(d, names) == SizeOf(d, m) + SumOver(d, names - {m});
    if m != n {
      SumPick(d, names - {m}, n);
      SumPick(d, names - {n}, m);
      assert names - {m} - {n} == names - {n} - {m};
    }
  }

  lemma {:induction false} SumSame(d: Directory, d2: Directory, names: set<string>)
    requires forall n :: n in names ==> SizeOf(d2, n) == SizeOf(d, n)
    ensures SumOver(d2, names) == SumOver(d, names)
    decreases names
  {
    hide SizeOf;
    if names != {} {
      var n :| n in names;
      SumPick(d, names, n);
      SumPick(d2, names, n);
      SumSame(d, d2, names - {n});
    }
  }

  /** Removing a file gives back what it took. */
  lemma TotalRemove(d: Directory, n: string)
    requires n in d
    ensures Total(d - {n}) == Total(d) - SizeOf(d, n)
    ensures SizeOf(d, n) <= Total(d)
  {
    SumPick(d, d.Keys, n);
    assert (d - {n}).Keys == d.Keys - {n};
    SumSame(d, d - {n}, d.Keys - {n});
  }

  /** Writing a file takes at most its length more. */
  lemma TotalWrite(d: Directory, n: string, f: Bytes)
    ensures Total(d[n := f]) <= Total(d) + |f|
    ensures n in d ==> Total(d[n := f]) == Total(d) - SizeOf(d, n) + SizeOf(d[n := f], n)
  {
    var d2 := d[n := f];
    assert d2.Keys == d.Keys + {n};
    SumPick(d2, d2.Keys, n);
    assert d2.Keys - {n} == d.Keys - {n};
    SumSame(d, d2, d.Keys - {n});
    if n in d {
      SumPick(d, d.Keys, n);
    } else {
      assert d.Keys - {n} == d.Keys;
    }
  }

  // --------------------------------------------------------------- listings

  function SumEntries(es: seq<Entry>): nat {
    if es == [] then 0 else es[0].fileSize + SumEntries(es[1..])
  }

  /** The entries are the valid files among `names`, each once. */
  ghost predicate Lists(d: Directory, names: set<string>, es: seq<Entry>) {
    && (forall i :: 0 <= i < |es| ==> es[i].name in names && Listed(d, es[i].name) == Some(es[i]))
    && (forall i, j :: 0 <= i < j < |es| ==> es[i].name != es[j].name)
    && (forall n :: n in names && Listed(d, n).Some? ==> exists i :: 0 <= i < |es| && es[i].name == n)
  }

  lemma {:induction false} SumConcat(a: seq<Entry>, b: seq<Entry>)
    ensures SumEntries(a + b) == SumEntries(a) + SumEntries(b)
  {
    if a == [] {
      assert a + b == b;
    } else {
      assert (a + b)[1..] == a[1..] + b;
      SumConcat(a[1..], b);
    }
  }

  lemma SumNext(es: seq<Entry>, i: nat)
    requires i < |es|
    ensures SumEntries(es[..i + 1]) == SumEntries(es[..i]) + es[i].fileSize
  {
    SumConcat(es[..i], [es[i]]);
    assert es[..i + 1] == es[..i] + [es[i]];
    assert [es[i]][1..] == [];
  }

  lemma ListsNone(d: Directory)
    ensures Lists(d, {}, []) && d.Keys - d.Keys == {}
  {
  }

  function Without(es: seq<Entry>, i: nat): (r: seq<Entry>)
    requires i < |es|
    ensures |r| == |es| - 1
  {
    es[..i] + es[i + 1..]
  }

  lemma SumWithout(es: seq<Entry>, i: nat)
    requires i < |es|
    ensures SumEntries(es) == es[i].fileSize + SumEntries(Without(es, i))
  {
    SumConcat(es[..i], es[i..]);
    SumConcat(es[..i], es[i + 1..]);
    assert es == es[..i] + es[i..] && es[i..][1..] == es[i + 1..];
  }

  /** A listing accounts for every byte. */
  lemma {:induction false} ListingTotal(d: Directory, names: set<string>, es: seq<Entry>)
    requires Lists(d, names, es)
    ensures SumEntries(es) == SumOver(d, names)
    decreases |es|
  {
    if es == [] {
      SumNothing(d, names);
    } else {
      var n := es[0].name;
      SumPick(d, names, n);
      assert Listed(d, n) == Some(es[0]);
      forall k | k in names - {n} && Listed(d, k).Some?
        ensures exists i :: 0 <= i < |es[1..]| && es[1..][i].name == k
      {
        var i :| 0 <= i < |es| && es[i].name == k;
        assert es[1..][i - 1].name == k;
      }
      ListingTotal(d, names - {n}, es[1..]);
    }
  }

  lemma {:induction false} SumNothing(d: Directory, names: set<string>)
    requires forall n :: n in names ==> Listed(d, n).None?
    ensures SumOver(d, names) == 0
    decreases names
  {
    if names != {} {
      var n :| n in names;
      SumPick(d, names, n);
      SumNothing(d, names - {n});
    }
  }

  /** Looking at one more name. */
  lemma ListsMore(d: Directory, names: set<string>, n: string, es: seq<Entry>)
    requires Lists(d, names, es) && n !in names
    ensures Listed(d, n).None? ==> Lists(d, names + {n}, es)
    ensures Listed(d, n).Some? ==> Lists(d, names + {n}, es + [Listed(d, n).value])
  {
    hide ShaOfName, ReadHeader;
    if Listed(d, n).Some? {
      var w := es + [Listed(d, n).value];
      assert w[|es|].name == n;
      forall k | k in names + {n} && Listed(d, k).Some?
        ensures exists i :: 0 <= i < |w| && w[i].name == k
      {
        if k != n {
          var i :| 0 <= i < |es| && es[i].name == k;
          assert w[i].name == k;
        }
      }
    }
  }

  /** What is left of a listing when one of its files is removed. */
  lemma ListsWithout(d: Directory, es: seq<Entry>, v: nat)
    requires Lists(d, d.Keys, es) && v < |es|
    ensures es[v].name in d
    ensures var d2 := d - {es[v].name};
      Lists(d2, d2.Keys, Without(es, v))
  {
    hide ShaOfName, ReadEntry;
    var n := es[v].name;
    var d2 := d - {n};
    var w := Without(es, v);
    forall k | k in d2 && Listed(d2, k).Some?
      ensures exists i :: 0 <= i < |w| && w[i].name == k
    {
      assert Listed(d, k) == Listed(d2, k);
      var i :| 0 <= i < |es| && es[i].name == k;
      assert w[if i < v then i else i - 1].name == k;
    }
    forall i | 0 <= i < |w|
      ensures w[i].name in d2 && Listed(d2, w[i].name) == Some(w[i])
    {
      assert w[i] == es[if i < v then i else i + 1];
    }
  }

  // ----------------------------------------------------------------- eviction

  /** What the store is about to write, for the eviction score. */
  datatype Incoming = Incoming(text: Bytes, modelId: byte, quantBits: byte, ctxSize: nat, rejectDifferentQuant: bool)

  /** The score of an entry at a time; only comparisons of scores matter. */
  type Score = (Entry, nat, Option<Incoming>) -> real

  /** Entry a goes before entry b: a lower score, or the same score and an older last use. */
  predicate Before(score: Score, now: nat, inc: Option<Incoming>, a: Entry, b: Entry) {
    var sa, sb := score(a, now, inc), score(b, now, inc);
    sa < sb || (sa == sb && a.header.lastUsed < b.header.lastUsed)
  }

  /** Entry v is the first of those that nothing goes before. */
  ghost predicate IsVictim(score: Score, now: nat, inc: Option<Incoming>, es: seq<Entry>, v: nat) {
    && v < |es|
    && (forall i :: 0 <= i < |es| ==> !Before(score, now, inc, es[i], es[v]))
    && (forall i :: 0 <= i < v ==> Before(score, now, inc, es[v], es[i]))
  }

  /** From listing es, the files in `gone` were evicted one by one, each the victim of a listing above the target. */
  ghost predicate Evicts(score: Score, now: nat, inc: Option<Incoming>, es: seq<Entry>, target: int, gone: seq<Entry>, rest: seq<Entry>)
    decreases |gone|
  {
    if gone == [] then rest == es
    else
      var n := |gone| - 1;
      exists mid, v: nat :: EvictsLast(score, now, inc, target, mid, v, gone[n], rest)
                            && Evicts(score, now, inc, es, target, gone[..n], mid)
  }

  ghost predicate EvictsLast(score: Score, now: nat, inc: Option<Incoming>, target: int, mid: seq<Entry>, v: nat, e: Entry, rest: seq<Entry>) {
    SumEntries(mid) > target && IsVictim(score, now, inc, mid, v) && e == mid[v] && rest == Without(mid, v)
  }

  lemma EvictsNone(score: Score, now: nat, inc: Option<Incoming>, es: seq<Entry>, target: int)
    ensures Evicts(score, now, inc, es, target, [], es)
  {
  }

  lemma EvictsMore(score: Score, now: nat, inc: Option<Incoming>, es: seq<Entry>, target: int, gone: seq<Entry>, mid: seq<Entry>, v: nat)
    requires Evicts(score, now, inc, es, target, gone, mid)
    requires SumEntries(mid) > target && IsVictim(score, now, inc, mid, v)
    ensures Evicts(score, now, inc, es, target, gone + [mid[v]], Without(mid, v))
  {
    hide IsVictim;
    VictimInRange(score, now, inc, mid, v);
    var g := gone + [mid[v]];
    assert g[..|g| - 1] == gone;
    assert EvictsLast(score, now, inc, target, mid, v, g[|g| - 1], Without(mid, v));
  }

  lemma VictimInRange(score: Score, now: nat, inc: Option<Incoming>, es: seq<Entry>, v: nat)
    requires IsVictim(score, now, inc, es, v)
    ensures v < |es|
  {
  }

  lemma NoNames(d: Directory)
    ensures d - Names([]) == d
  {
  }

  lemma NamesMore(d: Directory, gone: seq<Entry>, e: Entry)
    ensures d - Names(gone) - {e.name} == d - Names(gone + [e])
  {
    var g := gone + [e];
    assert g[|gone|] == e;
    forall n
      ensures n in Names(g) <==> n in Names(gone) || n == e.name
    {
      if n in Names(gone) {
        var i :| 0 <= i < |gone| && gone[i].name == n;
        assert g[i].name == n;
      }
    }
  }

  ghost function Names(es: seq<Entry>): set<string> {
    set i | 0 <= i < |es| :: es[i].name
  }

  /**
    The 64-bit sum of the listed sizes is not their sum from 2^64 on: three files, none longer than a signed
    64-bit size can say and the last one a bare header, add up to zero.
   */
  lemma SumWraps(e: Entry)
    ensures var es := [e.(fileSize := 0x7fff_ffff_ffff_ffff), e.(name := e.name + "x", fileSize := 0x7fff_ffff_ffff_ffcd),
                       e.(name := e.name + "xx", fileSize := FIXED_HEADER + 4)];
      SumEntries(es) == U64 && SumEntries(es) % U64 == 0 && forall i :: 0 <= i < 3 ==> es[i].fileSize < 0x8000_0000_0000_0000
  {
    var es := [e.(fileSize := 0x7fff_ffff_ffff_ffff), e.(name := e.name + "x", fileSize := 0x7fff_ffff_ffff_ffcd),
               e.(name := e.name + "xx", fileSize := FIXED_HEADER + 4)];
    SumConcat(es[..1], es[1..]);
    SumConcat(es[1..][..1], es[1..][1..]);
    assert es == es[..1] + es[1..] && es[1..] == es[1..][..1] + es[1..][1..];
  }
}
