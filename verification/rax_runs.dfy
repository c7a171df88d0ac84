/** What a seek followed by repeated steps lists: every wanted key once, in order. */
module RaxRuns {
  import opened RaxTree
  import opened LexOrder
  import opened RaxOrder
  import opened RaxSeek
  import opened RaxIteration

  /** The first keys of a run: the least wanted one, and then each the nearest after the one listed last. */
  ghost predicate ForwardPart(m: map<Key, Val>, want: iset<Key>, ks: seq<Key>) {
    && |ks| > 0 && IsLeast(m, want, ks[0])
    && forall i :: 0 <= i < |ks| - 1 ==> IsLeast(m, Wanted(Greater, ks[i]), ks[i + 1])
  }

  /** The keys shown by a seek and then raxNext until it reports the end. */
  ghost predicate ForwardRun(m: map<Key, Val>, want: iset<Key>, ks: seq<Key>) {
    ForwardPart(m, want, ks) && NoneWanted(m, Wanted(Greater, ks[|ks| - 1]))
  }

  /** The first keys of a run: the greatest wanted one, and then each the nearest before the one listed last. */
  ghost predicate BackwardPart(m: map<Key, Val>, want: iset<Key>, ks: seq<Key>) {
    && |ks| > 0 && IsGreatest(m, want, ks[0])
    && forall i :: 0 <= i < |ks| - 1 ==> IsGreatest(m, Wanted(Less, ks[i]), ks[i + 1])
  }

  /** The keys shown by a seek and then raxPrev until it reports the end. */
  ghost predicate BackwardRun(m: map<Key, Val>, want: iset<Key>, ks: seq<Key>) {
    BackwardPart(m, want, ks) && NoneWanted(m, Wanted(Less, ks[|ks| - 1]))
  }

  lemma {:induction false} ForwardSorted(m: map<Key, Val>, want: iset<Key>, ks: seq<Key>, i: nat, j: nat)
    requires ForwardRun(m, want, ks) && i < j < |ks|
    ensures Lt(ks[i], ks[j])
    decreases j - i
  {
    assert IsLeast(m, Wanted(Greater, ks[j - 1]), ks[j]);
    if i < j - 1 {
      ForwardSorted(m, want, ks, i, j - 1);
      LtTransitive(ks[i], ks[j - 1], ks[j]);
    }
  }

  /** No key is skipped: what is not before the first key is shown from some place on. */
  lemma {:induction false} ForwardReaches(m: map<Key, Val>, want: iset<Key>, ks: seq<Key>, x: Key, i: nat)
    requires ForwardRun(m, want, ks) && x in m && i < |ks| && !Lt(x, ks[i])
    ensures x in ks[i..]
    decreases |ks| - i
  {
    LtTrichotomy(x, ks[i]);
    if x != ks[i] {
      assert x in Wanted(Greater, ks[i]);
      assert i < |ks| - 1;
      assert IsLeast(m, Wanted(Greater, ks[i]), ks[i + 1]);
      ForwardReaches(m, want, ks, x, i + 1);
    }
  }

  /** A forward run lists exactly the keys from its first key on, strictly ascending. */
  lemma ForwardRunLists(m: map<Key, Val>, want: iset<Key>, ks: seq<Key>)
    requires ForwardRun(m, want, ks)
    ensures forall i, j :: 0 <= i < j < |ks| ==> Lt(ks[i], ks[j])
    ensures forall x :: x in ks <==> x in m && !Lt(x, ks[0])
  {
    forall i, j | 0 <= i < j < |ks|
      ensures Lt(ks[i], ks[j])
    {
      ForwardSorted(m, want, ks, i, j);
    }
    forall x
      ensures x in ks <==> x in m && !Lt(x, ks[0])
    {
      if x in ks {
        var i :| 0 <= i < |ks| && ks[i] == x;
        LtTrichotomy(ks[0], ks[i]);
        assert i > 0 ==> Lt(ks[0], ks[i]) && IsLeast(m, Wanted(Greater, ks[i - 1]), ks[i - 1 + 1]);
      } else if x in m && !Lt(x, ks[0]) {
        ForwardReaches(m, want, ks, x, 0);
      }
    }
  }

  /** After seeking with > or >= or ^, the run lists exactly the keys the operator asked for. */
  lemma SeekThenNext(m: map<Key, Val>, op: Op, ele: Key, ks: seq<Key>)
    requires op.Greater? || op.GreaterEq? || op.First?
    requires ForwardRun(m, Wanted(op, ele), ks)
    ensures forall i, j :: 0 <= i < j < |ks| ==> Lt(ks[i], ks[j])
    ensures forall x :: x in ks <==> x in m && x in Wanted(op, ele)
  {
    var want := Wanted(op, ele);
    ForwardRunLists(m, want, ks);
    forall x | x in m
      ensures x in want <==> !Lt(x, ks[0])
    {
      LtTrichotomy(x, ks[0]);
      if !Lt(x, ks[0]) && x != ks[0] && !op.First? {
        AfterWanted(op, ele, ks[0], x);
      }
    }
  }

  lemma AfterWanted(op: Op, ele: Key, k: Key, x: Key)
    requires (op.Greater? || op.GreaterEq?) && k in Wanted(op, ele) && Lt(k, x)
    ensures x in Wanted(op, ele)
  {
    LtTrichotomy(k, ele);
    LtTrichotomy(x, ele);
    if Lt(ele, k) {
      LtTransitive(ele, k, x);
    }
  }

  lemma {:induction false} BackwardSorted(m: map<Key, Val>, want: iset<Key>, ks: seq<Key>, i: nat, j: nat)
    requires BackwardRun(m, want, ks) && i < j < |ks|
    ensures Lt(ks[j], ks[i])
    decreases j - i
  {
    assert IsGreatest(m, Wanted(Less, ks[j - 1]), ks[j]);
    if i < j - 1 {
      BackwardSorted(m, want, ks, i, j - 1);
      LtTransitive(ks[j], ks[j - 1], ks[i]);
    }
  }

  lemma {:induction false} BackwardReaches(m: map<Key, Val>, want: iset<Key>, ks: seq<Key>, x: Key, i: nat)
    requires BackwardRun(m, want, ks) && x in m && i < |ks| && !Lt(ks[i], x)
    ensures x in ks[i..]
    decreases |ks| - i
  {
    LtTrichotomy(x, ks[i]);
    if x != ks[i] {
      assert x in Wanted(Less, ks[i]);
      assert i < |ks| - 1;
      assert IsGreatest(m, Wanted(Less, ks[i]), ks[i + 1]);
      BackwardReaches(m, want, ks, x, i + 1);
    }
  }

  /** A backward run lists exactly the keys up to its first key, strictly descending. */
  lemma BackwardRunLists(m: map<Key, Val>, want: iset<Key>, ks: seq<Key>)
    requires BackwardRun(m, want, ks)
    ensures forall i, j :: 0 <= i < j < |ks| ==> Lt(ks[j], ks[i])
    ensures forall x :: x in ks <==> x in m && !Lt(ks[0], x)
  {
    forall i, j | 0 <= i < j < |ks|
      ensures Lt(ks[j], ks[i])
    {
      BackwardSorted(m, want, ks, i, j);
    }
    forall x
      ensures x in ks <==> x in m && !Lt(ks[0], x)
    {
      if x in ks {
        var i :| 0 <= i < |ks| && ks[i] == x;
        LtTrichotomy(ks[0], ks[i]);
        assert i > 0 ==> Lt(ks[i], ks[0]) && IsGreatest(m, Wanted(Less, ks[i - 1]), ks[i - 1 + 1]);
      } else if x in m && !Lt(ks[0], x) {
        BackwardReaches(m, want, ks, x, 0);
      }
    }
  }

  /** After seeking with < or <= or $, the run lists exactly the keys the operator asked for. */
  lemma SeekThenPrev(m: map<Key, Val>, op: Op, ele: Key, ks: seq<Key>)
    requires op.Less? || op.LessEq? || op.Last?
    requires BackwardRun(m, Wanted(op, ele), ks)
    ensures forall i, j :: 0 <= i < j < |ks| ==> Lt(ks[j], ks[i])
    ensures forall x :: x in ks <==> x in m && x in Wanted(op, ele)
  {
    var want := Wanted(op, ele);
    BackwardRunLists(m, want, ks);
    forall x | x in m
      ensures x in want <==> !Lt(ks[0], x)
    {
      LtTrichotomy(x, ks[0]);
      if !Lt(ks[0], x) && x != ks[0] && !op.Last? {
        BeforeWanted(op, ele, ks[0], x);
      }
    }
  }

  lemma BeforeWanted(op: Op, ele: Key, k: Key, x: Key)
    requires (op.Less? || op.LessEq?) && k in Wanted(op, ele) && Lt(x, k)
    ensures x in Wanted(op, ele)
  {
    LtTrichotomy(k, ele);
    LtTrichotomy(x, ele);
    if Lt(k, ele) {
      LtTransitive(x, k, ele);
    }
  }

  // -------------------------------------------------------- the loops of a caller

  lemma NothingListed(m: map<Key, Val>, want: iset<Key>)
    requires NoneWanted(m, want)
    ensures forall x :: x in m ==> x !in want
  {
  }


  /** Seek with >, >= or ^, then raxNext until it returns 0: the matching keys, ascending. */
  method ListForward(it: RaxIterator, op: string, ele: Key) returns (keys: seq<Key>, vals: seq<Val>)
    requires it.rt.Valid() && op != "" && op[0] in {'>', '^'}
    modifies it
    ensures forall i, j :: 0 <= i < j < |keys| ==> Lt(keys[i], keys[j])
    ensures forall x :: x in keys <==> x in it.rt.m && Asked(op, ele, x)
    ensures |vals| == |keys| && forall i :: 0 <= i < |keys| ==> keys[i] in it.rt.m && vals[i] == it.rt.m[keys[i]]
  {
    WantedIsAsked(op, ele);
    hide ParseOp, Asked, Wanted, IsLeast, NoneWanted, RaxIterator.Valid, Lt;
    ghost var m, want := it.rt.m, Wanted(ParseOp(op).value, ele);
    var ok := it.Seek(op, ele);
    keys, vals := [], [];
    var more := it.Next();
    if !more {
      NothingListed(m, want);
      return;
    }
    while more
      invariant it.Valid() && !it.justSeeked && it.rt.m == m && more == !it.eof
      invariant keys == [] ==> more && IsLeast(m, want, it.key)
      invariant keys != [] ==> ForwardPart(m, want, keys)
      invariant keys != [] ==> if it.eof then NoneWanted(m, Wanted(Greater, keys[|keys| - 1]))
                               else IsLeast(m, Wanted(Greater, keys[|keys| - 1]), it.key)
      invariant more ==> it.key in m && m[it.key] == it.data
      invariant |vals| == |keys| && forall i :: 0 <= i < |keys| ==> keys[i] in m && vals[i] == m[keys[i]]
      decreases if more then RemainingNext(m, it.key) else {}, if more then 1 else 0
    {
      ghost var k := it.key;
      keys, vals := keys + [it.key], vals + [it.data];
      more := it.Next();
      if more {
        RemainingNextShrinks(m, k, it.key);
      }
    }
    SeekThenNext(m, ParseOp(op).value, ele, keys);
  }

  ghost function RemainingNext(m: map<Key, Val>, k: Key): set<Key> {
    set x | x in m && !Lt(x, k)
  }

  lemma RemainingNextShrinks(m: map<Key, Val>, k: Key, k2: Key)
    requires k in m && IsLeast(m, Wanted(Greater, k), k2)
    ensures RemainingNext(m, k2) < RemainingNext(m, k)
  {
    LtTrichotomy(k, k);
    assert k in RemainingNext(m, k) && k !in RemainingNext(m, k2);
    forall x | x in RemainingNext(m, k2)
      ensures x in RemainingNext(m, k)
    {
      LtTrichotomy(x, k);
      LtTrichotomy(x, k2);
      if Lt(x, k) {
        LtTransitive(x, k, k2);
      }
    }
  }


  /** Seek with <, <= or $, then raxPrev until it returns 0: the matching keys, descending. */
  method ListBackward(it: RaxIterator, op: string, ele: Key) returns (keys: seq<Key>, vals: seq<Val>)
    requires it.rt.Valid() && op != "" && op[0] in {'<', '$'}
    modifies it
    ensures forall i, j :: 0 <= i < j < |keys| ==> Lt(keys[j], keys[i])
    ensures forall x :: x in keys <==> x in it.rt.m && Asked(op, ele, x)
    ensures |vals| == |keys| && forall i :: 0 <= i < |keys| ==> keys[i] in it.rt.m && vals[i] == it.rt.m[keys[i]]
  {
    WantedIsAsked(op, ele);
    hide ParseOp, Asked, Wanted, IsGreatest, NoneWanted, RaxIterator.Valid, Lt;
    ghost var m, want := it.rt.m, Wanted(ParseOp(op).value, ele);
    var ok := it.Seek(op, ele);
    keys, vals := [], [];
    var more := it.Prev();
    if !more {
      NothingListed(m, want);
      return;
    }
    while more
      invariant it.Valid() && !it.justSeeked && it.rt.m == m && more == !it.eof
      invariant keys == [] ==> more && IsGreatest(m, want, it.key)
      invariant keys != [] ==> BackwardPart(m, want, keys)
      invariant keys != [] ==> if it.eof then NoneWanted(m, Wanted(Less, keys[|keys| - 1]))
                               else IsGreatest(m, Wanted(Less, keys[|keys| - 1]), it.key)
      invariant more ==> it.key in m && m[it.key] == it.data
      invariant |vals| == |keys| && forall i :: 0 <= i < |keys| ==> keys[i] in m && vals[i] == m[keys[i]]
      decreases if more then RemainingPrev(m, it.key) else {}, if more then 1 else 0
    {
      ghost var k := it.key;
      keys, vals := keys + [it.key], vals + [it.data];
      more := it.Prev();
      if more {
        RemainingPrevShrinks(m, k, it.key);
      }
    }
    SeekThenPrev(m, ParseOp(op).value, ele, keys);
  }

  ghost function RemainingPrev(m: map<Key, Val>, k: Key): set<Key> {
    set x | x in m && !Lt(k, x)
  }

  lemma RemainingPrevShrinks(m: map<Key, Val>, k: Key, k2: Key)
    requires k in m && IsGreatest(m, Wanted(Less, k), k2)
    ensures RemainingPrev(m, k2) < RemainingPrev(m, k)
  {
    LtTrichotomy(k, k);
    assert k in RemainingPrev(m, k) && k !in RemainingPrev(m, k2);
    forall x | x in RemainingPrev(m, k2)
      ensures x in RemainingPrev(m, k)
    {
      LtTrichotomy(x, k);
      LtTrichotomy(x, k2);
      if Lt(k, x) {
        LtTransitive(k2, k, x);
      }
    }
  }
}
