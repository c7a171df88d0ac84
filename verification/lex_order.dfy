/** The lexicographic order on byte strings, a proper prefix being smaller. */
module LexOrder {
  import opened Common

  predicate Lt(a: seq<byte>, b: seq<byte>) {
    if b == [] then false
    else if a == [] then true
    else a[0] < b[0] || (a[0] == b[0] && Lt(a[1..], b[1..]))
  }

  /** x comes after p and after every string that starts with p. */
  predicate Beyond(x: seq<byte>, p: seq<byte>) {
    Lt(p, x) && !(p <= x)
  }

  lemma {:induction false} LtTrichotomy(a: seq<byte>, b: seq<byte>)
    ensures Lt(a, b) || Lt(b, a) || a == b
    ensures !(Lt(a, b) && Lt(b, a)) && !Lt(a, a)
  {
    if a != [] && b != [] {
      LtTrichotomy(a[1..], b[1..]);
      LtTrichotomy(a[1..], a[1..]);
      assert a == [a[0]] + a[1..] && b == [b[0]] + b[1..];
    } else if a != [] {
      LtTrichotomy(a[1..], a[1..]);
    }
  }

  lemma {:induction false} LtTransitive(a: seq<byte>, b: seq<byte>, c: seq<byte>)
    requires Lt(a, b) && Lt(b, c)
    ensures Lt(a, c)
  {
    if a != [] && a[0] == b[0] == c[0] {
      LtTransitive(a[1..], b[1..], c[1..]);
    }
  }

  /** A common prefix does not matter. */
  lemma {:induction false} LtPrefix(p: seq<byte>, a: seq<byte>, b: seq<byte>)
    ensures Lt(p + a, p + b) <==> Lt(a, b)
  {
    if p == [] {
      assert p + a == a && p + b == b;
    } else {
      assert (p + a)[1..] == p[1..] + a && (p + b)[1..] == p[1..] + b;
      LtPrefix(p[1..], a, b);
    }
  }

  lemma LtExtend(p: seq<byte>, r: seq<byte>)
    ensures Lt(p, p + r) <==> r != []
    ensures !Lt(p + r, p)
  {
    assert p + [] == p;
    LtPrefix(p, [], r);
    LtPrefix(p, r, []);
  }

  /** Strings that do not start with p lie before or beyond all that do. */
  lemma {:induction false} OutsideOrder(x: seq<byte>, p: seq<byte>, r: seq<byte>)
    requires !(p <= x)
    ensures Lt(p, x) <==> Lt(p + r, x)
    ensures Lt(x, p) <==> Lt(x, p + r)
    ensures x != p + r
  {
    if p != [] {
      assert (p + r)[1..] == p[1..] + r;
      if x != [] && x[0] == p[0] {
        assert x == [x[0]] + x[1..] && p == [p[0]] + p[1..];
        OutsideOrder(x[1..], p[1..], r);
      }
    }
  }

}
