/** How a parallel call splits its rows between the threads, in 64-bit arithmetic. */
module RowShares {
  import opened Common

  const MAX_THREADS := 32

  // --------------------------------------------------------- splitting the rows

  /** The width of a thread's share; the sum wraps around in 64 bits. */
  function RowsPerThread(n: nat, t: nat): nat
    requires t > 0
  {
    (n + t - 1) % U64 / t
  }

  function FirstRow(n: nat, t: nat, tid: nat): nat
    requires t > 0
  {
    tid * RowsPerThread(n, t) % U64
  }

  function EndRow(n: nat, t: nat, tid: nat): nat
    requires t > 0
  {
    var e := (FirstRow(n, t, tid) + RowsPerThread(n, t)) % U64;
    if e > n then n else e
  }

  /** Row r has a thread that is to run it. */
  predicate Shared(n: nat, t: nat, r: nat)
    requires t > 0
  {
    r < n && RowsPerThread(n, t) > 0
  }

  lemma Product(a: nat, b: nat, c: nat)
    requires a <= b
    ensures a * c <= b * c
  {
  }

  lemma Width(n: nat, t: nat)
    requires 0 < t && n + t - 1 < U64
    ensures var q := RowsPerThread(n, t); n <= t * q <= n + t - 1
  {
    var m := n + t - 1;
    assert m == t * (m / t) + m % t;
  }

  /** Without wrap-around the shares are laid end to end. */
  lemma EndToEnd(n: nat, t: nat, tid: nat)
    requires tid < t && n + t - 1 < U64
    ensures var q := RowsPerThread(n, t);
      && FirstRow(n, t, tid) == tid * q
      && EndRow(n, t, tid) == if (tid + 1) * q > n then n else (tid + 1) * q
  {
    hide RowsPerThread;
    var q := RowsPerThread(n, t);
    Width(n, t);
    Product(tid, t, q);
    Product(tid + 1, t, q);
    assert tid * q + q == (tid + 1) * q;
  }

  lemma NoShares(n: nat, t: nat, tid: nat)
    requires 0 < t <= MAX_THREADS && n < U64 && n + t - 1 >= U64
    ensures RowsPerThread(n, t) == 0 && FirstRow(n, t, tid) == EndRow(n, t, tid) == 0
  {
    assert (n + t - 1) % U64 == n + t - 1 - U64;
    assert tid * 0 == 0;
  }

  /** The shares of different threads do not overlap, and share number r / width has row r. */
  lemma ShareOf(n: nat, t: nat, tid: nat, r: nat)
    requires 0 < t <= MAX_THREADS && tid < t && n < U64
    ensures FirstRow(n, t, tid) <= r < EndRow(n, t, tid) <==> Shared(n, t, r) && r / RowsPerThread(n, t) == tid
    ensures Shared(n, t, r) ==> r / RowsPerThread(n, t) < t
  {
    hide RowsPerThread, FirstRow, EndRow;
    var q := RowsPerThread(n, t);
    if n + t - 1 >= U64 {
      NoShares(n, t, tid);
    } else {
      EndToEnd(n, t, tid);
      Width(n, t);
      if q == 0 {
        assert tid * q == 0 && (tid + 1) * q == 0;
      } else if r < n {
        Quotient(r, q, tid);
        InSomeShare(r, q, t);
      }
    }
  }

  lemma InSomeShare(r: nat, q: nat, t: nat)
    requires q > 0 && r < t * q
    ensures r / q < t
  {
    Quotient(r, q, r / q);
    if r / q >= t {
      Product(t, r / q, q);
    }
  }

  lemma Quotient(r: nat, q: nat, k: nat)
    requires q > 0
    ensures r / q == k <==> k * q <= r < (k + 1) * q
  {
    assert r == (r / q) * q + r % q;
    if k < r / q {
      Product(k + 1, r / q, q);
    } else if k > r / q {
      Product(r / q + 1, k, q);
    }
  }

  lemma AtLeastOne(m: nat, t: nat)
    requires m >= t > 0
    ensures m / t >= 1
  {
    Quotient(m, t, 0);
  }

  /** Every row is in a share exactly when the rounding sum does not wrap. */
  lemma AllShared(n: nat, t: nat)
    requires 0 < t <= MAX_THREADS && 0 < n < U64
    ensures (forall r :: 0 <= r < n ==> Shared(n, t, r)) <==> n + t - 1 < U64
  {
    if n + t - 1 < U64 {
      AtLeastOne(n + t - 1, t);
    } else {
      assert (n + t - 1) % U64 == n + t - 1 - U64;
      assert !Shared(n, t, 0);
    }
  }
}
