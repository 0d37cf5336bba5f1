/** Round-robin over a shared 64-bit ticket counter: how fair a window of consecutive draws is. */
module RoundRobin {
  import opened Base

  /** The ticket that the j-th draw after counter value `start` gets. */
  function Ticket(start: nat, j: nat): nat {
    (start + j) % TWO64
  }

  /** How many of the first `draws` tickets send their caller to position i of n. */
  function Hits(start: nat, draws: nat, n: nat, i: nat): nat
    requires n > 0
  {
    if draws == 0 then 0
    else Hits(start, draws - 1, n, i) + if Ticket(start, draws - 1) % n == i then 1 else 0
  }

  /** How many numbers below x leave remainder i. */
  function Below(x: nat, n: nat, i: nat): nat
    requires n > 0
  {
    x / n + if x % n > i then 1 else 0
  }

  lemma BelowNext(x: nat, n: nat, i: nat)
    requires i < n
    ensures Below(x + 1, n, i) == Below(x, n, i) + if x % n == i then 1 else 0
  {
    var q, r := x / n, x % n;
    if r == n - 1 {
      assert x + 1 == (q + 1) * n + 0;
      DivModUnique(x + 1, n, q + 1, 0);
    } else {
      DivModUnique(x + 1, n, q, r + 1);
    }
  }

  /** Before the counter wraps, hits are a difference of Below; after it, they start again from zero. */
  lemma {:induction false} HitsCount(start: nat, draws: nat, n: nat, i: nat)
    requires start < TWO64 && draws <= TWO64 && i < n
    ensures Hits(start, draws, n, i) ==
      if start + draws <= TWO64 then Below(start + draws, n, i) - Below(start, n, i)
      else Below(TWO64, n, i) - Below(start, n, i) + Below(start + draws - TWO64, n, i)
  {
    hide Below, Ticket;
    if draws > 0 {
      HitsCount(start, draws - 1, n, i);
      TicketWraps(start, draws - 1);
      BelowNext(Ticket(start, draws - 1), n, i);
      BelowZero(n, i);
    }
  }

  lemma TicketWraps(start: nat, j: nat)
    requires start < TWO64 && j < TWO64
    ensures Ticket(start, j) == if start + j < TWO64 then start + j else start + j - TWO64
  {
  }

  lemma BelowZero(n: nat, i: nat)
    requires i < n
    ensures Below(0, n, i) == 0
  {
    DivModUnique(0, n, 0, 0);
  }

  lemma BelowShift(x: nat, k: nat, n: nat, i: nat)
    requires i < n
    ensures Below(x + k * n, n, i) == Below(x, n, i) + k && (x + k * n) % n == x % n
  {
    var q, r := x / n, x % n;
    assert x + k * n == (q + k) * n + r;
    DivModUnique(x + k * n, n, q + k, r);
  }

  lemma BelowDifference(x: nat, y: nat, n: nat, i: nat)
    requires i < n && y <= x
    ensures var r, R := x % n, y % n;
      Below(x - y, n, i) == Below(x, n, i) - Below(y, n, i)
        - (if r > i then 1 else 0) + (if R > i then 1 else 0)
        + (if r >= R then (if r - R > i then 1 else 0) else (if r - R + n > i then 0 else -1))
  {
    var q, r, Q, R := x / n, x % n, y / n, y % n;
    if r >= R {
      assert x - y == (q - Q) * n + (r - R);
      DivModUnique(x - y, n, q - Q, r - R);
    } else {
      assert x - y == (q - Q - 1) * n + (r - R + n);
      DivModUnique(x - y, n, q - Q - 1, r - R + n);
    }
  }

  /** What a window of k * n draws gives position i: exactly k, unless the counter wraps inside it. */
  lemma WindowHits(start: nat, k: nat, n: nat, i: nat)
    requires start < TWO64 && k * n <= TWO64 && i < n
    ensures var r, R := start % n, TWO64 % n;
      Hits(start, k * n, n, i) ==
        if start + k * n <= TWO64 then k
        else k + (if R > i then 1 else 0) - (if r > i then 1 else 0)
             + (if r >= R then (if r - R > i then 1 else 0) else (if r - R + n > i then 0 else -1))
  {
    hide Below, Hits;
    HitsCount(start, k * n, n, i);
    BelowShift(start, k, n, i);
    if start + k * n > TWO64 {
      BelowDifference(start + k * n, TWO64, n, i);
    }
  }

  /** The window keeps everyone's share whatever the counter does. */
  predicate InStep(start: nat, k: nat, n: nat)
    requires n > 0
  {
    start + k * n <= TWO64 || TWO64 % n == 0 || start % n == TWO64 % n
  }

  lemma NearlyFair(start: nat, k: nat, n: nat, i: nat)
    requires start < TWO64 && k * n <= TWO64 && i < n
    ensures k - 1 <= Hits(start, k * n, n, i) <= k + 1
    ensures InStep(start, k, n) ==> Hits(start, k * n, n, i) == k
  {
    hide Hits;
    WindowHits(start, k, n, i);
  }

  lemma OutOfStepIsUnfair(start: nat, k: nat, n: nat)
    requires start < TWO64 && n > 0 && k * n <= TWO64 && !InStep(start, k, n)
    ensures Hits(start, k * n, n, 0) != k || Hits(start, k * n, n, n - 1) != k
  {
    hide Hits;
    WindowHits(start, k, n, 0);
    WindowHits(start, k, n, n - 1);
  }

  /** Any k * n consecutive draws over n upstreams, however the callers interleave, give every upstream
      between k - 1 and k + 1 picks; they give everyone exactly k if and only if the counter does not
      wrap inside the window, or n divides 2^64, or the window starts in step with the wrap. */
  lemma WindowFair(start: nat, k: nat, n: nat)
    requires start < TWO64 && n > 0 && k * n <= TWO64
    ensures forall i :: 0 <= i < n ==> k - 1 <= Hits(start, k * n, n, i) <= k + 1
    ensures (forall i :: 0 <= i < n ==> Hits(start, k * n, n, i) == k)
      <==> (start + k * n <= TWO64 || TWO64 % n == 0 || start % n == TWO64 % n)
  {
    hide Hits;
    forall i | 0 <= i < n
      ensures k - 1 <= Hits(start, k * n, n, i) <= k + 1
      ensures InStep(start, k, n) ==> Hits(start, k * n, n, i) == k
    {
      NearlyFair(start, k, n, i);
    }
    if !InStep(start, k, n) {
      OutOfStepIsUnfair(start, k, n);
    }
  }
}
