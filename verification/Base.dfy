/** Vocabulary shared by the other modules: options, Go's machine integers, weighted upstreams. */
module Base {

  datatype Option<+T> = None | Some(value: T)

  const TWO32 := 0x1_0000_0000
  const TWO63 := 0x8000_0000_0000_0000
  const TWO64 := 0x1_0000_0000_0000_0000

  type uint32 = x: int | 0 <= x < TWO32

  /** The value a Go `int` (64 bits, two's complement) holds after an operation whose exact result is x. */
  function Int64(x: int): (r: int)
    ensures -TWO63 <= r < TWO63
    ensures -TWO63 <= x < TWO63 ==> r == x
  {
    (x + TWO63) % TWO64 - TWO63
  }

  /** Wrapping a partial result does not change the wrapped total. */
  lemma Int64Absorbs(x: int, y: int)
    ensures Int64(Int64(x) + y) == Int64(x + y)
  {
    var q := (x + TWO63) / TWO64;
    assert Int64(x) + y + TWO63 == (x + y + TWO63) - q * TWO64;
    ModShift(x + y + TWO63, -q);
  }

  lemma ModShift(a: int, q: int)
    ensures (a + q * TWO64) % TWO64 == a % TWO64
  {
    var d := a / TWO64;
    assert a + q * TWO64 == (d + q) * TWO64 + a % TWO64;
  }

  /** Go's integer division truncates toward zero. */
  function TruncDiv(a: int, b: int): int
    requires b > 0
  {
    if a >= 0 then a / b else -((-a) / b)
  }

  datatype WeightedUpstream = WeightedUpstream(address: string, weight: int) {
    function EffectiveWeight(): (w: int)
      ensures w >= weight && w >= 1
      ensures w == weight || w == 1
      ensures weight >= 1 ==> w == weight
    {
      if weight <= 0 then 1 else weight
    }
  }

  function Weights(upstreams: seq<WeightedUpstream>): (w: seq<int>)
    ensures |w| == |upstreams|
    ensures forall i :: 0 <= i < |w| ==> w[i] == upstreams[i].EffectiveWeight()
    ensures forall i :: 0 <= i < |w| ==> w[i] >= 1
  {
    seq(|upstreams|, i requires 0 <= i < |upstreams| => upstreams[i].EffectiveWeight())
  }

  function Sum(s: seq<int>): int {
    SumTo(s, |s|)
  }

  /** The sum of the first n entries. */
  function SumTo(s: seq<int>, n: nat): int
    requires n <= |s|
  {
    if n == 0 then 0 else SumTo(s, n - 1) + s[n - 1]
  }

  /** Changing one entry changes the sum by the difference. */
  lemma {:induction false} SumUpdate(s: seq<int>, i: nat, x: int, n: nat)
    requires i < |s| && n <= |s|
    ensures SumTo(s[i := x], n) == SumTo(s, n) + if i < n then x - s[i] else 0
  {
    if n > 0 {
      SumUpdate(s, i, x, n - 1);
    }
  }

  lemma {:induction false} SumAdd(a: seq<int>, b: seq<int>, c: seq<int>, n: nat)
    requires n <= |a| == |b| == |c|
    requires forall i :: 0 <= i < |a| ==> c[i] == a[i] + b[i]
    ensures SumTo(c, n) == SumTo(a, n) + SumTo(b, n)
  {
    if n > 0 {
      SumAdd(a, b, c, n - 1);
    }
  }

  lemma {:induction false} SumBounds(s: seq<int>, low: int, high: int, n: nat)
    requires n <= |s|
    requires forall i :: 0 <= i < n ==> low <= s[i] <= high
    ensures n * low <= SumTo(s, n) <= n * high
  {
    if n > 0 {
      SumBounds(s, low, high, n - 1);
      assert n * low == (n - 1) * low + low && n * high == (n - 1) * high + high;
    }
  }

  lemma {:induction false} SumOfPositive(w: seq<int>, n: nat)
    requires n <= |w| && forall i :: 0 <= i < n ==> w[i] >= 1
    ensures SumTo(w, n) >= n
    ensures forall i :: 0 <= i < n ==> w[i] <= SumTo(w, n)
  {
    if n > 0 {
      SumOfPositive(w, n - 1);
    }
  }

  lemma SubsetSize<T>(a: set<T>, b: set<T>)
    requires a <= b
    ensures |a| <= |b|
  {
    assert b == a + (b - a);
  }

  lemma NegativeMultiple(m: int, d: int)
    requires m >= 1 && d <= -1
    ensures m * d <= -m
  {
    assert m * d == m * (d + 1) - m;
  }

  lemma DivModUnique(x: int, n: int, q: int, r: int)
    requires n > 0 && x == q * n + r && 0 <= r < n
    ensures x / n == q && x % n == r
  {
    var d := x / n - q;
    assert n * d == r - x % n;
    if d < 0 {
      NegativeMultiple(n, d);
    } else if d > 0 {
      NegativeMultiple(n, -d);
    }
  }

  /** The least number whose product with M does not fit 64 bits. */
  function TooMany(M: int): (q: int)
    requires 1 <= M < TWO63
    ensures q >= 1 && TWO63 <= q * M < TWO63 + M
  {
    (TWO63 + M - 1) / M
  }

  lemma QuotientBound(C: int, M: int, q: int)
    requires M >= 1 && C * M >= TWO63 && q * M < TWO63 + M
    ensures q <= C
  {
    var d := C - q;
    assert M * d == C * M - q * M;
    if d < 0 {
      NegativeMultiple(M, d);
    }
  }
}
