/** The arithmetic of the two weight-aware selections: least connections and weighted random. */
module Balance {
  import opened Base

  // ----- least connections

  /** A candidate with c connections and weight w. */
  datatype Load = Load(c: int, w: int)

  /** a is strictly preferred to b: fewer connections per unit of weight, or as many and more weight. */
  predicate Preferred(a: Load, b: Load) {
    a.c * b.w < b.c * a.w || (a.c * b.w == b.c * a.w && a.w > b.w)
  }

  /** The comparison as the machine makes it, on wrapped products. */
  predicate Preferred64(a: Load, b: Load) {
    var x, y := Int64(a.c * b.w), Int64(b.c * a.w);
    x < y || (x == y && a.w > b.w)
  }

  ghost predicate NoOverflow(loads: seq<Load>) {
    forall i, j :: 0 <= i < |loads| && 0 <= j < |loads| ==> -TWO63 <= loads[i].c * loads[j].w < TWO63
  }

  /** Position m beats every earlier candidate and is beaten by none. */
  ghost predicate IsBest(loads: seq<Load>, m: nat, n: nat) {
    m < n <= |loads|
    && forall j :: 0 <= j < n ==> !Preferred(loads[j], loads[m]) && (j < m ==> Preferred(loads[m], loads[j]))
  }

  lemma ComparedAs(a: Load, b: Load)
    ensures Preferred64(a, b) <==>
      Int64(a.c * b.w) < Int64(b.c * a.w) || (Int64(a.c * b.w) == Int64(b.c * a.w) && a.w > b.w)
  {
  }

  /** Where the scan over the first n candidates ends up, comparing wrapped products. */
  function LeastLoaded(loads: seq<Load>, n: nat): (m: nat)
    requires 0 < n <= |loads|
    ensures m < n
  {
    if n == 1 then 0
    else
      var best := LeastLoaded(loads, n - 1);
      if Preferred64(loads[n - 1], loads[best]) then n - 1 else best
  }

  /** Short of overflow the scan finds the optimum, for any counts, negative ones included. */
  lemma {:induction false} LeastLoadedIsBest(loads: seq<Load>, n: nat)
    requires 0 < n <= |loads| && NoOverflow(loads)
    requires forall j :: 0 <= j < |loads| ==> loads[j].w >= 1
    ensures IsBest(loads, LeastLoaded(loads, n), n)
  {
    if n > 1 {
      LeastLoadedIsBest(loads, n - 1);
      var best := LeastLoaded(loads, n - 1);
      assert Preferred64(loads[n - 1], loads[best]) == Preferred(loads[n - 1], loads[best]);
      if Preferred(loads[n - 1], loads[best]) {
        forall j | 0 <= j < n - 1 ensures Preferred(loads[n - 1], loads[j]) {
          PreferredExtends(loads[n - 1], loads[best], loads[j]);
        }
      }
    }
  }

  /** There is only one optimum. */
  lemma BestIsUnique(loads: seq<Load>, m: nat, m': nat, n: nat)
    requires IsBest(loads, m, n) && IsBest(loads, m', n)
    ensures m == m'
  {
    hide Preferred;
    var a, b := loads[m], loads[m'];
    assert !Preferred(a, b) && !Preferred(b, a);
  }

  const LOPSIDED := [Load(2, 1), Load(1, TWO63 / 2)]

  /** With a product of 2^63 the promise fails: two connections at weight 1 are kept before one connection at
      weight 2^62. */
  lemma WrappingBreaksLeastConnections()
    ensures LeastLoaded(LOPSIDED, 2) == 0 && IsBest(LOPSIDED, 1, 2) && !IsBest(LOPSIDED, 0, 2)
  {
    var a, b := LOPSIDED[0], LOPSIDED[1];
    assert Preferred(b, a) && !Preferred(a, b) && !Preferred(a, a) && !Preferred(b, b) && !Preferred64(b, a);
    hide Preferred, Preferred64;
    assert LeastLoaded(LOPSIDED, 1) == 0;
  }

  /** Counts from low to C and weights from 1 to M. */
  ghost predicate Bounded(loads: seq<Load>, low: int, C: int, M: int) {
    loads != [] && forall j :: 0 <= j < |loads| ==> low <= loads[j].c <= C && 1 <= loads[j].w <= M
  }

  ghost predicate ScanIsBest(loads: seq<Load>)
    requires loads != []
  {
    IsBest(loads, LeastLoaded(loads, |loads|), |loads|)
  }

  lemma ProductsFit(c: int, w: int, C: int, M: int)
    requires -C <= c <= C && 1 <= w <= M && C * M < TWO63
    ensures -TWO63 < c * w < TWO63
  {
    TimesMonotone(w, M, C);
    TimesMonotone(c, C, w);
    TimesMonotone(-C, c, w);
    assert (-C) * w == -(C * w) && C * w == w * C && C * M == M * C;
  }

  lemma TimesMonotone(a: int, b: int, k: int)
    requires a <= b && k >= 0
    ensures a * k <= b * k
  {
  }

  lemma BoundedScanIsBest(loads: seq<Load>, low: int, C: int, M: int)
    requires -C <= low && C * M < TWO63 && Bounded(loads, low, C, M)
    ensures ScanIsBest(loads)
  {
    forall i, j | 0 <= i < |loads| && 0 <= j < |loads| ensures -TWO63 <= loads[i].c * loads[j].w < TWO63 {
      ProductsFit(loads[i].c, loads[j].w, C, M);
    }
    LeastLoadedIsBest(loads, |loads|);
  }

  /** That many connections at weight 1 are kept before none at weight M. */
  lemma TooManyMisleads(M: int)
    requires 1 <= M < TWO63
    ensures !ScanIsBest([Load(TooMany(M), 1), Load(0, M)])
  {
    var loads := [Load(TooMany(M), 1), Load(0, M)];
    var a, b := loads[0], loads[1];
    assert a.c * b.w >= TWO63 && b.c * a.w == 0;
    assert Preferred(b, a) && !Preferred64(b, a);
    hide Preferred, Preferred64;
    assert LeastLoaded(loads, 1) == 0;
  }

  /** For counts up to C, negative ones down to -C allowed or not, and weights up to M the choice is always
      the optimum if and only if C * M is below 2^63. */
  lemma LeastConnectionsExactIff(low: int, C: int, M: int)
    requires -C <= low <= 0 < C && 1 <= M < TWO63
    ensures (forall loads :: Bounded(loads, low, C, M) ==> ScanIsBest(loads)) <==> C * M < TWO63
  {
    hide ScanIsBest;
    if C * M < TWO63 {
      forall loads | Bounded(loads, low, C, M) ensures ScanIsBest(loads) {
        BoundedScanIsBest(loads, low, C, M);
      }
    } else {
      var q := TooMany(M);
      QuotientBound(C, M, q);
      TooManyMisleads(M);
      assert Bounded([Load(q, 1), Load(0, M)], low, C, M);
    }
  }

  lemma RatioTransitive(a: int, p: int, b: int, q: int, c: int, r: int)
    requires p > 0 && q > 0 && r > 0
    requires a * q <= b * p && b * r <= c * q
    ensures a * r <= c * p
    ensures a * q < b * p || b * r < c * q ==> a * r < c * p
  {
    Scale(a * q, b * p, r);
    Scale(b * r, c * q, p);
    assert a * q * r == (a * r) * q;
    assert b * p * r == b * r * p;
    assert c * q * p == (c * p) * q;
    Cancel(a * r, c * p, q);
  }

  lemma Scale(x: int, y: int, k: int)
    requires k > 0
    ensures x <= y ==> x * k <= y * k
    ensures x < y ==> x * k < y * k
  {
  }

  lemma Cancel(x: int, y: int, k: int)
    requires k > 0
    ensures x * k <= y * k ==> x <= y
    ensures x * k < y * k ==> x < y
  {
  }

  /** A candidate preferred to the best so far is preferred to everything the best was chosen over. */
  lemma PreferredExtends(a: Load, best: Load, b: Load)
    requires a.w > 0 && best.w > 0 && b.w > 0
    requires Preferred(a, best) && !Preferred(b, best)
    ensures Preferred(a, b)
  {
    RatioTransitive(a.c, a.w, best.c, best.w, b.c, b.w);
  }

  /** Cross-multiplication orders candidates by the true ratio of connections to weight. */
  lemma CrossMultiplication(a: Load, b: Load)
    requires a.w > 0 && b.w > 0
    ensures a.c * b.w < b.c * a.w <==> a.c as real / a.w as real < b.c as real / b.w as real
    ensures a.c * b.w == b.c * a.w <==> a.c as real / a.w as real == b.c as real / b.w as real
  {
    var p, q := a.w as real, b.w as real;
    var x, y := a.c as real / p, b.c as real / q;
    assert x * p == a.c as real && y * q == b.c as real;
    var k := p * q;
    assert (a.c * b.w) as real == x * k;
    assert (b.c * a.w) as real == y * k;
    RealCancel(x, y, k);
  }

  lemma RealCancel(x: real, y: real, k: real)
    requires k > 0.0
    ensures x * k < y * k <==> x < y
    ensures x * k == y * k <==> x == y
  {
  }

  /** Connections per unit of weight. */
  function Ratio(a: Load): real
    requires a.w > 0
  {
    a.c as real / a.w as real
  }

  /** Preferred is a lower ratio, or the same ratio and more weight. */
  lemma PreferredIs(a: Load, b: Load)
    requires a.w > 0 && b.w > 0
    ensures Preferred(a, b) <==> Ratio(a) < Ratio(b) || (Ratio(a) == Ratio(b) && a.w > b.w)
  {
    CrossMultiplication(a, b);
  }

  /** The best of the first n candidates has the lowest ratio, among those the most weight, and among those the
      earliest position. */
  lemma BestIs(loads: seq<Load>, m: nat, n: nat)
    requires m < n <= |loads| && forall j :: 0 <= j < |loads| ==> loads[j].w > 0
    ensures IsBest(loads, m, n) <==> forall j :: 0 <= j < n ==>
      || Ratio(loads[m]) < Ratio(loads[j])
      || (Ratio(loads[m]) == Ratio(loads[j]) && loads[m].w > loads[j].w)
      || (Ratio(loads[m]) == Ratio(loads[j]) && loads[m].w == loads[j].w && m <= j)
  {
    hide Preferred, Ratio;
    forall j | 0 <= j < n
      ensures Preferred(loads[j], loads[m]) <==>
        Ratio(loads[j]) < Ratio(loads[m]) || (Ratio(loads[j]) == Ratio(loads[m]) && loads[j].w > loads[m].w)
      ensures Preferred(loads[m], loads[j]) <==>
        Ratio(loads[m]) < Ratio(loads[j]) || (Ratio(loads[m]) == Ratio(loads[j]) && loads[m].w > loads[j].w)
    {
      PreferredIs(loads[j], loads[m]);
      PreferredIs(loads[m], loads[j]);
    }
  }

  // ----- weighted random

  /** The weights of positions 0, ..., j as the machine adds them up. */
  function Cumulative(w: seq<int>, j: nat): int
    requires j < |w|
  {
    Int64(SumTo(w, j + 1))
  }

  /** Position m is the first whose cumulative weight exceeds the target. */
  ghost predicate FirstAbove(w: seq<int>, target: int, m: nat) {
    m < |w| && target < Cumulative(w, m) && forall j :: 0 <= j < m ==> Cumulative(w, j) <= target
  }

  lemma {:induction false} SumMonotone(w: seq<int>, a: nat, b: nat)
    requires a <= b <= |w| && forall j :: 0 <= j < |w| ==> w[j] >= 1
    ensures SumTo(w, a) + (b - a) <= SumTo(w, b)
  {
    if a < b {
      SumMonotone(w, a, b - 1);
    }
  }

  /** The search inverts the cumulative weights: position i is found for exactly the targets in
      [w_0 + ... + w_{i-1}, w_0 + ... + w_i). */
  lemma SearchInverts(w: seq<int>, target: int, i: nat)
    requires i < |w| && Sum(w) < TWO63 && forall j :: 0 <= j < |w| ==> w[j] >= 1
    requires 0 <= target
    ensures FirstAbove(w, target, i) <==> SumTo(w, i) <= target < SumTo(w, i + 1)
  {
    hide SumTo, Int64;
    forall j | 0 <= j <= |w| ensures 0 <= SumTo(w, j) < TWO63 && (j <= i ==> SumTo(w, j) <= SumTo(w, i)) {
      SumFromZero(w);
      SumMonotone(w, 0, j);
      SumMonotone(w, j, |w|);
      if j <= i {
        SumMonotone(w, j, i);
      }
    }
    SumFromZero(w);
    if i > 0 && FirstAbove(w, target, i) {
      assert Cumulative(w, i - 1) <= target;
    }
  }

  lemma SumFromZero(w: seq<int>)
    ensures SumTo(w, 0) == 0
  {
  }

  ghost function Interval(a: int, b: int): (s: set<int>)
    ensures forall t :: t in s <==> a <= t < b
    decreases b - a
  {
    if a >= b then {} else Interval(a, b - 1) + {b - 1}
  }

  lemma {:induction false} IntervalSize(a: int, b: int)
    requires a <= b
    ensures |Interval(a, b)| == b - a
    decreases b - a
  {
    if a < b {
      IntervalSize(a, b - 1);
    }
  }

  /** The targets below the machine's total for which position i is found. */
  ghost function TargetsOf(w: seq<int>, i: nat): set<int> {
    set t | t in Interval(0, Int64(Sum(w))) && FirstAbove(w, t, i)
  }

  /** Below 2^63 the total is positive, and exactly w_i of its equally likely targets choose upstream i. */
  lemma FairBelowBound(w: seq<int>, i: nat)
    requires i < |w| && Sum(w) < TWO63 && forall j :: 0 <= j < |w| ==> w[j] >= 1
    ensures Int64(Sum(w)) == Sum(w) > 0
    ensures |TargetsOf(w, i)| == w[i]
  {
    SumOfPositive(w, |w|);
    hide FirstAbove, Interval;
    var a, b := SumTo(w, i), SumTo(w, i + 1);
    SumMonotone(w, i + 1, |w|);
    SumMonotone(w, 0, i);
    forall t ensures t in TargetsOf(w, i) <==> t in Interval(a, b) {
      if 0 <= t {
        SearchInverts(w, t, i);
      }
    }
    assert TargetsOf(w, i) == Interval(a, b);
    IntervalSize(a, b);
  }

  /** The targets for which one of the first n positions is found. */
  ghost function TargetsBelow(w: seq<int>, n: nat): set<int> {
    if n == 0 then {} else TargetsBelow(w, n - 1) + TargetsOf(w, n - 1)
  }

  lemma {:induction false} TargetsAddUp(w: seq<int>, n: nat)
    requires n <= |w| && forall i :: 0 <= i < n ==> |TargetsOf(w, i)| == w[i]
    ensures |TargetsBelow(w, n)| == SumTo(w, n)
    ensures forall t :: t in TargetsBelow(w, n) ==>
      t in Interval(0, Int64(Sum(w))) && exists i: nat :: i < n && FirstAbove(w, t, i)
  {
    hide Interval, Cumulative, Int64;
    if n > 0 {
      TargetsAddUp(w, n - 1);
      assert TargetsBelow(w, n - 1) !! TargetsOf(w, n - 1);
    }
  }

  /** Every upstream is chosen for exactly its weight many of the total's targets if and only if the weights
      add up to less than 2^63; a wrapped total has too few targets, or none. */
  lemma ExactOddsIff(w: seq<int>)
    requires forall j :: 0 <= j < |w| ==> w[j] >= 1
    ensures (forall i :: 0 <= i < |w| ==> |TargetsOf(w, i)| == w[i]) <==> Sum(w) < TWO63
  {
    hide TargetsOf, TargetsBelow, Interval, FirstAbove;
    if Sum(w) < TWO63 {
      forall i | 0 <= i < |w| ensures |TargetsOf(w, i)| == w[i] {
        FairBelowBound(w, i);
      }
    }
    if forall i :: 0 <= i < |w| ==> |TargetsOf(w, i)| == w[i] {
      TargetsAddUp(w, |w|);
      var total := Int64(Sum(w));
      SubsetSize(TargetsBelow(w, |w|), Interval(0, total));
      IntervalSize(0, if total < 0 then 0 else total);
      assert total < 0 ==> Interval(0, total) == Interval(0, 0);
    }
  }
}
