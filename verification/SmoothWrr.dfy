/** Smooth weighted round-robin: what one call does to the current weights, and what runs of calls add up to. */
module SmoothWrr {
  import opened Base

  predicate IsFirstMax(s: seq<int>, m: nat) {
    m < |s| && forall i :: 0 <= i < |s| ==> s[i] <= s[m] && (i < m ==> s[i] < s[m])
  }

  /** The earliest position of the maximum. */
  function FirstMax(s: seq<int>): (m: nat)
    requires s != []
    ensures IsFirstMax(s, m)
  {
    FirstMaxBelow(s, |s|)
  }

  function FirstMaxBelow(s: seq<int>, n: nat): (m: nat)
    requires 0 < n <= |s|
    ensures m < n && forall i :: 0 <= i < n ==> s[i] <= s[m] && (i < m ==> s[i] < s[m])
  {
    if n == 1 then 0
    else var p := FirstMaxBelow(s, n - 1);
      if s[n - 1] > s[p] then n - 1 else p
  }

  /** A scan that starts at position 0 with a threshold `seed` which position 0 itself may fail to beat. */
  function SeededMax(seed: int, s: seq<int>): (m: nat)
    requires s != []
    ensures m < |s|
  {
    if forall i :: 0 <= i < |s| ==> s[i] <= seed then 0 else FirstMax(s)
  }

  function Heaviest(w: seq<int>): (m: int)
    requires w != []
    ensures m in w && forall i :: 0 <= i < |w| ==> w[i] <= m
  {
    w[FirstMax(w)]
  }

  predicate Positive(w: seq<int>) {
    w != [] && forall i :: 0 <= i < |w| ==> w[i] >= 1
  }

  // ----- the algorithm over unbounded integers

  function Raise(cur: seq<int>, w: seq<int>): (r: seq<int>)
    requires |cur| == |w|
    ensures |r| == |w| && forall i {:trigger r[i]} :: 0 <= i < |w| ==> r[i] == cur[i] + w[i]
  {
    seq(|w|, i requires 0 <= i < |w| => cur[i] + w[i])
  }

  function Pick(cur: seq<int>, w: seq<int>): (p: nat)
    requires |cur| == |w| && w != []
    ensures p < |w|
  {
    FirstMax(Raise(cur, w))
  }

  function Step(cur: seq<int>, w: seq<int>): (r: seq<int>)
    requires |cur| == |w| && w != []
    ensures |r| == |w|
  {
    var p := Pick(cur, w);
    Raise(cur, w)[p := cur[p] + w[p] - Sum(w)]
  }

  function Zeros(n: nat): (z: seq<int>)
    ensures |z| == n && forall i :: 0 <= i < n ==> z[i] == 0
  {
    seq(n, _ => 0)
  }

  /** The current weights after k calls on a freshly initialised state. */
  function Run(w: seq<int>, k: nat): (cur: seq<int>)
    requires w != []
    ensures |cur| == |w|
  {
    if k == 0 then Zeros(|w|) else Step(Run(w, k - 1), w)
  }

  lemma RunStep(w: seq<int>, k: nat)
    requires w != []
    ensures Run(w, 0) == Zeros(|w|) && Run(w, k + 1) == Step(Run(w, k), w)
  {
  }

  /** How often upstream i is chosen by the calls numbered lo, ..., hi - 1 of that run. */
  function Picks(w: seq<int>, lo: nat, hi: nat, i: nat): (c: nat)
    requires w != [] && lo <= hi
    decreases hi
  {
    if lo == hi then 0
    else Picks(w, lo, hi - 1, i) + if Pick(Run(w, hi - 1), w) == i then 1 else 0
  }

  lemma StepEntry(cur: seq<int>, w: seq<int>, i: nat)
    requires |cur| == |w| && i < |w|
    ensures Step(cur, w)[i] == cur[i] + w[i] - if Pick(cur, w) == i then Sum(w) else 0
  {
  }

  /** Every call adds w[i] to entry i and takes the total from the chosen one. */
  lemma {:induction false} ClosedForm(w: seq<int>, k: nat, i: nat)
    requires w != [] && i < |w|
    ensures Run(w, k)[i] == k * w[i] - Sum(w) * Picks(w, 0, k, i)
  {
    hide Step, Pick, Sum;
    if k > 0 {
      ClosedForm(w, k - 1, i);
      StepEntry(Run(w, k - 1), w, i);
      var c, W, x := Picks(w, 0, k - 1, i), Sum(w), w[i];
      assert W * (c + 1) == W * c + W;
      assert k * x == (k - 1) * x + x;
    }
  }

  lemma {:induction false} CurrentsSumToZero(w: seq<int>, k: nat)
    requires w != []
    ensures Sum(Run(w, k)) == 0
  {
    hide FirstMax, SumTo;
    if k == 0 {
      SumBounds(Zeros(|w|), 0, 0, |w|);
    } else {
      var cur := Run(w, k - 1);
      var r := Raise(cur, w);
      var p := Pick(cur, w);
      CurrentsSumToZero(w, k - 1);
      SumAdd(cur, w, r, |w|);
      SumUpdate(r, p, r[p] - Sum(w), |w|);
    }
  }

  lemma PositiveEntry(s: seq<int>)
    requires s != [] && Sum(s) > 0
    ensures s[FirstMax(s)] > 0
  {
    if s[FirstMax(s)] <= 0 {
      NonPositiveSum(s, |s|);
    }
  }

  lemma {:induction false} NonPositiveSum(s: seq<int>, n: nat)
    requires n <= |s| && forall i :: 0 <= i < n ==> s[i] <= 0
    ensures SumTo(s, n) <= 0
  {
    if n > 0 {
      NonPositiveSum(s, n - 1);
    }
  }

  lemma {:induction false} AboveMinusTotal(w: seq<int>, k: nat, i: nat)
    requires Positive(w) && i < |w|
    ensures Run(w, k)[i] > -Sum(w)
  {
    hide FirstMaxBelow, SumTo;
    SumOfPositive(w, |w|);
    if k > 0 {
      AboveMinusTotal(w, k - 1, i);
      var cur := Run(w, k - 1);
      var r := Raise(cur, w);
      CurrentsSumToZero(w, k - 1);
      SumAdd(cur, w, r, |w|);
      PositiveEntry(r);
    }
  }

  /** An entry is at most what the others can owe. */
  lemma {:induction false} OthersBound(s: seq<int>, low: int, i: nat, n: nat)
    requires i < n <= |s| && forall j :: 0 <= j < n ==> s[j] >= low
    ensures s[i] + (n - 1) * low <= SumTo(s, n)
  {
    if n > 1 {
      assert (n - 1) * low == (n - 2) * low + low;
      OthersBound(s, low, if i < n - 1 then i else 0, n - 1);
    }
  }

  /** At every prefix of a run all current weights stay in (-W, (n-1)(W-1)]. */
  lemma CurrentsStayBounded(w: seq<int>, k: nat, i: nat)
    requires Positive(w) && i < |w|
    ensures -Sum(w) < Run(w, k)[i] <= (|w| - 1) * (Sum(w) - 1)
  {
    hide Step, Run, Picks, SumTo;
    var s := Run(w, k);
    forall j | 0 <= j < |w| ensures s[j] > -Sum(w) {
      AboveMinusTotal(w, k, j);
    }
    OthersBound(s, 1 - Sum(w), i, |w|);
    CurrentsSumToZero(w, k);
    var n, t := |w| - 1, Sum(w) - 1;
    assert n * (-t) == -(n * t);
  }

  // ----- the tight upper bound

  /** What the first n entries at the positions of a set add up to. */
  function SumAt(s: seq<int>, at: set<nat>, n: nat): int
    requires n <= |s|
  {
    if n == 0 then 0 else SumAt(s, at, n - 1) + if n - 1 in at then s[n - 1] else 0
  }

  /** How many positions below n the set has. */
  function CountAt(at: set<nat>, n: nat): (c: nat)
    ensures c <= n
  {
    if n == 0 then 0 else CountAt(at, n - 1) + if n - 1 in at then 1 else 0
  }

  lemma {:induction false} SumAtUpdate(s: seq<int>, at: set<nat>, i: nat, x: int, n: nat)
    requires i < |s| && n <= |s|
    ensures SumAt(s[i := x], at, n) == SumAt(s, at, n) + if i < n && i in at then x - s[i] else 0
  {
    if n > 0 {
      SumAtUpdate(s, at, i, x, n - 1);
    }
  }

  lemma {:induction false} SumAtAdd(a: seq<int>, b: seq<int>, c: seq<int>, at: set<nat>, n: nat)
    requires n <= |a| == |b| == |c|
    requires forall i :: 0 <= i < |a| ==> c[i] == a[i] + b[i]
    ensures SumAt(c, at, n) == SumAt(a, at, n) + SumAt(b, at, n)
  {
    if n > 0 {
      SumAtAdd(a, b, c, at, n - 1);
    }
  }

  lemma {:induction false} SumAtOneMore(s: seq<int>, at: set<nat>, i: nat, n: nat)
    requires n <= |s| && i !in at
    ensures SumAt(s, at + {i}, n) == SumAt(s, at, n) + if i < n then s[i] else 0
    ensures CountAt(at + {i}, n) == CountAt(at, n) + if i < n then 1 else 0
  {
    if n > 0 {
      SumAtOneMore(s, at, i, n - 1);
    }
  }

  lemma {:induction false} SumAtNothing(s: seq<int>, n: nat)
    requires n <= |s|
    ensures SumAt(s, {}, n) == 0 && CountAt({}, n) == 0
  {
    if n > 0 {
      SumAtNothing(s, n - 1);
    }
  }

  lemma {:induction false} SumAtBounds(s: seq<int>, at: set<nat>, high: int, n: nat)
    requires n <= |s| && forall i :: 0 <= i < n && i in at ==> s[i] <= high
    ensures SumAt(s, at, n) <= CountAt(at, n) * high
  {
    if n > 0 {
      SumAtBounds(s, at, high, n - 1);
      assert (CountAt(at, n - 1) + 1) * high == CountAt(at, n - 1) * high + high;
    }
  }

  lemma {:induction false} PartOfTotal(w: seq<int>, at: set<nat>, n: nat)
    requires n <= |w| && forall i :: 0 <= i < n ==> w[i] >= 0
    ensures SumAt(w, at, n) <= SumTo(w, n)
  {
    if n > 0 {
      PartOfTotal(w, at, n - 1);
    }
  }

  /** The products of the case in which the chosen entry is not among the j considered. */
  lemma Averaged(j: nat, n: nat, M: int, sum: int, high: int, all: int)
    requires j < n && sum <= j * high && all == sum + high
    requires all <= (j + 1) * (n - (j + 1)) * M + (j + 1) * M
    ensures sum <= j * (n - j) * M
  {
    var b := (n - j) * M;
    assert (j + 1) * (n - (j + 1)) * M + (j + 1) * M == (j + 1) * b by {
      assert (n - (j + 1)) * M == b - M;
      assert (j + 1) * (n - (j + 1)) * M == (j + 1) * (b - M);
    }
    assert j * (n - j) * M == j * b;
    var d := j * b - sum;
    assert j * all <= j * ((j + 1) * b);
    assert (j + 1) * d == j * ((j + 1) * b) - (j * sum + sum);
    if d < 0 {
      NegativeMultiple(j + 1, d);
    }
  }

  lemma BoundIsNatural(j: nat, n: nat, M: int)
    requires j <= n && M >= 0
    ensures j * (n - j) * M >= 0
  {
    var a := j * (n - j);
    assert a >= 0;
    assert a * M >= 0;
  }

  /** Raising adds at most M to each of the positions considered. */
  lemma RaisedAtMost(cur: seq<int>, w: seq<int>, at: set<nat>, M: int)
    requires |cur| == |w| && forall i :: 0 <= i < |w| ==> w[i] <= M
    ensures SumAt(Raise(cur, w), at, |w|) <= SumAt(cur, at, |w|) + CountAt(at, |w|) * M
  {
    SumAtAdd(cur, w, Raise(cur, w), at, |w|);
    SumAtBounds(w, at, M, |w|);
  }

  /** With the chosen position among those considered their sum does not grow. */
  lemma ChosenAmong(cur: seq<int>, w: seq<int>, at: set<nat>)
    requires |cur| == |w| && Positive(w) && Pick(cur, w) in at
    ensures SumAt(Step(cur, w), at, |w|) <= SumAt(cur, at, |w|)
  {
    hide SumTo, SumAt, FirstMax;
    var raised, p := Raise(cur, w), Pick(cur, w);
    SumAtUpdate(raised, at, p, raised[p] - Sum(w), |w|);
    SumAtAdd(cur, w, raised, at, |w|);
    PartOfTotal(w, at, |w|);
  }

  /** Otherwise it is that of the raised weights, on average no more than that of the chosen one. */
  lemma ChosenOutside(cur: seq<int>, w: seq<int>, at: set<nat>, M: int)
    requires |cur| == |w| && Positive(w) && Pick(cur, w) !in at && forall i :: 0 <= i < |w| ==> w[i] <= M
    ensures var n, p, j := |w|, Pick(cur, w), CountAt(at, |w|);
      && j < n && CountAt(at + {p}, n) == j + 1
      && (SumAt(cur, at + {p}, n) <= (j + 1) * (n - (j + 1)) * M ==> SumAt(Step(cur, w), at, n) <= j * (n - j) * M)
  {
    hide SumTo, SumAt, CountAt, FirstMaxBelow;
    var n, p, j := |w|, Pick(cur, w), CountAt(at, |w|);
    var raised := Raise(cur, w);
    SumAtUpdate(raised, at, p, raised[p] - Sum(w), n);
    SumAtOneMore(raised, at, p, n);
    SumAtBounds(raised, at, raised[p], n);
    RaisedAtMost(cur, w, at + {p}, M);
    if SumAt(cur, at + {p}, n) <= (j + 1) * (n - (j + 1)) * M {
      Averaged(j, n, M, SumAt(raised, at, n), raised[p], SumAt(raised, at + {p}, n));
    }
  }

  /** At every prefix any j of the n current weights add up to at most j * (n - j) times the heaviest weight. */
  lemma {:induction false} AnyCurrentsBounded(w: seq<int>, k: nat, at: set<nat>, M: int)
    requires Positive(w) && forall i :: 0 <= i < |w| ==> w[i] <= M
    ensures SumAt(Run(w, k), at, |w|) <= CountAt(at, |w|) * (|w| - CountAt(at, |w|)) * M
    decreases k
  {
    hide SumTo, SumAt, CountAt, Pick, Step;
    if k == 0 {
      SumAtBounds(Zeros(|w|), at, 0, |w|);
      assert 1 <= w[0] <= M;
      BoundIsNatural(CountAt(at, |w|), |w|, M);
    } else {
      var cur := Run(w, k - 1);
      if Pick(cur, w) in at {
        AnyCurrentsBounded(w, k - 1, at, M);
        ChosenAmong(cur, w, at);
      } else {
        AnyCurrentsBounded(w, k - 1, at + {Pick(cur, w)}, M);
        ChosenOutside(cur, w, at, M);
      }
    }
  }

  /** No current weight exceeds n - 1 times the heaviest weight. */
  lemma CurrentsAtMost(w: seq<int>, k: nat, i: nat)
    requires Positive(w) && i < |w|
    ensures Run(w, k)[i] <= (|w| - 1) * Heaviest(w)
  {
    hide SumAt, CountAt, Run, Heaviest;
    AnyCurrentsBounded(w, k, {i}, Heaviest(w));
    SumAtNothing(Run(w, k), |w|);
    SumAtOneMore(Run(w, k), {}, i, |w|);
    assert {} + {i} == {i};
  }

  /** At every prefix of a run no upstream is a full pick ahead of its share, and none falls further behind
      than n - 1 times the heaviest weight. */
  lemma SmoothAtEveryPrefix(w: seq<int>, k: nat, i: nat)
    requires Positive(w) && i < |w|
    ensures Sum(w) * Picks(w, 0, k, i) < k * w[i] + Sum(w)
    ensures k * w[i] <= Sum(w) * Picks(w, 0, k, i) + (|w| - 1) * (Sum(w) - 1)
    ensures k * w[i] <= Sum(w) * Picks(w, 0, k, i) + (|w| - 1) * Heaviest(w)
  {
    hide Step, Run, Picks, SumTo, Heaviest;
    ClosedForm(w, k, i);
    CurrentsStayBounded(w, k, i);
    CurrentsAtMost(w, k, i);
  }

  lemma EntryAfterRound(w: seq<int>, i: nat)
    requires Positive(w) && i < |w|
    ensures Sum(w) >= 1
    ensures Run(w, Sum(w))[i] == Sum(w) * (w[i] - Picks(w, 0, Sum(w), i)) >= 0
  {
    hide Step, Run, Picks, SumTo;
    SumOfPositive(w, |w|);
    var W := Sum(w);
    ClosedForm(w, W, i);
    AboveMinusTotal(w, W, i);
    MultipleAbove(W, w[i] - Picks(w, 0, W, i));
  }

  /** A round of W calls chooses every upstream exactly its weight many times and ends where it began. */
  lemma RoundIsExact(w: seq<int>)
    requires Positive(w)
    ensures Sum(w) >= 1
    ensures Run(w, Sum(w)) == Zeros(|w|)
    ensures forall i :: 0 <= i < |w| ==> Picks(w, 0, Sum(w), i) == w[i]
  {
    hide Step, Run, Picks, SumTo;
    SumOfPositive(w, |w|);
    var W := Sum(w);
    var s := Run(w, W);
    forall i | 0 <= i < |w| ensures s[i] >= 0 {
      EntryAfterRound(w, i);
    }
    CurrentsSumToZero(w, W);
    forall i | 0 <= i < |w| ensures s[i] == 0 && Picks(w, 0, W, i) == w[i] {
      OthersBound(s, 0, i, |w|);
      EntryAfterRound(w, i);
      MultipleAbove(W, Picks(w, 0, W, i) - w[i]);
    }
  }

  lemma MultipleAbove(m: int, d: int)
    requires m >= 1 && m * d > -m
    ensures d >= 0 && m * d >= 0
  {
    if d < 0 {
      NegativeMultiple(m, d);
    } else {
      NegativeMultiple(m, -d - 1);
      assert m * (-d - 1) == -(m * d) - m;
    }
  }

  lemma {:induction false} RunIsPeriodic(w: seq<int>, k: nat)
    requires Positive(w)
    ensures Sum(w) >= 1 && Run(w, k + Sum(w)) == Run(w, k)
  {
    hide Step, Sum;
    if k == 0 {
      RoundIsExact(w);
    } else {
      RunIsPeriodic(w, k - 1);
    }
  }

  /** Wherever a round starts, W consecutive calls give each upstream exactly its weight. */
  lemma {:induction false} AnyRoundIsExact(w: seq<int>, k: nat, i: nat)
    requires Positive(w) && i < |w|
    ensures Sum(w) >= 1 && Picks(w, k, k + Sum(w), i) == w[i]
  {
    hide Step, Sum, Pick;
    RunIsPeriodic(w, k);
    if k == 0 {
      RoundIsExact(w);
    } else {
      AnyRoundIsExact(w, k - 1, i);
      RunIsPeriodic(w, k - 1);
      PicksSplit(w, k - 1, k, k + Sum(w), i);
      assert Picks(w, k - 1, k, i) == if Pick(Run(w, k - 1), w) == i then 1 else 0;
    }
  }

  lemma {:induction false} PicksSplit(w: seq<int>, a: nat, b: nat, c: nat, i: nat)
    requires w != [] && a <= b <= c
    ensures Picks(w, a, c, i) == Picks(w, a, b, i) + Picks(w, b, c, i)
    decreases c
  {
    hide Step, Pick, Run;
    if b < c {
      PicksSplit(w, a, b, c - 1, i);
    }
  }

  // ----- equal weights, which attain the bound

  function Equal(m: nat, M: int): (w: seq<int>)
    ensures |w| == m && forall i :: 0 <= i < m ==> w[i] == M
  {
    seq(m, _ => M)
  }

  /** The current weights after j of the first m - 1 calls: the first j positions have been chosen once. */
  function Stair(m: nat, M: int, j: nat): (s: seq<int>)
    ensures |s| == m && forall i {:trigger s[i]} :: 0 <= i < m ==> s[i] == j * M - if i < j then m * M else 0
  {
    seq(m, i => j * M - if i < j then m * M else 0)
  }

  lemma {:induction false} SumOfEqual(m: nat, M: int, n: nat)
    requires n <= m
    ensures SumTo(Equal(m, M), n) == n * M
  {
    if n > 0 {
      SumOfEqual(m, M, n - 1);
      assert n * M == (n - 1) * M + M;
    }
  }

  /** A call on the stair raises every entry by M and chooses the first position not chosen before. */
  lemma StairChooses(m: nat, M: int, j: nat)
    requires j < m && M >= 1
    ensures Pick(Stair(m, M, j), Equal(m, M)) == j
    ensures forall i :: 0 <= i < m ==>
      Raise(Stair(m, M, j), Equal(m, M))[i] == (j + 1) * M - if i < j then m * M else 0
  {
    hide FirstMaxBelow;
    var r := Raise(Stair(m, M, j), Equal(m, M));
    assert (j + 1) * M == j * M + M;
    assert m * M >= 1 by {
      assert m * M == (m - 1) * M + M && (m - 1) * M >= 0;
    }
    var p := FirstMax(r);
    assert r[j] == (j + 1) * M && r[p] >= r[j];
  }

  lemma StepOnStair(m: nat, M: int, j: nat)
    requires j < m && M >= 1
    ensures Step(Stair(m, M, j), Equal(m, M)) == Stair(m, M, j + 1)
  {
    hide Step, Pick, Sum, Stair, Equal;
    var cur, w := Stair(m, M, j), Equal(m, M);
    StairChooses(m, M, j);
    TotalOfEqual(m, M);
    var total, below, next := m * M, j * M, (j + 1) * M;
    assert next == below + M;
    forall i | 0 <= i < m ensures Step(cur, w)[i] == Stair(m, M, j + 1)[i] {
      StepEntry(cur, w, i);
    }
  }

  lemma TotalOfEqual(m: nat, M: int)
    ensures Sum(Equal(m, M)) == m * M
  {
    SumOfEqual(m, M, m);
  }

  lemma {:induction false} RunOnStair(m: nat, M: int, j: nat)
    requires j <= m && m >= 1 && M >= 1
    ensures Run(Equal(m, M), j) == Stair(m, M, j)
  {
    hide Step, Equal;
    if j > 0 {
      RunOnStair(m, M, j - 1);
      StepOnStair(m, M, j - 1);
    } else {
      assert 0 * M == 0;
    }
  }

  /** After n - 1 calls on n equal weights the last current weight is n - 1 times the weight. */
  lemma BoundIsAttained(n: nat, M: int)
    requires n >= 1 && M >= 1
    ensures Positive(Equal(n, M)) && Heaviest(Equal(n, M)) == M
    ensures Run(Equal(n, M), n - 1)[n - 1] == (n - 1) * Heaviest(Equal(n, M))
  {
    hide Run;
    RunOnStair(n, M, n - 1);
  }
}
