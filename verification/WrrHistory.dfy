/** The weighted round-robin state of one selector over whole histories of calls, in 64-bit arithmetic. */
module WrrHistory {
  import opened Base
  import opened SmoothWrr

  type UpstreamList = seq<WeightedUpstream>

  datatype WrrState = WrrState(upstreams: UpstreamList, weights: seq<int>, current: seq<int>) {
    predicate Valid() {
      weights == Weights(upstreams) && |current| == |upstreams|
    }
  }

  const INITIAL := WrrState([], [], [])

  function Raise64(cur: seq<int>, w: seq<int>): (r: seq<int>)
    requires |cur| == |w|
    ensures |r| == |w| && forall i {:trigger r[i]} :: 0 <= i < |w| ==> r[i] == Int64(cur[i] + w[i])
  {
    seq(|w|, i requires 0 <= i < |w| => Int64(cur[i] + w[i]))
  }

  /** The state a call works on: the old one if the list is the same, a fresh one otherwise. */
  function Prepare(st: WrrState, upstreams: UpstreamList): (r: WrrState)
    requires st.Valid()
    ensures r.Valid() && r.upstreams == upstreams
  {
    if st.upstreams == upstreams then st
    else WrrState(upstreams, Weights(upstreams), Zeros(|upstreams|))
  }

  function Chosen(st: WrrState, upstreams: UpstreamList): (m: nat)
    requires st.Valid() && upstreams != []
    ensures m < |upstreams|
  {
    var s := Prepare(st, upstreams);
    SeededMax(s.current[0], Raise64(s.current, s.weights))
  }

  /** One call, every operation wrapping as the machine's integers do. */
  function Call(st: WrrState, upstreams: UpstreamList): (r: WrrState)
    requires st.Valid() && upstreams != []
    ensures r.Valid() && r.upstreams == upstreams
  {
    var s := Prepare(st, upstreams);
    var raised := Raise64(s.current, s.weights);
    var m := Chosen(st, upstreams);
    s.(current := raised[m := Int64(raised[m] - Int64(Sum(s.weights)))])
  }

  /** Where the scan for the maximum stands after the first i entries. */
  ghost predicate Scanned(seed: int, raised: seq<int>, i: nat, idx: nat, max: int) {
    && i <= |raised| && idx < |raised| && seed <= max
    && (forall j :: 0 <= j < i ==> raised[j] <= max)
    && (if max == seed then idx == 0
        else idx < i && raised[idx] == max && forall j :: 0 <= j < idx ==> raised[j] < max)
  }

  lemma ScanDone(seed: int, raised: seq<int>, idx: nat, max: int)
    requires Scanned(seed, raised, |raised|, idx, max)
    ensures idx == SeededMax(seed, raised)
  {
    var m := FirstMax(raised);
    if max != seed {
      assert raised[m] >= raised[idx] && raised[idx] >= raised[m];
    }
  }

  lemma EmptyTotal(w: seq<int>)
    ensures Int64(SumTo(w, 0)) == 0
  {
  }

  lemma TotalOfOneMore(w: seq<int>, i: nat, total: int)
    requires i < |w| && total == Int64(SumTo(w, i))
    ensures Int64(total + w[i]) == Int64(SumTo(w, i + 1))
  {
    Int64Absorbs(SumTo(w, i), w[i]);
  }

  /** n upstreams of which the heaviest has weight M, with n * M below 2^63. */
  predicate Fits(upstreams: UpstreamList) {
    upstreams != [] && |upstreams| * Heaviest(Weights(upstreams)) < TWO63
  }

  lemma RaiseInRange(w: seq<int>, k: nat, i: nat)
    requires Positive(w) && |w| * Heaviest(w) < TWO63 && i < |w|
    ensures 0 < Sum(w) < TWO63
    ensures -Sum(w) < Run(w, k)[i] && Run(w, k)[i] + w[i] < TWO63
  {
    hide Run, Picks, SumTo, Heaviest;
    SumOfPositive(w, |w|);
    SumBounds(w, 1, Heaviest(w), |w|);
    AboveMinusTotal(w, k, i);
    CurrentsAtMost(w, k, i);
    var n, M := |w|, Heaviest(w);
    assert n * M == (n - 1) * M + M;
  }

  lemma RaiseDoesNotWrap(w: seq<int>, k: nat)
    requires Positive(w) && |w| * Heaviest(w) < TWO63
    ensures Raise64(Run(w, k), w) == Raise(Run(w, k), w)
  {
    hide Run, SumTo, FirstMax;
    forall i | 0 <= i < |w| ensures Raise64(Run(w, k), w)[i] == Run(w, k)[i] + w[i] {
      RaiseInRange(w, k, i);
    }
  }

  /** The first entry always beats the threshold the scan starts from. */
  lemma ScanFindsTheMaximum(w: seq<int>, k: nat)
    requires Positive(w) && |w| * Heaviest(w) < TWO63
    ensures SeededMax(Run(w, k)[0], Raise64(Run(w, k), w)) == Pick(Run(w, k), w)
  {
    hide Run, Sum, FirstMax;
    RaiseDoesNotWrap(w, k);
    assert Raise(Run(w, k), w)[0] > Run(w, k)[0];
  }

  lemma ReductionDoesNotWrap(w: seq<int>, k: nat)
    requires Positive(w) && |w| * Heaviest(w) < TWO63
    ensures var r, m := Raise64(Run(w, k), w), Pick(Run(w, k), w);
      r[m := Int64(r[m] - Int64(Sum(w)))] == Run(w, k + 1)
  {
    hide Run, Sum, Pick;
    RaiseDoesNotWrap(w, k);
    RaiseInRange(w, k + 1, Pick(Run(w, k), w));
    RunStep(w, k);
  }

  /** On a fitting list no operation of any call wraps: the machine's step is the exact step. */
  lemma MachineStepIsExact(st: WrrState, upstreams: UpstreamList, k: nat)
    requires Fits(upstreams)
    requires st.Valid() && Prepare(st, upstreams).current == Run(Weights(upstreams), k)
    ensures Chosen(st, upstreams) == Pick(Run(Weights(upstreams), k), Weights(upstreams))
    ensures Call(st, upstreams).current == Run(Weights(upstreams), k + 1)
  {
    hide Run, Sum, Pick, Prepare, Weights, Raise64, Int64, SeededMax;
    ScanFindsTheMaximum(Weights(upstreams), k);
    ReductionDoesNotWrap(Weights(upstreams), k);
  }

  // ----- histories

  ghost predicate NonEmptyLists(history: seq<UpstreamList>) {
    forall j :: 0 <= j < |history| ==> history[j] != []
  }

  function After(history: seq<UpstreamList>): (st: WrrState)
    requires NonEmptyLists(history)
    ensures st.Valid()
    ensures history != [] ==> st.upstreams == history[|history| - 1]
  {
    if history == [] then INITIAL
    else Call(After(history[..|history| - 1]), history[|history| - 1])
  }

  /** What call number k of the history chose. */
  function ChosenAt(history: seq<UpstreamList>, k: nat): (m: nat)
    requires NonEmptyLists(history) && k < |history|
    ensures m < |history[k]|
  {
    Chosen(After(history[..k]), history[k])
  }

  /** How many calls in a row, ending with call number k, were made with the same list. */
  function Streak(history: seq<UpstreamList>, k: nat): (n: nat)
    requires k < |history|
    ensures 1 <= n <= k + 1
  {
    if k > 0 && history[k] == history[k - 1] then Streak(history, k - 1) + 1 else 1
  }

  /** Whatever came before, the state after a call is that of a fresh run as long as the current streak. */
  lemma {:induction false} HistoryIsRun(history: seq<UpstreamList>, k: nat)
    requires NonEmptyLists(history) && k < |history| && Fits(history[k])
    ensures var w := Weights(history[k]);
      && ChosenAt(history, k) == Pick(Run(w, Streak(history, k) - 1), w)
      && After(history[..k + 1]).current == Run(w, Streak(history, k))
  {
    hide Run, Call, Pick, Chosen, Weights;
    var st, list := After(history[..k]), history[k];
    var w := Weights(list);
    assert history[..k + 1][..k] == history[..k];
    RunStep(w, 0);
    if k > 0 && list == history[k - 1] {
      HistoryIsRun(history, k - 1);
    } else if k > 0 {
      assert st.upstreams == history[k - 1];
    }
    MachineStepIsExact(st, list, Streak(history, k) - 1);
  }

  /** How many of the calls lo, ..., hi - 1 chose position i. */
  function ChosenCount(history: seq<UpstreamList>, lo: nat, hi: nat, i: nat): nat
    requires NonEmptyLists(history) && lo <= hi <= |history|
    decreases hi
  {
    if lo == hi then 0
    else ChosenCount(history, lo, hi - 1, i) + if ChosenAt(history, hi - 1) == i then 1 else 0
  }

  lemma {:induction false} CountsAgree(history: seq<UpstreamList>, lo: nat, hi: nat, i: nat)
    requires NonEmptyLists(history) && lo < |history| && lo <= hi <= |history| && Fits(history[lo])
    requires forall k :: lo <= k < hi ==> history[k] == history[lo]
    ensures var s := Streak(history, lo) - 1;
      ChosenCount(history, lo, hi, i) == Picks(Weights(history[lo]), s, s + hi - lo, i)
    ensures lo < hi ==> Streak(history, hi - 1) == Streak(history, lo) + hi - 1 - lo
    decreases hi
  {
    hide Run, After, Pick, Weights, ChosenAt;
    if lo < hi {
      CountsAgree(history, lo, hi - 1, i);
      HistoryIsRun(history, hi - 1);
    }
  }

  /** In every history, any W consecutive calls with one list of total weight W choose each of its
      upstreams exactly its weight many times. */
  lemma FairInEveryHistory(history: seq<UpstreamList>, lo: nat, hi: nat, i: nat)
    requires NonEmptyLists(history) && lo < hi <= |history|
    requires forall k :: lo <= k < hi ==> history[k] == history[lo]
    requires Fits(history[lo]) && hi - lo == Sum(Weights(history[lo])) && i < |history[lo]|
    ensures ChosenCount(history, lo, hi, i) == history[lo][i].EffectiveWeight()
  {
    hide Picks, ChosenCount, SumTo;
    CountsAgree(history, lo, hi, i);
    AnyRoundIsExact(Weights(history[lo]), Streak(history, lo) - 1, i);
  }

  const M := TWO63 - 1
  const HEAVY := [WeightedUpstream("a", M), WeightedUpstream("b", M)]

  lemma HeavyPair()
    ensures Weights(HEAVY) == [M, M] && Sum([M, M]) == M + M && Zeros(2) == [0, 0]
  {
    var s: seq<int> := [M, M];
    assert s[0] == s[1] == M && SumTo(s, 0) == 0;
    assert SumTo(s, 1) == SumTo(s, 0) + s[0];
  }

  lemma MaxOfPair(a: int, b: int)
    ensures FirstMax([a, b]) == if b > a then 1 else 0
  {
    var s := [a, b];
    assert s[0] == a && s[1] == b;
  }

  lemma HeavyFirstCall()
    ensures Call(INITIAL, HEAVY) == WrrState(HEAVY, [M, M], [-M, M]) && Chosen(INITIAL, HEAVY) == 0
  {
    hide SumTo, Weights, Zeros, FirstMaxBelow;
    HeavyPair();
    assert Raise64([0, 0], [M, M]) == [M, M];
    MaxOfPair(M, M);
  }

  lemma HeavySecondCall()
    ensures Chosen(WrrState(HEAVY, [M, M], [-M, M]), HEAVY) == 0
    ensures Pick(Run([M, M], 1), [M, M]) == 1
  {
    hide Sum, Weights, FirstMaxBelow, Run;
    HeavyPair();
    assert Raise64([-M, M], [M, M]) == [0, -2];
    MaxOfPair(0, -2);
    MaxOfPair(M, M);
    MaxOfPair(0, M + M);
    RunStep([M, M], 0);
    assert Raise([0, 0], [M, M]) == [M, M];
    assert Run([M, M], 1) == [-M, M];
    assert Raise([-M, M], [M, M]) == [0, M + M];
  }

  /** Without the bound the promise fails: two upstreams of the largest weight should alternate, but the
      second call wraps the other entry to -2 and chooses the first upstream again. */
  lemma WrappingBreaksFairness()
    ensures ChosenAt([HEAVY, HEAVY], 0) == ChosenAt([HEAVY, HEAVY], 1) == 0
    ensures Weights(HEAVY) == [M, M] && Pick(Run([M, M], 1), [M, M]) == 1
  {
    hide Sum, Weights, Pick, Run, Call, Chosen;
    HeavyPair();
    HeavyFirstCall();
    HeavySecondCall();
    var h := [HEAVY, HEAVY];
    assert h[..0] == [] && h[..1] == [HEAVY] && [HEAVY][..0] == [];
    assert After([]) == INITIAL;
    assert After([HEAVY]) == Call(After([HEAVY][..0]), HEAVY);
  }
}
