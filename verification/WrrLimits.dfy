/** How many upstreams of what weight the 64-bit weighted round-robin serves as it should: exactly those bounds
    whose product is below 2^63. */
module WrrLimits {
  import opened Base
  import opened SmoothWrr
  import opened WrrHistory

  /** At most n upstreams with effective weights up to M. */
  ghost predicate Bounded(upstreams: UpstreamList, n: nat, M: int) {
    && upstreams != [] && |upstreams| <= n
    && forall i :: 0 <= i < |upstreams| ==> upstreams[i].EffectiveWeight() <= M
  }

  /** k calls with one list. */
  function Repeated(upstreams: UpstreamList, k: nat): (history: seq<UpstreamList>)
    ensures |history| == k && forall j :: 0 <= j < k ==> history[j] == upstreams
  {
    seq(k, _ => upstreams)
  }

  lemma RepeatedPrefix(upstreams: UpstreamList, j: nat, k: nat)
    requires j <= k
    ensures Repeated(upstreams, k)[..j] == Repeated(upstreams, j)
  {
  }

  /** The calls choose what the algorithm over unbounded integers chooses. */
  ghost predicate ExactFor(upstreams: UpstreamList)
    requires upstreams != []
  {
    forall k: nat :: ChosenAt(Repeated(upstreams, k + 1), k) == Pick(Run(Weights(upstreams), k), Weights(upstreams))
  }

  /** No upstream is ever a full pick ahead of its share. */
  ghost predicate SmoothFor(upstreams: UpstreamList)
    requires upstreams != []
  {
    forall k: nat, i: nat :: i < |upstreams| ==> NotAhead(upstreams, k, i)
  }

  ghost predicate NotAhead(upstreams: UpstreamList, k: nat, i: nat)
    requires upstreams != [] && i < |upstreams|
  {
    var W := Sum(Weights(upstreams));
    W * ChosenCount(Repeated(upstreams, k), 0, k, i) < k * upstreams[i].EffectiveWeight() + W
  }

  // ----- below the bound

  lemma BoundedFits(upstreams: UpstreamList, n: nat, M: int)
    requires Bounded(upstreams, n, M) && n * M < TWO63
    ensures Fits(upstreams)
  {
    hide Heaviest;
    var h := Heaviest(Weights(upstreams));
    var i :| 0 <= i < |upstreams| && h == Weights(upstreams)[i];
    ProductMonotone(|upstreams|, n, h, M);
  }

  lemma ProductMonotone(a: nat, n: nat, h: int, M: int)
    requires a <= n && 0 <= h <= M
    ensures a * h <= n * M
  {
    assert n * M == a * M + (n - a) * M;
    assert a * M == a * h + a * (M - h);
  }

  lemma {:induction false} StreakOfRepeated(upstreams: UpstreamList, n: nat, k: nat)
    requires k < n
    ensures Streak(Repeated(upstreams, n), k) == k + 1
  {
    if k > 0 {
      StreakOfRepeated(upstreams, n, k - 1);
    }
  }

  lemma FittingIsExact(upstreams: UpstreamList)
    requires Fits(upstreams)
    ensures ExactFor(upstreams)
  {
    assert upstreams != [];
    hide Fits, Pick, Run, ChosenAt;
    forall k: nat
      ensures ChosenAt(Repeated(upstreams, k + 1), k) == Pick(Run(Weights(upstreams), k), Weights(upstreams))
    {
      HistoryIsRun(Repeated(upstreams, k + 1), k);
      StreakOfRepeated(upstreams, k + 1, k);
    }
  }

  lemma FittingIsSmooth(upstreams: UpstreamList)
    requires Fits(upstreams)
    ensures SmoothFor(upstreams)
  {
    hide Fits, Pick, Run, ChosenAt, Sum;
    forall k: nat, i: nat | i < |upstreams| ensures NotAhead(upstreams, k, i) {
      var w := Weights(upstreams);
      SmoothAtEveryPrefix(w, k, i);
      if k > 0 {
        CountsAgree(Repeated(upstreams, k), 0, k, i);
      } else {
        RunStep(w, 0);
        assert Picks(w, 0, 0, i) == 0;
      }
    }
  }

  // ----- beyond it

  /** m upstreams of weight M. */
  function Flat(m: nat, M: int): (upstreams: UpstreamList)
    ensures |upstreams| == m && forall i :: 0 <= i < m ==> upstreams[i].weight == M
  {
    seq(m, _ => WeightedUpstream("a", M))
  }

  /** m is the least number of upstreams of weight M that does not fit. */
  predicate Least(m: nat, M: int) {
    m >= 2 && M >= 1 && TWO63 <= m * M < TWO63 + M
  }

  lemma FlatWeights(m: nat, M: int)
    requires Least(m, M)
    ensures Weights(Flat(m, M)) == Equal(m, M)
    ensures Sum(Equal(m, M)) == m * M && Int64(m * M) == m * M - TWO64 < 0
  {
    SumOfEqual(m, M, m);
    assert m * M == (m - 1) * M + M && (m - 1) * M >= M;
  }

  lemma MultiplesInRange(m: nat, M: int, j: nat)
    requires Least(m, M) && j < m - 1
    ensures 0 < (j + 1) * M < TWO63 && -TWO63 < (j + 1) * M - m * M < 0
  {
    var d := m - 1 - (j + 1);
    assert m * M == (j + 1) * M + d * M + M;
    assert d * M >= 0 && j * M >= 0 && (j + 1) * M == j * M + M;
  }

  /** Of the first m - 1 calls, number j chooses position j, as it should. */
  lemma StairStep(m: nat, M: int, j: nat, st: WrrState)
    requires Least(m, M) && j < m - 1 && st.Valid()
    requires Prepare(st, Flat(m, M)).current == Stair(m, M, j)
    ensures Chosen(st, Flat(m, M)) == j
    ensures Call(st, Flat(m, M)).current == Stair(m, M, j + 1)
  {
    hide FirstMaxBelow, Sum, Prepare;
    var cur, w := Stair(m, M, j), Equal(m, M);
    FlatWeights(m, M);
    StairChooses(m, M, j);
    forall i | 0 <= i < m ensures Raise64(cur, w)[i] == Raise(cur, w)[i] {
      MultiplesInRange(m, M, j);
    }
    assert Raise64(cur, w) == Raise(cur, w);
    assert Raise(cur, w)[j] > cur[0] by {
      MultiplesInRange(m, M, j);
      assert (j + 1) * M == j * M + M;
    }
    MultiplesInRange(m, M, j);
    assert Int64((j + 1) * M - (m * M - TWO64)) == (j + 1) * M - m * M;
  }

  lemma {:induction false} MachineOnStair(m: nat, M: int, j: nat)
    requires Least(m, M) && j <= m - 1
    ensures Prepare(After(Repeated(Flat(m, M), j)), Flat(m, M)).current == Stair(m, M, j)
  {
    hide Call, Least;
    var h := Repeated(Flat(m, M), j);
    if j > 0 {
      RepeatedPrefix(Flat(m, M), j - 1, j);
      MachineOnStair(m, M, j - 1);
      StairStep(m, M, j - 1, After(h[..j - 1]));
    }
  }

  /** The call after those raises the last entry past 2^63, where it turns negative, and position 0 is chosen
      again. */
  lemma LastCallWraps(m: nat, M: int, st: WrrState)
    requires Least(m, M) && st.Valid()
    requires Prepare(st, Flat(m, M)).current == Stair(m, M, m - 1)
    ensures Chosen(st, Flat(m, M)) == 0
  {
    hide FirstMaxBelow, Sum, Prepare;
    var cur, w := Stair(m, M, m - 1), Equal(m, M);
    FlatWeights(m, M);
    assert m * M == (m - 1) * M + M;
    var r := Raise64(cur, w);
    assert cur[0] == -M && r[0] == 0 && r[m - 1] < 0;
    assert forall i :: 0 <= i < m - 1 ==> r[i] == 0;
    var p := FirstMax(r);
    assert r[p] >= r[0];
  }

  lemma {:induction false} CountGrows(history: seq<UpstreamList>, mid: nat, hi: nat, i: nat)
    requires NonEmptyLists(history) && mid <= hi <= |history|
    ensures ChosenCount(history, 0, mid, i) <= ChosenCount(history, 0, hi, i)
    decreases hi
  {
    hide ChosenAt;
    if mid < hi {
      CountGrows(history, mid, hi - 1, i);
    }
  }

  /** The calls of m upstreams of weight M: 0, 1, ..., m - 2, and 0 again, where m - 1 was due. */
  lemma LeastMisleads(m: nat, M: int)
    requires Least(m, M)
    ensures !ExactFor(Flat(m, M)) && !SmoothFor(Flat(m, M))
  {
    assert m >= 2;
    hide Call, Chosen, Least, ChosenAt, Sum, Pick, Run;
    var list := Flat(m, M);
    var h := Repeated(list, m);
    FlatWeights(m, M);
    MachineOnStair(m, M, 0);
    StairStep(m, M, 0, After(Repeated(list, 0)));
    MachineOnStair(m, M, m - 1);
    LastCallWraps(m, M, After(Repeated(list, m - 1)));
    CallOfRepeated(list, 0, m);
    CallOfRepeated(list, m - 1, m);
    assert ChosenAt(h, 0) == 0 && ChosenAt(h, m - 1) == 0;
    RunOnStair(m, M, m - 1);
    StairChooses(m, M, m - 1);
    assert !ExactFor(list);
    CountGrows(h, 1, m - 1, 0);
    assert ChosenCount(h, 0, m, 0) >= 2;
    TwiceIsTooMany(m * M, ChosenCount(h, 0, m, 0));
    assert !NotAhead(list, m, 0);
  }

  lemma CallOfRepeated(upstreams: UpstreamList, j: nat, k: nat)
    requires upstreams != [] && j < k
    ensures ChosenAt(Repeated(upstreams, k), j) == Chosen(After(Repeated(upstreams, j)), upstreams)
  {
    hide Chosen, After;
    RepeatedPrefix(upstreams, j, k);
  }

  lemma TwiceIsTooMany(W: int, c: nat)
    requires W >= 0 && c >= 2
    ensures W * c >= W + W
  {
    assert W * c == W + W + W * (c - 2);
  }

  // ----- the exact bound

  /** For up to n upstreams with effective weights up to M, the machine chooses what the algorithm over
      unbounded integers chooses if and only if n * M is below 2^63; and the same bound decides whether no
      upstream is ever a full pick ahead of its share. */
  lemma ExactIff(n: nat, M: int)
    requires 1 <= M < TWO63
    ensures (forall us: UpstreamList :: Bounded(us, n, M) ==> ExactFor(us)) <==> n * M < TWO63
    ensures (forall us: UpstreamList :: Bounded(us, n, M) ==> SmoothFor(us)) <==> n * M < TWO63
  {
    hide ExactFor, SmoothFor, Least;
    if n * M < TWO63 {
      forall us: UpstreamList | Bounded(us, n, M) ensures ExactFor(us) && SmoothFor(us) {
        BoundedFits(us, n, M);
        FittingIsExact(us);
        FittingIsSmooth(us);
      }
    } else {
      var m := TooMany(M);
      QuotientBound(n, M, m);
      assert Least(m, M) by {
        LeastIsTwo(M);
      }
      LeastMisleads(m, M);
      assert Bounded(Flat(m, M), n, M);
    }
  }

  lemma LeastIsTwo(M: int)
    requires 1 <= M < TWO63
    ensures Least(TooMany(M), M)
  {
    assert TooMany(M) != 1;
  }
}
