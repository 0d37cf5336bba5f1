/** Choosing one upstream of a candidate list, with the state each algorithm carries from call to call. */
module Selector {
  import opened Base
  import opened Requests
  import opened Balance
  import opened HashRing
  import RingStability
  import Memo
  import RoundRobin
  import SmoothWrr
  import WrrHistory

  const VIRTUAL_NODES := 150

  const ROUND_ROBIN := "round_robin"
  const WEIGHTED_ROUND_ROBIN := "weighted_round_robin"
  const IP_HASH := "ip_hash"
  const URI_HASH := "uri_hash"
  const HEADER_HASH := "header_hash"
  const LEAST_CONN := "least_conn"
  const FIRST := "first"
  const CONSISTENT_HASH := "consistent_hash"
  const WEIGHTED_RANDOM := "weighted_random"

  /** A source of random numbers: a value in [0, n) for every positive n. */
  ghost predicate IsRandom(intn: int -> int) {
    forall n :: n > 0 ==> 0 <= intn(n) < n
  }

  function Fingerprint(hash: Hash): UpstreamList -> uint32 {
    l => ConfigHash(hash, l)
  }

  /** The state of a selector. */
  datatype State = State(rrIndex: int, wrr: WrrHistory.WrrState, ring: Option<Ring>, conns: map<string, int>) {
    ghost predicate Valid(hash: Hash) {
      && 0 <= rrIndex < TWO64
      && wrr.Valid()
      && (ring.Some? ==> ring.value.upstreams != [] && IsRing(ring.value, hash, VIRTUAL_NODES, ring.value.upstreams))
    }

    /** The list the kept ring was built from. */
    function RingList(): Option<UpstreamList> {
      if ring.None? then None else Some(ring.value.upstreams)
    }

    function ConnCount(address: string): int {
      if address in conns then conns[address] else 0
    }

    function Loads(upstreams: UpstreamList): (l: seq<Load>)
      ensures |l| == |upstreams|
      ensures forall i :: 0 <= i < |l| ==> l[i] == Load(ConnCount(upstreams[i].address), upstreams[i].EffectiveWeight())
    {
      seq(|upstreams|, i requires 0 <= i < |upstreams| =>
        Load(ConnCount(upstreams[i].address), upstreams[i].EffectiveWeight()))
    }

    /** The kept ring, if a call with this list would use it, was built from this very list. */
    predicate RingFits(hash: Hash, upstreams: UpstreamList) {
      RingList().Some? && Fingerprint(hash)(RingList().value) == Fingerprint(hash)(upstreams) ==>
        RingList().value == upstreams
    }
  }

  const INITIAL := State(0, WrrHistory.INITIAL, None, map[])

  /** The configuration of a selector. */
  datatype Settings = Settings(algorithm: string, hashKey: string, hash: Hash) {
    function HashKeyOf(r: Request): string {
      if hashKey == "" || r.header(hashKey) == "" then r.clientIP else r.header(hashKey)
    }

    /** The position that a hashed text falls on. */
    function HashIndex(text: string, n: nat): (i: nat)
      requires n > 0
      ensures i < n
    {
      hash(text) % n
    }

    ghost predicate ChoosesAtRandom(upstreams: UpstreamList, intn: int -> int, u: WeightedUpstream) {
      var w := Weights(upstreams);
      var total := Int64(Sum(w));
      exists m: nat :: m < |upstreams| && u == upstreams[m] &&
        if total <= 0 then m == intn(|upstreams|) else FirstAbove(w, intn(total), m)
    }

    /** What a call with two or more candidates answers, and the state it leaves. */
    ghost predicate Chooses(before: State, r: Request, upstreams: UpstreamList, intn: int -> int,
                            after: State, u: WeightedUpstream)
      requires before.Valid(hash) && upstreams != []
    {
      if algorithm == ROUND_ROBIN then
        && u == upstreams[RoundRobin.Ticket(before.rrIndex, 0) % |upstreams|]
        && after == before.(rrIndex := RoundRobin.Ticket(before.rrIndex, 1))
      else if algorithm == WEIGHTED_ROUND_ROBIN then
        && u == upstreams[WrrHistory.Chosen(before.wrr, upstreams)]
        && after == before.(wrr := WrrHistory.Call(before.wrr, upstreams))
      else if algorithm == CONSISTENT_HASH then
        && after == before.(ring := after.ring)
        && after.RingList() == Memo.Next(before.RingList(), upstreams, Fingerprint(hash))
        && after.ring.Some? && Some(u) == Owner(after.ring.value, hash(HashKeyOf(r)))
      else
        && after == before
        && if algorithm == IP_HASH then u == upstreams[HashIndex(r.clientIP, |upstreams|)]
           else if algorithm == URI_HASH then u == upstreams[HashIndex(r.path, |upstreams|)]
           else if algorithm == HEADER_HASH && r.header(hashKey) != "" then
             u == upstreams[HashIndex(r.header(hashKey), |upstreams|)]
           else if algorithm == FIRST then u == upstreams[0]
           else if algorithm == LEAST_CONN then u == upstreams[LeastLoaded(before.Loads(upstreams), |upstreams|)]
           else ChoosesAtRandom(upstreams, intn, u)
    }
  }

  class UpstreamSelector {
    const algorithm: string
    const hashKey: string
    const hash: Hash

    var rrIndex: int

    var wrrUpstreams: UpstreamList
    var wrrWeights: seq<int>
    var wrrCurrent: seq<int>

    var hashRing: Option<Ring>

    var connCounts: map<string, int>

    ghost predicate Valid()
      reads this
    {
      View().Valid(hash)
    }

    ghost function View(): State
      reads this
    {
      State(rrIndex, WrrHistory.WrrState(wrrUpstreams, wrrWeights, wrrCurrent), hashRing, connCounts)
    }

    ghost function Config(): Settings {
      Settings(algorithm, hashKey, hash)
    }

    ghost function Wrr(): WrrHistory.WrrState
      reads this
    {
      View().wrr
    }

    constructor (algorithm: string, hashKey: string, hash: Hash)
      ensures Valid()
      ensures this.algorithm == algorithm && this.hashKey == hashKey && this.hash == hash
      ensures View() == INITIAL
    {
      this.algorithm, this.hashKey, this.hash := algorithm, hashKey, hash;
      rrIndex := 0;
      wrrUpstreams, wrrWeights, wrrCurrent := [], [], [];
      hashRing := None;
      connCounts := map[];
    }

    /** The caller gets the counter's next ticket, and the counter moves on, wrapping after 2^64. */
    method SelectRoundRobin(upstreams: UpstreamList) returns (idx: nat)
      requires Valid() && upstreams != []
      modifies this`rrIndex
      ensures Valid()
      ensures idx == RoundRobin.Ticket(old(rrIndex), 0) % |upstreams| && idx < |upstreams|
      ensures rrIndex == RoundRobin.Ticket(old(rrIndex), 1)
    {
      rrIndex := (rrIndex + 1) % TWO64;
      var ticket := (rrIndex - 1) % TWO64;
      idx := ticket % |upstreams|;
    }

    method InitWeightedRoundRobin(upstreams: UpstreamList)
      modifies this`wrrUpstreams, this`wrrWeights, this`wrrCurrent
      ensures Wrr() == WrrHistory.WrrState(upstreams, Weights(upstreams), SmoothWrr.Zeros(|upstreams|))
    {
      wrrUpstreams := upstreams;
      wrrWeights := seq(|upstreams|, _ => 0);
      wrrCurrent := seq(|upstreams|, _ => 0);
      for i := 0 to |upstreams|
        invariant wrrUpstreams == upstreams && |wrrWeights| == |wrrCurrent| == |upstreams|
        invariant forall j :: 0 <= j < i ==> wrrWeights[j] == upstreams[j].EffectiveWeight() && wrrCurrent[j] == 0
      {
        wrrWeights := wrrWeights[i := upstreams[i].EffectiveWeight()];
        wrrCurrent := wrrCurrent[i := 0];
      }
    }

    /** Start over when the list is not the one the weights belong to. */
    method ResetWeightedRoundRobin(upstreams: UpstreamList)
      requires Valid()
      modifies this`wrrUpstreams, this`wrrWeights, this`wrrCurrent
      ensures Wrr() == WrrHistory.Prepare(old(Wrr()), upstreams)
    {
      if wrrUpstreams != upstreams {
        InitWeightedRoundRobin(upstreams);
      }
    }

    /** The loop of a call: every current weight grows by its weight, and the first to exceed all before
        it and the old current weight of position 0 is found. */
    method RaiseAndScan() returns (idx: nat, totalWeight: int)
      requires wrrCurrent != [] && |wrrCurrent| == |wrrWeights|
      modifies this`wrrCurrent
      ensures wrrCurrent == WrrHistory.Raise64(old(wrrCurrent), wrrWeights)
      ensures idx == SmoothWrr.SeededMax(old(wrrCurrent)[0], wrrCurrent)
      ensures totalWeight == Int64(Sum(wrrWeights))
    {
      hide SumTo, Int64, SmoothWrr.SeededMax;
      ghost var cur, w := wrrCurrent, wrrWeights;
      ghost var raised := WrrHistory.Raise64(cur, w);
      totalWeight := 0;
      idx := 0;
      var maxWeight := wrrCurrent[0];
      WrrHistory.EmptyTotal(w);
      for i := 0 to |wrrCurrent|
        invariant wrrWeights == w && |wrrCurrent| == |w|
        invariant forall j :: 0 <= j < i ==> wrrCurrent[j] == raised[j]
        invariant forall j :: i <= j < |w| ==> wrrCurrent[j] == cur[j]
        invariant totalWeight == Int64(SumTo(w, i))
        invariant WrrHistory.Scanned(cur[0], raised, i, idx, maxWeight)
      {
        wrrCurrent := wrrCurrent[i := Int64(wrrCurrent[i] + wrrWeights[i])];
        WrrHistory.TotalOfOneMore(w, i, totalWeight);
        totalWeight := Int64(totalWeight + wrrWeights[i]);
        if wrrCurrent[i] > maxWeight {
          maxWeight := wrrCurrent[i];
          idx := i;
        }
      }
      assert wrrCurrent == raised;
      WrrHistory.ScanDone(cur[0], raised, idx, maxWeight);
    }

    method SelectWeightedRoundRobin(upstreams: UpstreamList) returns (idx: nat)
      requires Valid() && upstreams != []
      modifies this`wrrUpstreams, this`wrrWeights, this`wrrCurrent
      ensures Valid()
      ensures idx == WrrHistory.Chosen(old(Wrr()), upstreams) && idx < |upstreams|
      ensures Wrr() == WrrHistory.Call(old(Wrr()), upstreams)
    {
      hide Sum, Int64, SmoothWrr.SeededMax, Weights, IsRing;
      ResetWeightedRoundRobin(upstreams);
      var totalWeight;
      idx, totalWeight := RaiseAndScan();
      wrrCurrent := wrrCurrent[idx := Int64(wrrCurrent[idx] - totalWeight)];
    }

    function ConnCount(address: string): int
      reads this
    {
      if address in connCounts then connCounts[address] else 0
    }

    method IncrementConn(address: string)
      modifies this`connCounts
      ensures connCounts == old(connCounts)[address := Int64(old(ConnCount(address)) + 1)]
    {
      if address !in connCounts {
        connCounts := connCounts[address := 0];
      }
      connCounts := connCounts[address := Int64(connCounts[address] + 1)];
    }

    /** An address never seen before is left alone; a count may go below zero. */
    method DecrementConn(address: string)
      modifies this`connCounts
      ensures connCounts == if address in old(connCounts)
        then old(connCounts)[address := Int64(old(connCounts)[address] - 1)] else old(connCounts)
    {
      if address in connCounts {
        connCounts := connCounts[address := Int64(connCounts[address] - 1)];
      }
    }

    /** The least connections per weight, then the larger weight, then the earlier position. */
    method SelectLeastConn(upstreams: UpstreamList) returns (idx: nat)
      requires upstreams != []
      ensures idx < |upstreams|
      ensures idx == LeastLoaded(View().Loads(upstreams), |upstreams|)
      ensures NoOverflow(View().Loads(upstreams)) ==> IsBest(View().Loads(upstreams), idx, |upstreams|)
    {
      hide IsBest, NoOverflow, Preferred64, Int64;
      ghost var loads := View().Loads(upstreams);
      idx := 0;
      var minConns := ConnCount(upstreams[0].address);
      var minWeight := upstreams[0].EffectiveWeight();
      for i := 1 to |upstreams|
        invariant idx == LeastLoaded(loads, i) && loads[idx] == Load(minConns, minWeight)
      {
        var conns := ConnCount(upstreams[i].address);
        var weight := upstreams[i].EffectiveWeight();
        ComparedAs(Load(conns, weight), Load(minConns, minWeight));
        if Int64(conns * minWeight) < Int64(minConns * weight) {
          idx, minConns, minWeight := i, conns, weight;
        } else if Int64(conns * minWeight) == Int64(minConns * weight) && weight > minWeight {
          idx, minConns, minWeight := i, conns, weight;
        }
      }
      if NoOverflow(loads) {
        LeastLoadedIsBest(loads, |loads|);
      }
    }

    /** The first position whose cumulative weight exceeds a number drawn below the total; when the total
        wraps to zero or less, any position. */
    method SelectWeightedRandom(upstreams: UpstreamList, intn: int -> int) returns (idx: nat)
      requires upstreams != [] && IsRandom(intn)
      ensures idx < |upstreams|
      ensures var w := Weights(upstreams); var total := Int64(Sum(w));
        if total <= 0 then idx == intn(|upstreams|) else FirstAbove(w, intn(total), idx)
    {
      hide SumTo, Int64;
      ghost var w := Weights(upstreams);
      WrrHistory.EmptyTotal(w);
      var totalWeight := 0;
      for i := 0 to |upstreams|
        invariant totalWeight == Int64(SumTo(w, i))
      {
        WrrHistory.TotalOfOneMore(w, i, totalWeight);
        totalWeight := Int64(totalWeight + upstreams[i].EffectiveWeight());
      }
      if totalWeight <= 0 {
        idx := intn(|upstreams|);
        return;
      }
      var target := intn(totalWeight);
      var cumulative := 0;
      assert Cumulative(w, |w| - 1) == totalWeight;
      idx := 0;
      for i := 0 to |upstreams|
        invariant cumulative == Int64(SumTo(w, i))
        invariant forall j :: 0 <= j < i ==> Cumulative(w, j) <= target
      {
        WrrHistory.TotalOfOneMore(w, i, cumulative);
        cumulative := Int64(cumulative + upstreams[i].EffectiveWeight());
        if target < cumulative {
          return i;
        }
      }
      assert false;
    }

    /** The answer is the owner of the request's key on the kept ring, which is rebuilt exactly when its
        fingerprint differs from that of the list. */
    method SelectConsistentHash(r: Request, upstreams: UpstreamList) returns (u: WeightedUpstream)
      requires Valid() && upstreams != []
      modifies this`hashRing
      ensures Valid()
      ensures View().RingList() == Memo.Next(old(View().RingList()), upstreams, Fingerprint(hash))
      ensures hashRing.Some? && Some(u) == Owner(hashRing.value, hash(Config().HashKeyOf(r)))
      ensures u in hashRing.value.upstreams
    {
      var configHash := ComputeUpstreamsHash(hash, upstreams);
      if hashRing.None? || hashRing.value.configHash != configHash {
        var ring := NewConsistentHashRing(hash, upstreams, VIRTUAL_NODES);
        hashRing := Some(ring);
      }
      var key := hashKey;
      if key == "" {
        key := r.clientIP;
      } else {
        key := r.header(hashKey);
        if key == "" {
          key := r.clientIP;
        }
      }
      var owner := Get(hashRing.value, hash, key);
      RingStability.OwnerOwns(hashRing.value, hash, VIRTUAL_NODES, hashRing.value.upstreams, hash(key));
      u := owner.value;
    }

    /** No answer for no candidate, the candidate for one, and for more what the algorithm chooses. */
    method Select(r: Request, upstreams: UpstreamList, intn: int -> int) returns (u: Option<WeightedUpstream>)
      requires Valid() && IsRandom(intn)
      modifies this
      ensures Valid()
      ensures upstreams == [] ==> u == None && View() == old(View())
      ensures |upstreams| == 1 ==> u == Some(upstreams[0]) && View() == old(View())
      ensures |upstreams| > 1 ==>
        u.Some? && Config().Chooses(old(View()), r, upstreams, intn, View(), u.value)
    {
      hide WrrHistory.Chosen, WrrHistory.Call, IsRing, Weights, Sum, Int64, IsBest, NoOverflow, LeastLoaded, FirstAbove;
      if |upstreams| == 0 {
        return None;
      }
      if |upstreams| == 1 {
        return Some(upstreams[0]);
      }
      var idx: nat := 0;
      if algorithm == ROUND_ROBIN {
        idx := SelectRoundRobin(upstreams);
      } else if algorithm == WEIGHTED_ROUND_ROBIN {
        idx := SelectWeightedRoundRobin(upstreams);
      } else if algorithm == IP_HASH {
        idx := hash(r.clientIP) % |upstreams|;
      } else if algorithm == URI_HASH {
        idx := hash(r.path) % |upstreams|;
      } else if algorithm == HEADER_HASH {
        if r.header(hashKey) == "" {
          idx := SelectWeightedRandom(upstreams, intn);
        } else {
          idx := hash(r.header(hashKey)) % |upstreams|;
        }
      } else if algorithm == FIRST {
        idx := 0;
      } else if algorithm == CONSISTENT_HASH {
        var owner := SelectConsistentHash(r, upstreams);
        return Some(owner);
      } else if algorithm == LEAST_CONN {
        idx := SelectLeastConn(upstreams);
      } else {
        idx := SelectWeightedRandom(upstreams, intn);
      }
      u := Some(upstreams[idx]);
    }
  }

  /** A kept ring that a call would use was built from the very list of the call. */
  predicate Fits(using: (Settings, State), upstreams: UpstreamList) {
    |upstreams| > 1 && using.0.algorithm == CONSISTENT_HASH ==> using.1.RingFits(using.0.hash, upstreams)
  }

  /** The choice is one of the candidates, provided a kept ring that the call would use fits the list. */
  lemma ChoiceIsACandidate(c: Settings, before: State, r: Request, upstreams: UpstreamList, intn: int -> int,
                           after: State, u: WeightedUpstream)
    requires before.Valid(c.hash) && after.Valid(c.hash) && upstreams != []
    requires c.Chooses(before, r, upstreams, intn, after, u)
    requires c.algorithm == CONSISTENT_HASH ==> before.RingFits(c.hash, upstreams)
    ensures u in upstreams
  {
    if c.algorithm == CONSISTENT_HASH {
      assert after.RingList() == Some(upstreams);
      RingStability.OwnerOwns(after.ring.value, c.hash, VIRTUAL_NODES, upstreams, c.hash(c.HashKeyOf(r)));
    }
  }

  /** Lists of a run with one fingerprint are one list. */
  ghost predicate ListsSeparated(hash: Hash, lists: set<UpstreamList>) {
    forall a, b :: a in lists && b in lists && Fingerprint(hash)(a) == Fingerprint(hash)(b) ==> a == b
  }

  /** Where every kept ring and the list itself belong to a run that the fingerprint separates, the choice
      is one of the candidates. */
  lemma ChoiceWithinRun(c: Settings, before: State, r: Request, upstreams: UpstreamList, intn: int -> int,
                        after: State, u: WeightedUpstream, lists: set<UpstreamList>)
    requires before.Valid(c.hash) && after.Valid(c.hash) && upstreams != []
    requires c.Chooses(before, r, upstreams, intn, after, u)
    requires upstreams in lists && (before.RingList().Some? ==> before.RingList().value in lists)
    requires ListsSeparated(c.hash, lists)
    ensures u in upstreams
  {
    hide State.Valid, Settings.Chooses;
    ChoiceIsACandidate(c, before, r, upstreams, intn, after, u);
  }

  /** A call leaves the ring as it was, or one built from its list. */
  lemma ChoiceKeepsRing(c: Settings, before: State, r: Request, upstreams: UpstreamList, intn: int -> int,
                        after: State, u: WeightedUpstream)
    requires before.Valid(c.hash) && upstreams != [] && c.Chooses(before, r, upstreams, intn, after, u)
    ensures after.RingList() == before.RingList() || after.RingList() == Some(upstreams)
  {
  }

  /** Where the fingerprint tells apart every two consecutive lists of a run that differ, a call is answered
      as a ring built afresh for its list would answer (given that addresses do not collide on the ring). */
  lemma CachedRingIsTransparent(hash: Hash, lists: seq<UpstreamList>, k: nat, kept: Ring, built: Ring, h: uint32)
    requires k < |lists| && lists[k] != []
    requires forall j :: 0 <= j < |lists| - 1 ==> Memo.StepSeparates(lists, j, Fingerprint(hash))
    requires Memo.Kept(lists[..k + 1], Fingerprint(hash)).Some?
    requires IsRing(kept, hash, VIRTUAL_NODES, Memo.Kept(lists[..k + 1], Fingerprint(hash)).value)
    requires IsRing(built, hash, VIRTUAL_NODES, lists[k])
    requires RingStability.NoCollision(RingStability.ListPoints(hash, VIRTUAL_NODES, lists[k]))
    ensures Owner(kept, h).Some? && Owner(built, h).Some?
      && Owner(kept, h).value.address == Owner(built, h).value.address
  {
    Memo.SeparatedRunIsFresh(lists, Fingerprint(hash), k);
    RingStability.OrderDoesNotMatter(hash, VIRTUAL_NODES, lists[k], lists[k], kept, built, h);
  }

  // ----- what each algorithm promises of a call with several candidates

  lemma RoundRobinChoice(c: Settings, before: State, r: Request, us: UpstreamList, intn: int -> int,
                         after: State, u: WeightedUpstream)
    requires before.Valid(c.hash) && us != [] && c.Chooses(before, r, us, intn, after, u)
    ensures c.algorithm == "round_robin" ==>
      u == us[before.rrIndex % |us|] && after == before.(rrIndex := (before.rrIndex + 1) % TWO64)
  {
  }

  /** After k calls with one list, however many other calls came before, the choice is that of the exact algorithm. */
  lemma WeightedRoundRobinChoice(c: Settings, before: State, r: Request, us: UpstreamList, intn: int -> int,
                                 after: State, u: WeightedUpstream, k: nat)
    requires before.Valid(c.hash) && us != [] && c.Chooses(before, r, us, intn, after, u)
    requires WrrHistory.Fits(us)
    requires WrrHistory.Prepare(before.wrr, us).current == SmoothWrr.Run(Weights(us), k)
    ensures c.algorithm == "weighted_round_robin" ==>
      && u == us[SmoothWrr.Pick(SmoothWrr.Run(Weights(us), k), Weights(us))]
      && WrrHistory.Prepare(after.wrr, us).current == SmoothWrr.Run(Weights(us), k + 1)
      && after == before.(wrr := after.wrr)
  {
    hide SmoothWrr.Run, SmoothWrr.Pick, IsRing, Weights, WrrHistory.Fits, WrrHistory.Chosen;
    WrrHistory.MachineStepIsExact(before.wrr, us, k);
  }

  /** The position is the hash of the client's address, the path or the header's value, modulo the length. */
  lemma HashedChoice(c: Settings, before: State, r: Request, us: UpstreamList, intn: int -> int,
                     after: State, u: WeightedUpstream)
    requires before.Valid(c.hash) && us != [] && c.Chooses(before, r, us, intn, after, u)
    ensures c.algorithm == "ip_hash" ==> u == us[c.hash(r.clientIP) % |us|] && after == before
    ensures c.algorithm == "uri_hash" ==> u == us[c.hash(r.path) % |us|] && after == before
    ensures c.algorithm == "header_hash" && r.header(c.hashKey) != "" ==>
      u == us[c.hash(r.header(c.hashKey)) % |us|] && after == before
    ensures c.algorithm == "first" ==> u == us[0] && after == before
  {
  }

  /** The owner of the header's hash, or of the client's where no header is configured or sent. */
  lemma ConsistentHashChoice(c: Settings, before: State, r: Request, us: UpstreamList, intn: int -> int,
                             after: State, u: WeightedUpstream)
    requires before.Valid(c.hash) && us != [] && c.Chooses(before, r, us, intn, after, u)
    requires c.algorithm == "consistent_hash"
    ensures after.ring.Some? && after == before.(ring := after.ring)
    ensures c.hashKey != "" && r.header(c.hashKey) != "" ==>
      Some(u) == Owner(after.ring.value, c.hash(r.header(c.hashKey)))
    ensures c.hashKey == "" || r.header(c.hashKey) == "" ==> Some(u) == Owner(after.ring.value, c.hash(r.clientIP))
    ensures before.ring.None? ==> after.RingList() == Some(us)
    ensures before.ring.Some? && ConfigHash(c.hash, before.ring.value.upstreams) != ConfigHash(c.hash, us) ==>
      after.RingList() == Some(us)
  {
    hide State.Valid, ConfigHash;
  }

  /** Exchanging one upstream, or its weight, makes some hash rebuild the ring for the new list if and only if the
      address differs or the weights differ by no multiple of 65536. */
  lemma RingFollowsListIff(before: UpstreamList, after: UpstreamList, u: WeightedUpstream, u': WeightedUpstream)
    requires u != u'
    ensures var x, y := before + [u] + after, before + [u'] + after;
      (exists hash: Hash :: Memo.Next(Some(x), y, Fingerprint(hash)) == Some(y))
        <==> !(u.address == u'.address && (u.weight - u'.weight) % 65536 == 0)
  {
    hide ConfigHash;
    FingerprintsAgreeIff(before, after, u, u');
    var x, y := before + [u] + after, before + [u'] + after;
    assert x[|before|] == u && y[|before|] == u';
    forall hash: Hash
      ensures Memo.Next(Some(x), y, Fingerprint(hash)) == Some(y) <==> ConfigHash(hash, x) != ConfigHash(hash, y)
    {
    }
  }

  /** Connections that are counted; an address never counted has none. */
  function Counted(conns: map<string, int>, address: string): int {
    if address in conns then conns[address] else 0
  }

  /** No candidate has fewer connections per weight; of those with as many none has more weight, and of those with
      as much none comes earlier. */
  lemma LeastConnChoice(c: Settings, before: State, r: Request, us: UpstreamList, intn: int -> int,
                        after: State, u: WeightedUpstream)
    requires before.Valid(c.hash) && us != [] && c.Chooses(before, r, us, intn, after, u)
    requires c.algorithm == "least_conn"
    requires forall i, j :: 0 <= i < |us| && 0 <= j < |us| ==>
      -TWO63 <= Counted(before.conns, us[i].address) * us[j].EffectiveWeight() < TWO63
    ensures after == before
    ensures exists m: nat :: m < |us| && u == us[m] && LeastLoadedAt(before.conns, us, m)
  {
    hide State.Valid, IsBest, LeastLoaded, Ratio;
    var loads := before.Loads(us);
    var m := LeastLoaded(loads, |us|);
    assert NoOverflow(loads);
    LeastLoadedIsBest(loads, |us|);
    BestIs(loads, m, |us|);
    assert LeastLoadedAt(before.conns, us, m);
  }

  ghost predicate LeastLoadedAt(conns: map<string, int>, us: UpstreamList, m: nat)
    requires m < |us|
  {
    var best := Load(Counted(conns, us[m].address), us[m].EffectiveWeight());
    forall j :: 0 <= j < |us| ==>
      var other := Load(Counted(conns, us[j].address), us[j].EffectiveWeight());
      || Ratio(best) < Ratio(other)
      || (Ratio(best) == Ratio(other) && best.w > other.w)
      || (Ratio(best) == Ratio(other) && best.w == other.w && m <= j)
  }

  /** Any other algorithm, and header_hash where the header is not sent: upstream m for the targets that its weight
      covers, counted from where the weights before it end. */
  lemma RandomChoice(c: Settings, before: State, r: Request, us: UpstreamList, intn: int -> int,
                     after: State, u: WeightedUpstream)
    requires before.Valid(c.hash) && us != [] && c.Chooses(before, r, us, intn, after, u)
    requires c.algorithm !in {"round_robin", "weighted_round_robin", "ip_hash", "uri_hash", "header_hash",
                              "least_conn", "first", "consistent_hash"}
      || (c.algorithm == "header_hash" && r.header(c.hashKey) == "")
    requires Sum(Weights(us)) < TWO63 && IsRandom(intn)
    ensures after == before
    ensures exists m: nat ::
      m < |us| && u == us[m] && SumTo(Weights(us), m) <= intn(Sum(Weights(us))) < SumTo(Weights(us), m + 1)
  {
    hide State.Valid, FirstAbove;
    var w := Weights(us);
    FairBelowBound(w, 0);
    hide Sum, Int64, Weights;
    var m: nat :| m < |us| && u == us[m] && FirstAbove(w, intn(Sum(w)), m);
    SearchInverts(w, intn(Sum(w)), m);
  }

  // ----- a run that the fingerprint does not separate

  const LIGHT := [WeightedUpstream("a", 1), WeightedUpstream("b", 1)]
  const HEAVY := [WeightedUpstream("a", 65537), WeightedUpstream("b", 1)]

  /** A hash for which node 15 of address a, which only the heavier list has, comes first of all. */
  function UnluckyHash(s: string): uint32 {
    if s == "a-15" || s == "k" then 1 else if s != "" && s[0] == 'b' then 2 else 3
  }

  lemma FifteenthLabel()
    ensures Label("a", 15) == "a-15"
  {
    assert Decimal(1) == [Digit(1)] && Decimal(15) == Decimal(1) + [Digit(5)];
  }

  lemma LabelHashes(j: nat)
    ensures UnluckyHash(Label("a", j)) == if j == 15 then 1 else 3
    ensures UnluckyHash(Label("b", j)) == 2
  {
    hide Decimal;
    FifteenthLabel();
    LabelsDistinct("a", j, "a", 15);
    assert Label("a", j)[1] == '-' && Label("b", j)[0] == 'b';
  }

  lemma UnluckyPoint(v: int, u: WeightedUpstream, p: RingStability.Point)
    requires u.address == "a" || u.address == "b"
    ensures p in RingStability.PointsOf(UnluckyHash, v, u) <==>
      || (u.address == "b" && p == RingStability.Point(2, "b"))
      || (u.address == "a" && p == RingStability.Point(3, "a"))
      || (u.address == "a" && p == RingStability.Point(1, "a") && NodeCount(v, u.EffectiveWeight()) > 15)
  {
    hide RingStability.PointsOf, UnluckyHash, Label, NodeCount;
    RingStability.PointHasLabel(UnluckyHash, v, u, p);
    forall j: nat
      ensures UnluckyHash(Label("a", j)) == if j == 15 then 1 else 3
      ensures UnluckyHash(Label("b", j)) == 2
    {
      LabelHashes(j);
    }
    if u.address == "a" {
      assert UnluckyHash(Label(u.address, 0)) == 3 && UnluckyHash(Label(u.address, 15)) == 1;
    } else {
      assert UnluckyHash(Label(u.address, 0)) == 2;
    }
  }

  lemma UnluckyPoints(p: RingStability.Point)
    ensures p in RingStability.ListPoints(UnluckyHash, VIRTUAL_NODES, LIGHT)
      <==> p in {RingStability.Point(3, "a"), RingStability.Point(2, "b")}
    ensures p in RingStability.ListPoints(UnluckyHash, VIRTUAL_NODES, HEAVY)
      <==> p in {RingStability.Point(1, "a"), RingStability.Point(3, "a"), RingStability.Point(2, "b")}
  {
    hide RingStability.PointsOf, RingStability.ListPoints, UnluckyHash;
    RingStability.PointsByUpstream(UnluckyHash, VIRTUAL_NODES, LIGHT, p);
    RingStability.PointsByUpstream(UnluckyHash, VIRTUAL_NODES, HEAVY, p);
    UnluckyPoint(VIRTUAL_NODES, LIGHT[0], p);
    UnluckyPoint(VIRTUAL_NODES, LIGHT[1], p);
    UnluckyPoint(VIRTUAL_NODES, HEAVY[0], p);
    UnluckyPoint(VIRTUAL_NODES, HEAVY[1], p);
  }

  /** The ring of the lighter list is kept for the heavier one, and gives key "k" to b where a ring built
      afresh gives it to a. */
  lemma CachedRingCanBeWrong(kept: Ring, built: Ring)
    requires IsRing(kept, UnluckyHash, VIRTUAL_NODES, LIGHT) && IsRing(built, UnluckyHash, VIRTUAL_NODES, HEAVY)
    ensures Memo.Kept([LIGHT, HEAVY], Fingerprint(UnluckyHash)) == Some(LIGHT)
    ensures Owner(kept, UnluckyHash("k")).Some? && Owner(kept, UnluckyHash("k")).value.address == "b"
    ensures Owner(built, UnluckyHash("k")).Some? && Owner(built, UnluckyHash("k")).value.address == "a"
  {
    hide RingStability.ListPoints, Owner, IsRing, ConfigHash;
    RingStability.FingerprintMissesHighBits(UnluckyHash, [], [LIGHT[1]], LIGHT[0], 1);
    assert LIGHT == [] + [LIGHT[0]] + [LIGHT[1]] && HEAVY == [] + [HEAVY[0]] + [LIGHT[1]];
    var fingerprint := Fingerprint(UnluckyHash);
    assert [LIGHT, HEAVY][..1] == [LIGHT] && [LIGHT][..0] == [];
    assert Memo.Kept([LIGHT], fingerprint) == Some(LIGHT) && fingerprint(LIGHT) == fingerprint(HEAVY);
    RingStability.OwnerOwns(kept, UnluckyHash, VIRTUAL_NODES, LIGHT, 1);
    RingStability.OwnerOwns(built, UnluckyHash, VIRTUAL_NODES, HEAVY, 1);
    UnluckyPoints(RingStability.Point(2, "b"));
    UnluckyPoints(RingStability.Point(1, "a"));
    var p :| RingStability.Nearest(RingStability.ListPoints(UnluckyHash, VIRTUAL_NODES, LIGHT), 1, p)
      && p.address == Owner(kept, 1).value.address;
    UnluckyPoints(p);
    var q :| RingStability.Nearest(RingStability.ListPoints(UnluckyHash, VIRTUAL_NODES, HEAVY), 1, q)
      && q.address == Owner(built, 1).value.address;
    UnluckyPoints(q);
  }
}
