/** The selection policy: a key is extracted, its configuration fetched and matched, the candidates are
    filtered by the pool, one is selected, and the instance key falls back to the version key. */
module DynamicSelection {
  import opened Base
  import opened Requests
  import opened Routes
  import opened HashRing
  import Extractor
  import Memo
  import Selector
  import RuleMatcher

  datatype Upstream = Upstream(dial: string, id: int)

  type Pool = seq<Upstream>

  datatype MissReason = NoReplacer | NoDataSource | NoKeyExtractor | NoKey | SourceError | Unhealthy | NoConfig
    | Disabled | Expired | NoMatch | NotInPool | NoAvailableUpstream

  datatype Fetch = Fetched(config: Option<RouteConfig>) | FetchFailed

  /** What the data source answers during one call. */
  datatype Source = Source(healthy: bool, get: string -> Fetch)

  /** Everything outside the policy that one call sees: the clock, which upstreams are available, and random numbers. */
  datatype Surroundings = Surroundings(now: int, available: Upstream -> bool, intn: int -> int)

  // ----- the pool index

  /** By dial address; the last of several upstreams with one address wins. */
  function IndexOf(pool: Pool): (index: map<string, Upstream>)
    ensures forall a :: a in index ==> index[a] in pool && index[a].dial == a
    ensures forall i :: 0 <= i < |pool| ==> pool[i].dial in index
  {
    if pool == [] then map[]
    else IndexOf(pool[..|pool| - 1])[pool[|pool| - 1].dial := pool[|pool| - 1]]
  }

  function PoolSize(): Pool -> nat {
    p => |p|
  }

  // ----- what a key leads to

  datatype Plan =
    | Miss(key: string, reason: MissReason)
    | Candidates(key: string, found: RuleMatcher.MatchResult, available: UpstreamList)

  /** The candidates that are in the pool. */
  function InPool(us: UpstreamList, index: map<string, Upstream>): UpstreamList {
    if us == [] then []
    else InPool(us[..|us| - 1], index) + if us[|us| - 1].address in index then [us[|us| - 1]] else []
  }

  /** The candidates that are in the pool and available. */
  function Available(us: UpstreamList, index: map<string, Upstream>, available: Upstream -> bool): (r: UpstreamList)
    ensures forall u :: u in r <==> u in us && u.address in index && available(index[u.address])
  {
    if us == [] then []
    else
      var u := us[|us| - 1];
      assert us == us[..|us| - 1] + [u];
      Available(us[..|us| - 1], index, available) +
        if u.address in index && available(index[u.address]) then [u] else []
  }

  /** From the matched rule on. */
  function PlanFor(key: string, found: RuleMatcher.MatchResult,
                   world: Surroundings, index: map<string, Upstream>): Plan {
    if InPool(found.upstreams, index) == [] then Miss(key, NotInPool)
    else if Available(found.upstreams, index, world.available) == [] then Miss(key, NoAvailableUpstream)
    else Candidates(key, found, Available(found.upstreams, index, world.available))
  }

  /** Up to the matching: no usable configuration, or one to match. */
  datatype Lookup = Stop(key: string, reason: MissReason) | Go(key: string, config: RouteConfig)

  function LookedUp(e: Option<Extractor.PlaceholderExtractor>, repl: Replacer, source: Source, now: int): Lookup {
    if e.None? then Stop("", NoKeyExtractor)
    else
      var key := Extractor.Key(e.value, Some(repl));
      if key == "" then Stop("", NoKey)
      else match source.get(key)
        case FetchFailed => Stop(key, SourceError)
        case Fetched(None) => Stop(key, if source.healthy then NoConfig else Unhealthy)
        case Fetched(Some(config)) =>
          if !config.IsEnabled() then Stop(key, Disabled)
          else if config.IsExpired(now) then Stop(key, Expired)
          else Go(key, config)
  }

  function Planned(e: Option<Extractor.PlaceholderExtractor>, engine: RuleMatcher.Engine, r: Request, repl: Replacer,
                   source: Source, world: Surroundings, index: map<string, Upstream>): Plan
  {
    match LookedUp(e, repl, source, world.now)
    case Stop(key, reason) => Miss(key, reason)
    case Go(key, config) =>
      match RuleMatcher.Match(engine, r, Some(repl), config)
      case None => Miss(key, NoMatch)
      case Some(found) => PlanFor(key, found, world, index)
  }

  /** The plan that decides: the first with candidates, or else the last that had a key. */
  function Deciding(first: Plan, second: Plan): (plan: Plan)
    ensures plan == first || plan == second
    ensures plan.Candidates? <==> first.Candidates? || second.Candidates?
  {
    if first.Candidates? then first
    else if second.Candidates? || second.key != "" then second
    else first
  }

  lemma {:induction false} AvailableAreInPool(
    us: UpstreamList, index: map<string, Upstream>, available: Upstream -> bool)
    ensures Available(us, index, available) != [] ==> InPool(us, index) != []
  {
    if us != [] {
      AvailableAreInPool(us[..|us| - 1], index, available);
    }
  }

  /** A key leads to candidates exactly when it can be extracted, its configuration is there, enabled and
      not expired, a rule matches, and one of the rule's upstreams is in the pool and available. */
  lemma CandidatesIff(e: Option<Extractor.PlaceholderExtractor>, engine: RuleMatcher.Engine, r: Request, repl: Replacer,
                      source: Source, world: Surroundings, pool: Pool)
    ensures Planned(e, engine, r, repl, source, world, IndexOf(pool)).Candidates? <==>
      && e.Some? && Extractor.Key(e.value, Some(repl)) != ""
      && source.get(Extractor.Key(e.value, Some(repl))).Fetched?
      && source.get(Extractor.Key(e.value, Some(repl))).config.Some?
      && var config := source.get(Extractor.Key(e.value, Some(repl))).config.value;
        && config.IsEnabled() && !config.IsExpired(world.now)
        && var m := RuleMatcher.Match(engine, r, Some(repl), config);
          m.Some? && exists u ::
            u in m.value.upstreams && u.address in IndexOf(pool) && world.available(IndexOf(pool)[u.address])
  {
    if e.Some? && source.get(Extractor.Key(e.value, Some(repl))).Fetched?
      && source.get(Extractor.Key(e.value, Some(repl))).config.Some?
    {
      var m := RuleMatcher.Match(engine, r, Some(repl), source.get(Extractor.Key(e.value, Some(repl))).config.value);
      if m.Some? {
        var a := Available(m.value.upstreams, IndexOf(pool), world.available);
        AvailableAreInPool(m.value.upstreams, IndexOf(pool), world.available);
        assert a != [] ==> a[0] in a;
      }
    }
  }

  // ----- the policy

  datatype Attempt = Hit(key: string, address: string, chosen: Upstream) | Missed(key: string, reason: MissReason)

  datatype Answer = NoUpstream | Routed(upstream: Upstream, key: string) | FallBack(key: string, reason: MissReason)

  /** Pools of the run with one length are one pool. */
  ghost predicate PoolsSeparated(pools: set<Pool>) {
    forall a, b :: a in pools && b in pools && |a| == |b| ==> a == b
  }

  method LookUp(e: Option<Extractor.PlaceholderExtractor>, repl: Replacer, source: Source, now: int) returns (l: Lookup)
    ensures l == LookedUp(e, repl, source, now)
  {
    if e.None? {
      return Stop("", NoKeyExtractor);
    }
    var key := Extractor.Extract(e.value, Some(repl));
    if key == "" {
      return Stop("", NoKey);
    }
    var fetched := source.get(key);
    if fetched.FetchFailed? {
      return Stop(key, SourceError);
    }
    if fetched.config.None? {
      if !source.healthy {
        return Stop(key, Unhealthy);
      }
      return Stop(key, NoConfig);
    }
    var config := fetched.config.value;
    if !config.IsEnabled() {
      return Stop(key, Disabled);
    }
    if config.IsExpired(now) {
      return Stop(key, Expired);
    }
    l := Go(key, config);
  }

  class DynamicSelection {
    const keyExtractor: Option<Extractor.PlaceholderExtractor>
    const instanceKeyExtractor: Option<Extractor.PlaceholderExtractor>
    const versionKeyExtractor: Option<Extractor.PlaceholderExtractor>
    const ruleMatcher: RuleMatcher.RuleMatcher

    var poolIndex: Option<map<string, Upstream>>
    var lastPoolSize: int

    /** The pool that the index was built from, and all pools and candidate lists of the run so far. */
    ghost var indexedPool: Option<Pool>
    ghost var pools: set<Pool>
    ghost var lists: set<UpstreamList>

    ghost predicate Valid()
      reads this, ruleMatcher, ruleMatcher.Selectors()
    {
      && ruleMatcher.Valid() && ruleMatcher.RingsFrom(lists) && IndexValid()
    }

    ghost predicate IndexValid()
      reads this
    {
      if indexedPool.None? then poolIndex.None?
      else
        && poolIndex == Some(IndexOf(indexedPool.value))
        && lastPoolSize == |indexedPool.value| && indexedPool.value in pools
    }

    /** The pool that lookups of a call with this pool are answered from. */
    ghost function Consulted(pool: Pool): (p: Pool)
      reads this
    {
      Memo.Next(indexedPool, pool, PoolSize()).value
    }

    constructor (keyExtractor: Option<Extractor.PlaceholderExtractor>,
                 instanceKeyExtractor: Option<Extractor.PlaceholderExtractor>,
                 versionKeyExtractor: Option<Extractor.PlaceholderExtractor>,
                 engine: RuleMatcher.Engine, hash: Hash)
      ensures Valid() && pools == {} && lists == {}
      ensures this.keyExtractor == keyExtractor && this.instanceKeyExtractor == instanceKeyExtractor
      ensures this.versionKeyExtractor == versionKeyExtractor
      ensures fresh(ruleMatcher) && ruleMatcher.engine == engine && ruleMatcher.hash == hash
    {
      this.keyExtractor, this.instanceKeyExtractor := keyExtractor, instanceKeyExtractor;
      this.versionKeyExtractor := versionKeyExtractor;
      ruleMatcher := new RuleMatcher.RuleMatcher(engine, hash, 0, 0);
      poolIndex, lastPoolSize := None, 0;
      indexedPool, pools, lists := None, {}, {};
    }

    /** The index is rebuilt when the length of the pool changes, and only then. */
    method FindUpstreamInPool(pool: Pool, address: string) returns (u: Option<Upstream>)
      requires IndexValid() && pool in pools
      modifies this`poolIndex, this`lastPoolSize, this`indexedPool
      ensures IndexValid()
      ensures indexedPool == Memo.Next(old(indexedPool), pool, PoolSize())
      ensures Consulted(pool) == old(Consulted(pool))
      ensures var index := IndexOf(old(Consulted(pool)));
        u == if address in index then Some(index[address]) else None
    {
      if poolIndex.None? || |pool| != lastPoolSize {
        var index: map<string, Upstream> := map[];
        for i := 0 to |pool|
          invariant index == IndexOf(pool[..i])
        {
          assert pool[..i + 1][..i] == pool[..i];
          index := index[pool[i].dial := pool[i]];
        }
        assert pool[..|pool|] == pool;
        poolIndex := Some(index);
        lastPoolSize := |pool|;
        indexedPool := Some(pool);
      }
      u := if address in poolIndex.value then Some(poolIndex.value[address]) else None;
    }

    /** The loop over the candidates of the matched rule. */
    method Filter(pool: Pool, candidates: UpstreamList, available: Upstream -> bool)
      returns (inPool: UpstreamList, usable: UpstreamList)
      requires IndexValid() && pool in pools
      modifies this`poolIndex, this`lastPoolSize, this`indexedPool
      ensures IndexValid() && Consulted(pool) == old(Consulted(pool))
      ensures inPool == InPool(candidates, IndexOf(old(Consulted(pool))))
      ensures usable == Available(candidates, IndexOf(old(Consulted(pool))), available)
    {
      inPool, usable := [], [];
      ghost var index := IndexOf(Consulted(pool));
      for i := 0 to |candidates|
        invariant IndexValid() && Consulted(pool) == old(Consulted(pool)) && pools == old(pools)
        invariant inPool == InPool(candidates[..i], index)
        invariant usable == Available(candidates[..i], index, available)
      {
        assert candidates[..i + 1][..i] == candidates[..i];
        var u := FindUpstreamInPool(pool, candidates[i].address);
        if u.None? {
          continue;
        }
        inPool := inPool + [candidates[i]];
        if !available(u.value) {
          continue;
        }
        usable := usable + [candidates[i]];
      }
      assert candidates[..|candidates|] == candidates;
    }

    /** Of several candidates, an upstream with this address is what the selector for the matched rule's
        algorithm and key chose. */
    ghost predicate ChoseAddress(before: (Selector.Settings, Selector.State),
                                 after: (Selector.Settings, Selector.State),
                                 r: Request, us: UpstreamList, intn: int -> int, address: string)
    {
      |us| > 1 ==> exists u :: ChoseUpstream(before, after, r, us, intn, u) && u.address == address
    }

    ghost predicate ChoseUpstream(before: (Selector.Settings, Selector.State),
                                  after: (Selector.Settings, Selector.State),
                                  r: Request, us: UpstreamList, intn: int -> int, u: WeightedUpstream)
      requires us != []
    {
      ruleMatcher.Chose(before, after, r, us, intn, u)
    }

    /** What the call's plan would be answered from: any kept ring it needs was built from its candidates. */
    ghost predicate Served(plan: Plan)
      reads ruleMatcher, ruleMatcher.Selectors()
    {
      plan.Candidates? ==> Selector.Fits(SelectorOf(plan), plan.available)
    }

    /** The selector that a plan with candidates would use. */
    ghost function SelectorOf(plan: Plan): (Selector.Settings, Selector.State)
      requires plan.Candidates?
      reads ruleMatcher, ruleMatcher.Selectors()
    {
      ruleMatcher.SelectorFor(plan.found.algorithm, plan.found.algorithmKey)
    }

    /** One of the usable candidates is selected, provided a kept ring fits them. */
    method SelectUsable(r: Request, usable: UpstreamList, algorithm: string, algorithmKey: string, intn: int -> int)
      returns (selected: WeightedUpstream)
      requires Valid() && usable != [] && Selector.IsRandom(intn)
      modifies this`lists, ruleMatcher`selectorCache, ruleMatcher.Selectors()
      ensures Valid() && fresh(ruleMatcher.Selectors() - old(ruleMatcher.Selectors()))
      ensures lists == old(lists) + {usable}
      ensures old(Selector.Fits(ruleMatcher.SelectorFor(algorithm, algorithmKey), usable)) ==> selected in usable
      ensures ChoseAddress(old(ruleMatcher.SelectorFor(algorithm, algorithmKey)),
        ruleMatcher.SelectorFor(algorithm, algorithmKey), r, usable, intn, selected.address)
    {
      hide Selector.Settings.Chooses, Selector.State.Valid, Selector.State.RingFits;
      ghost var before := ruleMatcher.SelectorFor(algorithm, algorithmKey);
      ghost var fits := Selector.Fits(before, usable);
      var u := ruleMatcher.SelectFromUpstreams(r, usable, algorithm, algorithmKey, intn, lists);
      lists := lists + {usable};
      selected := u.value;
      ghost var after := ruleMatcher.SelectorFor(algorithm, algorithmKey);
      assert |usable| > 1 ==> ChoseUpstream(before, after, r, usable, intn, selected);
      if |usable| > 1 && fits {
        Selector.ChoiceIsACandidate(before.0, before.1, r, usable, intn, after.1, selected);
      }
    }

    /** One of the usable candidates is selected and looked up in the pool. */
    method ChooseUsable(key: string, usable: UpstreamList, found: RuleMatcher.MatchResult, pool: Pool, r: Request,
                        intn: int -> int) returns (a: Attempt)
      requires Valid() && pool in pools && usable != [] && Selector.IsRandom(intn)
      requires forall u :: u in usable ==> u.address in IndexOf(Consulted(pool))
      modifies this`poolIndex, this`lastPoolSize, this`indexedPool, this`lists
      modifies ruleMatcher`selectorCache, ruleMatcher.Selectors()
      ensures Valid() && fresh(ruleMatcher.Selectors() - old(ruleMatcher.Selectors()))
      ensures Consulted(pool) == old(Consulted(pool)) && old(lists) <= lists
      ensures Follows(a, Candidates(key, found, usable), IndexOf(old(Consulted(pool))),
                      old(Served(Candidates(key, found, usable))))
      ensures a.Hit? ==> ChoseAddress(old(ruleMatcher.SelectorFor(found.algorithm, found.algorithmKey)),
        ruleMatcher.SelectorFor(found.algorithm, found.algorithmKey), r, usable, intn, a.address)
    {
      hide IndexOf, Memo.Next, ChoseAddress, Follows, Selector.Fits;
      ghost var plan := Candidates(key, found, usable);
      ghost var served := Served(plan);
      var selected := SelectUsable(r, usable, found.algorithm, found.algorithmKey, intn);
      var chosen := FindUpstreamInPool(pool, selected.address);
      a := if chosen.None? then Missed(key, NotInPool) else Hit(key, selected.address, chosen.value);
      LookupFollows(plan, selected, IndexOf(Consulted(pool)), served, a);
    }

    /** Routing by one key. A plan that is a miss is that miss, and no selector is touched. A plan with
        candidates is a hit on one of them if it is served; and a hit is always on the index's own entry for its
        address, which the selector chose. */
    method TryKey(e: Option<Extractor.PlaceholderExtractor>, pool: Pool, r: Request, repl: Replacer, source: Source,
                  world: Surroundings) returns (a: Attempt)
      requires Valid() && pool in pools && Selector.IsRandom(world.intn)
      modifies this`poolIndex, this`lastPoolSize, this`indexedPool, this`lists
      modifies ruleMatcher`regexCache, ruleMatcher`selectorCache, ruleMatcher.Selectors()
      ensures Valid() && fresh(ruleMatcher.Selectors() - old(ruleMatcher.Selectors()))
      ensures Consulted(pool) == old(Consulted(pool)) && old(lists) <= lists
      ensures var plan := PlanBy(e, r, repl, source, world, old(Consulted(pool)));
        && Follows(a, plan, IndexOf(old(Consulted(pool))), old(Served(plan)))
        && (plan.Candidates? && a.Hit? ==>
              ChoseAddress(old(SelectorOf(plan)), SelectorOf(plan), r, plan.available, world.intn, a.address))
        && (plan.Miss? ==> forall other: Plan :: other.Candidates? ==> SelectorOf(other) == old(SelectorOf(other)))
    {
      hide ChoseAddress, Selector.State.Valid, IndexOf, InPool, Available, Memo.Next, LookedUp, RuleMatcher.Match,
        RuleMatcher.CacheKey, Selector.Fits;
      var l := LookUp(e, repl, source, world.now);
      if l.Stop? {
        return Missed(l.key, l.reason);
      }
      var m := ruleMatcher.FindMatch(r, Some(repl), l.config);
      if m.None? {
        return Missed(l.key, NoMatch);
      }
      a := TryCandidates(l.key, m.value, pool, r, world);
    }

    /** The part of routing by one key that follows the match. */
    method TryCandidates(key: string, found: RuleMatcher.MatchResult, pool: Pool, r: Request, world: Surroundings)
      returns (a: Attempt)
      requires Valid() && pool in pools && Selector.IsRandom(world.intn)
      modifies this`poolIndex, this`lastPoolSize, this`indexedPool, this`lists
      modifies ruleMatcher`selectorCache, ruleMatcher.Selectors()
      ensures Valid() && fresh(ruleMatcher.Selectors() - old(ruleMatcher.Selectors()))
      ensures Consulted(pool) == old(Consulted(pool)) && old(lists) <= lists
      ensures var plan := PlanFor(key, found, world, IndexOf(old(Consulted(pool))));
        && Follows(a, plan, IndexOf(old(Consulted(pool))), old(Served(plan)))
        && (plan.Candidates? && a.Hit? ==>
              ChoseAddress(old(SelectorOf(plan)), SelectorOf(plan), r, plan.available, world.intn, a.address))
        && (plan.Miss? ==> forall other: Plan :: other.Candidates? ==> SelectorOf(other) == old(SelectorOf(other)))
    {
      hide IndexOf, Memo.Next, InPool, Available, ChoseAddress, Selector.Fits;
      var inPool, usable := Filter(pool, found.upstreams, world.available);
      if |inPool| == 0 {
        return Missed(key, NotInPool);
      }
      if |usable| == 0 {
        return Missed(key, NoAvailableUpstream);
      }
      a := ChooseUsable(key, usable, found, pool, r, world.intn);
    }

    /** The plan of a key against the pool that is consulted. */
    ghost function PlanBy(e: Option<Extractor.PlaceholderExtractor>, r: Request, repl: Replacer, source: Source,
                          world: Surroundings, pool: Pool): Plan
    {
      Planned(e, ruleMatcher.engine, r, repl, source, world, IndexOf(pool))
    }

    /** The plan of the call: by instance key and, failing that, by version key, or by the single key. */
    ghost function PlanOf(r: Request, repl: Replacer, source: Source, world: Surroundings, pool: Pool): Plan {
      if instanceKeyExtractor.Some? || versionKeyExtractor.Some? then
        Deciding(PlanBy(instanceKeyExtractor, r, repl, source, world, pool),
                 PlanBy(versionKeyExtractor, r, repl, source, world, pool))
      else PlanBy(keyExtractor, r, repl, source, world, pool)
    }

    /** With candidates the answer is an upstream of the pool that is available and is, by its address, the
        candidate that the selector chose; without, it is the fallback policy, with the plan's key and reason. */
    ghost predicate Answers(ans: Answer, plan: Plan, pool: Pool, r: Request, world: Surroundings,
                            before: (Selector.Settings, Selector.State), after: (Selector.Settings, Selector.State))
    {
      match plan
      case Miss(key, reason) => ans == FallBack(key, reason)
      case Candidates(key, _, available) =>
        && ans.Routed? && ans.key == key
        && ans.upstream in pool && world.available(ans.upstream)
        && (exists u :: u in available && u.address == ans.upstream.dial)
        && ChoseAddress(before, after, r, available, world.intn, ans.upstream.dial)
    }

    /** As the selector of a miss, which uses none, anything will do. */
    ghost function Using(plan: Plan): (Selector.Settings, Selector.State)
      reads ruleMatcher, ruleMatcher.Selectors()
    {
      if plan.Candidates? then SelectorOf(plan) else ruleMatcher.SelectorFor("", "")
    }

    /** The index consulted is that of the very pool of the call unless it was built from another of the same
        length. */
    lemma ConsultsItsPoolIff(pool: Pool)
      ensures Consulted(pool) == pool
        <==> indexedPool.None? || |indexedPool.value| != |pool| || indexedPool.value == pool
    {
    }

    /** When every upstream of the pool has been exchanged for another, a call with candidates routes out of it. */
    lemma ExchangedPoolIsMissed(pool: Pool, ans: Answer, plan: Plan, r: Request, world: Surroundings,
                                before: (Selector.Settings, Selector.State), after: (Selector.Settings, Selector.State))
      requires indexedPool.Some? && |indexedPool.value| == |pool|
      requires forall u :: u in indexedPool.value ==> u !in pool
      requires plan.Candidates? && Answers(ans, plan, Consulted(pool), r, world, before, after)
      ensures ans.Routed? && ans.upstream !in pool
    {
    }

    /** In a run in which no two pools have one length and no two candidate lists one fingerprint, every call
        consults its own pool and every plan is served. */
    lemma SeparatedRunIsServed(pool: Pool, plan: Plan)
      requires Valid() && PoolsSeparated(pools + {pool})
      requires plan.Candidates? ==> Selector.ListsSeparated(ruleMatcher.hash, lists + {plan.available})
      ensures Consulted(pool) == pool && Served(plan)
    {
      hide Selector.State.Valid;
      ConsultsItsPoolIff(pool);
      if plan.Candidates? {
        ruleMatcher.RingIsFromRun(lists, plan.found.algorithm, plan.found.algorithmKey);
      }
    }

    /** A served attempt that follows its plan answers as the plan says. */
    lemma AttemptAnswers(a: Attempt, e: Option<Extractor.PlaceholderExtractor>, r: Request, repl: Replacer,
                         source: Source, world: Surroundings, pool: Pool,
                         before: (Selector.Settings, Selector.State), after: (Selector.Settings, Selector.State))
      requires Follows(a, PlanBy(e, r, repl, source, world, pool), IndexOf(pool), true)
      requires var plan := PlanBy(e, r, repl, source, world, pool);
        plan.Candidates? && a.Hit? ==> ChoseAddress(before, after, r, plan.available, world.intn, a.address)
      ensures a.Hit? <==> PlanBy(e, r, repl, source, world, pool).Candidates?
      ensures Answers(if a.Hit? then Routed(a.chosen, a.key) else FallBack(a.key, a.reason),
                      PlanBy(e, r, repl, source, world, pool), pool, r, world, before, after)
    {
      hide LookedUp, RuleMatcher.Match, InPool, ChoseAddress;
    }

    /** By two keys: the instance's plan decides if it has candidates. Else the version's does if that has, and
        if neither has, the version's key and reason count if it has a key, and else the instance's. */
    lemma InstanceComesFirst(r: Request, repl: Replacer, source: Source, world: Surroundings, pool: Pool)
      requires instanceKeyExtractor.Some? || versionKeyExtractor.Some?
      ensures var plan := PlanOf(r, repl, source, world, pool);
        var instance := PlanBy(instanceKeyExtractor, r, repl, source, world, pool);
        var version := PlanBy(versionKeyExtractor, r, repl, source, world, pool);
        && (instance.Candidates? ==> plan == instance)
        && (instance.Miss? && version.Candidates? ==> plan == version)
        && (instance.Miss? && version.Miss? && version.key != "" ==> plan == Miss(version.key, version.reason))
        && (instance.Miss? && version.Miss? && version.key == "" ==> plan == Miss(instance.key, instance.reason))
    {
      hide Planned;
    }

    /** The key leads to an available candidate in the pool. */
    ghost predicate Leads(e: Option<Extractor.PlaceholderExtractor>, r: Request, repl: Replacer, source: Source,
                          world: Surroundings, pool: Pool)
    {
      && e.Some?
      && var key := Extractor.Key(e.value, Some(repl));
        && key != "" && source.get(key).Fetched? && source.get(key).config.Some?
        && var config := source.get(key).config.value;
          && !SwitchedOff(config) && !Outlived(config, world.now)
          && var m := RuleMatcher.Match(ruleMatcher.engine, r, Some(repl), config);
            m.Some? && exists u ::
              u in m.value.upstreams && u.address in IndexOf(pool) && world.available(IndexOf(pool)[u.address])
    }

    lemma LeadsIff(e: Option<Extractor.PlaceholderExtractor>, r: Request, repl: Replacer, source: Source,
                   world: Surroundings, pool: Pool)
      ensures Leads(e, r, repl, source, world, pool) <==> PlanBy(e, r, repl, source, world, pool).Candidates?
      ensures Leads(e, r, repl, source, world, pool) ==>
        PlanBy(e, r, repl, source, world, pool).key == Extractor.Key(e.value, Some(repl))
    {
      hide Extractor.Key, RuleMatcher.Match, IndexOf;
      CandidatesIff(e, ruleMatcher.engine, r, repl, source, world, pool);
    }

    /** What an answer that follows the plan of two keys says: if the instance key leads to a candidate the answer
        carries that key; the version key only decides if the instance key leads nowhere; and only if both lead
        nowhere does the fallback policy answer. */
    lemma AnswerPrefersInstance(ans: Answer, r: Request, repl: Replacer, source: Source, world: Surroundings,
                                pool: Pool, before: (Selector.Settings, Selector.State),
                                after: (Selector.Settings, Selector.State))
      requires instanceKeyExtractor.Some? || versionKeyExtractor.Some?
      requires Answers(ans, PlanOf(r, repl, source, world, pool), pool, r, world, before, after)
      ensures var instance := Leads(instanceKeyExtractor, r, repl, source, world, pool);
        var version := Leads(versionKeyExtractor, r, repl, source, world, pool);
        && (instance ==> ans.Routed? && ans.key == Extractor.Key(instanceKeyExtractor.value, Some(repl)))
        && (!instance && version ==> ans.Routed? && ans.key == Extractor.Key(versionKeyExtractor.value, Some(repl)))
        && (ans.FallBack? <==> !instance && !version)
      ensures ans.Routed? ==> ans.upstream in pool && world.available(ans.upstream)
    {
      hide Planned, Leads, ChoseAddress;
      InstanceComesFirst(r, repl, source, world, pool);
      LeadsIff(instanceKeyExtractor, r, repl, source, world, pool);
      LeadsIff(versionKeyExtractor, r, repl, source, world, pool);
    }

    lemma NoExtractorAnswers(r: Request, repl: Replacer, source: Source, world: Surroundings, pool: Pool)
      requires keyExtractor.None? && instanceKeyExtractor.None? && versionKeyExtractor.None?
      ensures forall before, after ::
        Answers(FallBack("", NoKeyExtractor), PlanOf(r, repl, source, world, pool), pool, r, world, before, after)
    {
    }

    method SelectByKey(pool: Pool, r: Request, repl: Replacer, source: Source, world: Surroundings)
      returns (ans: Answer)
      requires Valid() && pool in pools && Selector.IsRandom(world.intn)
      modifies this`poolIndex, this`lastPoolSize, this`indexedPool, this`lists
      modifies ruleMatcher`regexCache, ruleMatcher`selectorCache, ruleMatcher.Selectors()
      ensures Valid() && fresh(ruleMatcher.Selectors() - old(ruleMatcher.Selectors()))
      ensures old(lists) <= lists && !ans.NoUpstream?
      ensures ans.Routed? ==> ans.upstream in old(Consulted(pool))
      ensures var plan := PlanBy(keyExtractor, r, repl, source, world, old(Consulted(pool)));
        old(Served(plan)) ==> Answers(ans, plan, old(Consulted(pool)), r, world, old(Using(plan)), Using(plan))
    {
      hide Planned, IndexOf, Memo.Next, Answers, ChoseAddress, Selector.Fits;
      ghost var consulted := Consulted(pool);
      ghost var plan := PlanBy(keyExtractor, r, repl, source, world, consulted);
      ghost var served, before := Served(plan), Using(plan);
      var a := TryKey(keyExtractor, pool, r, repl, source, world);
      if served {
        AttemptAnswers(a, keyExtractor, r, repl, source, world, consulted, before, Using(plan));
      }
      ans := if a.Hit? then Routed(a.chosen, a.key) else FallBack(a.key, a.reason);
    }

    method SelectByInstanceOrVersion(pool: Pool, r: Request, repl: Replacer, source: Source, world: Surroundings)
      returns (ans: Answer)
      requires Valid() && pool in pools && Selector.IsRandom(world.intn)
      modifies this`poolIndex, this`lastPoolSize, this`indexedPool, this`lists
      modifies ruleMatcher`regexCache, ruleMatcher`selectorCache, ruleMatcher.Selectors()
      ensures Valid() && fresh(ruleMatcher.Selectors() - old(ruleMatcher.Selectors()))
      ensures old(lists) <= lists && !ans.NoUpstream?
      ensures ans.Routed? ==> ans.upstream in old(Consulted(pool))
      ensures var plan := Deciding(PlanBy(instanceKeyExtractor, r, repl, source, world, old(Consulted(pool))),
                                   PlanBy(versionKeyExtractor, r, repl, source, world, old(Consulted(pool))));
        old(Served(plan)) ==> Answers(ans, plan, old(Consulted(pool)), r, world, old(Using(plan)), Using(plan))
    {
      hide Planned, IndexOf, Memo.Next, ChoseAddress, Selector.Fits;
      ghost var consulted := Consulted(pool);
      ghost var first := PlanBy(instanceKeyExtractor, r, repl, source, world, consulted);
      ghost var second := PlanBy(versionKeyExtractor, r, repl, source, world, consulted);
      ghost var plan := Deciding(first, second);
      ghost var served, before := Served(plan), Using(plan);
      var a := TryKey(instanceKeyExtractor, pool, r, repl, source, world);
      if a.Hit? {
        if served && first.Candidates? {
          AttemptAnswers(a, instanceKeyExtractor, r, repl, source, world, consulted, before, Using(plan));
        }
        return Routed(a.chosen, a.key);
      }
      var b := TryKey(versionKeyExtractor, pool, r, repl, source, world);
      ans := if b.Hit? then Routed(b.chosen, b.key)
             else if b.key != "" then FallBack(b.key, b.reason) else FallBack(a.key, a.reason);
      if served && second.Candidates? && !first.Candidates? {
        AttemptAnswers(b, versionKeyExtractor, r, repl, source, world, consulted, before, Using(plan));
      }
    }

    /** The whole decision, made on the pool the index was built from. If a kept ring that the deciding plan
        needs was built from its candidates, the answer is determined: by instance key if that leads to
        candidates, else by version key, what the selector chooses of them; else the fallback policy. */
    method Select(pool: Pool, r: Request, repl: Option<Replacer>, source: Option<Source>, world: Surroundings)
      returns (ans: Answer)
      requires Valid() && Selector.IsRandom(world.intn)
      modifies this`poolIndex, this`lastPoolSize, this`indexedPool, this`lists, this`pools
      modifies ruleMatcher`regexCache, ruleMatcher`selectorCache, ruleMatcher.Selectors()
      ensures Valid() && fresh(ruleMatcher.Selectors() - old(ruleMatcher.Selectors()))
      ensures pools == old(pools) + (if pool == [] then {} else {pool}) && old(lists) <= lists
      ensures ans.NoUpstream? <==> pool == []
      ensures pool != [] && repl.None? ==> ans == FallBack("", NoReplacer)
      ensures pool != [] && repl.Some? && source.None? ==> ans == FallBack("", NoDataSource)
      ensures ans.Routed? ==> ans.upstream in old(Consulted(pool))
      ensures pool != [] && repl.Some? && source.Some? ==>
        var plan := PlanOf(r, repl.value, source.value, world, old(Consulted(pool)));
        old(Served(plan)) ==> Answers(ans, plan, old(Consulted(pool)), r, world, old(Using(plan)), Using(plan))
    {
      hide Planned, Selector.State.Valid, RuleMatcher.CacheKey, Selector.IsRandom, Answers, Memo.Next, Selector.Fits,
        RuleMatcher.RuleMatcher.RingsFrom, RuleMatcher.RuleMatcher.SelectorFor;
      if |pool| == 0 {
        return NoUpstream;
      }
      pools := pools + {pool};
      if repl.None? {
        return FallBack("", NoReplacer);
      }
      if source.None? {
        return FallBack("", NoDataSource);
      }
      if instanceKeyExtractor.None? && versionKeyExtractor.None? {
        if keyExtractor.None? {
          NoExtractorAnswers(r, repl.value, source.value, world, Consulted(pool));
          return FallBack("", NoKeyExtractor);
        }
        ans := SelectByKey(pool, r, repl.value, source.value, world);
      } else {
        ans := SelectByInstanceOrVersion(pool, r, repl.value, source.value, world);
      }
    }
  }

  lemma LookupFollows(plan: Plan, selected: WeightedUpstream, index: map<string, Upstream>, served: bool, a: Attempt)
    requires plan.Candidates? && forall u :: u in plan.available ==> u.address in index
    requires served ==> selected in plan.available
    requires a == if selected.address in index then Hit(plan.key, selected.address, index[selected.address])
                  else Missed(plan.key, NotInPool)
    ensures Follows(a, plan, index, served)
  {
  }

  /** What an attempt gives for a plan made with the index. */
  ghost predicate Follows(a: Attempt, plan: Plan, index: map<string, Upstream>, served: bool) {
    match plan
    case Miss(key, reason) => a == Missed(key, reason)
    case Candidates(key, found, available) =>
      && a.key == key
      && (a.Missed? ==> a.reason == NotInPool)
      && (a.Hit? ==> a.address in index && a.chosen == index[a.address])
      && (served ==> a.Hit? && exists u :: u in available && u.address == a.address)
  }

  // ----- what plans mean

  /** Of several upstreams with one address the index has the last. */
  lemma {:induction false} LastWins(pool: Pool, i: nat)
    requires i < |pool| && forall j :: i < j < |pool| ==> pool[j].dial != pool[i].dial
    ensures pool[i].dial in IndexOf(pool) && IndexOf(pool)[pool[i].dial] == pool[i]
  {
    if i < |pool| - 1 {
      LastWins(pool[..|pool| - 1], i);
    }
  }

  /** Candidates keep their order and number. */
  lemma {:induction false} InPoolAppends(a: UpstreamList, b: UpstreamList, index: map<string, Upstream>)
    ensures InPool(a + b, index) == InPool(a, index) + InPool(b, index)
  {
    if b == [] {
      assert a + b == a;
    } else {
      var n := |b| - 1;
      assert (a + b)[..|a + b| - 1] == a + b[..n] && (a + b)[|a + b| - 1] == b[n];
      InPoolAppends(a, b[..n], index);
    }
  }

  lemma {:induction false} AvailableAppends(a: UpstreamList, b: UpstreamList, index: map<string, Upstream>,
                                            available: Upstream -> bool)
    ensures Available(a + b, index, available) == Available(a, index, available) + Available(b, index, available)
  {
    if b == [] {
      assert a + b == a;
    } else {
      var n := |b| - 1;
      assert (a + b)[..|a + b| - 1] == a + b[..n] && (a + b)[|a + b| - 1] == b[n];
      AvailableAppends(a, b[..n], index, available);
    }
  }

  lemma {:induction false} InPoolIs(us: UpstreamList, index: map<string, Upstream>)
    ensures InPool(us, index) == [] <==> forall u :: u in us ==> u.address !in index
  {
    if us != [] {
      var n := |us| - 1;
      assert us == us[..n] + [us[n]];
      InPoolIs(us[..n], index);
    }
  }

  /** A configuration that is switched off, and one that has outlived its time. */
  predicate SwitchedOff(config: RouteConfig) {
    config.enabled == Some(false)
  }

  predicate Outlived(config: RouteConfig, now: int) {
    config.ttl != 0 && config.updatedAt != 0 && now > config.updatedAt + config.ttl
  }

  /** Why a key leads nowhere before its configuration is matched. */
  lemma StopsBecause(e: Option<Extractor.PlaceholderExtractor>, engine: RuleMatcher.Engine, r: Request, repl: Replacer,
                     source: Source, world: Surroundings, index: map<string, Upstream>)
    ensures var plan := Planned(e, engine, r, repl, source, world, index);
      if e.None? then plan == Miss("", NoKeyExtractor)
      else
        var key := Extractor.Key(e.value, Some(repl));
        if key == "" then plan == Miss("", NoKey)
        else if source.get(key) == FetchFailed then plan == Miss(key, SourceError)
        else if source.get(key) == Fetched(None) then
          plan == if source.healthy then Miss(key, NoConfig) else Miss(key, Unhealthy)
        else
          var config := source.get(key).config.value;
          && (SwitchedOff(config) ==> plan == Miss(key, Disabled))
          && (!SwitchedOff(config) && Outlived(config, world.now) ==> plan == Miss(key, Expired))
          && (!SwitchedOff(config) && !Outlived(config, world.now) ==>
                plan == MatchedPlan(key, RuleMatcher.Match(engine, r, Some(repl), config), world, index))
  {
    hide RuleMatcher.Match, InPool, Available;
  }

  /** The plan for a configuration that is neither switched off nor outlived. */
  function MatchedPlan(key: string, m: Option<RuleMatcher.MatchResult>, world: Surroundings,
                       index: map<string, Upstream>): Plan
  {
    if m.None? then Miss(key, NoMatch) else PlanFor(key, m.value, world, index)
  }

  /** Where a matched configuration leads: nowhere if no rule matches, no candidate is in the pool, or none of those is
      available; else to those that are, in their order. */
  lemma MatchedLeads(key: string, m: Option<RuleMatcher.MatchResult>, world: Surroundings, pool: Pool)
    ensures var plan, index := MatchedPlan(key, m, world, IndexOf(pool)), IndexOf(pool);
      if m.None? then plan == Miss(key, NoMatch)
      else
        var us := m.value.upstreams;
        var pooled := exists u :: u in us && u.address in index;
        var usable := exists u :: u in us && u.address in index && world.available(index[u.address]);
        && (!pooled ==> plan == Miss(key, NotInPool))
        && (pooled && !usable ==> plan == Miss(key, NoAvailableUpstream))
        && (usable ==> plan == Candidates(key, m.value, Available(us, index, world.available)))
  {
    hide IndexOf;
    var index := IndexOf(pool);
    if m.Some? {
      var us := m.value.upstreams;
      var available := Available(us, index, world.available);
      InPoolIs(us, index);
      assert available != [] ==> available[0] in available;
    }
  }

  // ----- a run in which the index goes stale

  const OLD_POOL: Pool := [Upstream("a", 1)]
  const NEW_POOL: Pool := [Upstream("b", 2)]
  const BOTH: UpstreamList := [WeightedUpstream("a", 1), WeightedUpstream("b", 1)]

  /** Two pools of one length: the index of the first serves the second. Of a rule's candidates a and b it then
      takes a, which the pool no longer has, where the pool's own index takes b. */
  lemma StaleIndexTakesTheWrongCandidate(key: string, found: RuleMatcher.MatchResult, world: Surroundings)
    requires found.upstreams == BOTH && world.available(OLD_POOL[0]) && world.available(NEW_POOL[0])
    ensures Memo.Kept([OLD_POOL, NEW_POOL], PoolSize()) == Some(OLD_POOL)
    ensures PlanFor(key, found, world, IndexOf(OLD_POOL)) == Candidates(key, found, [BOTH[0]])
    ensures PlanFor(key, found, world, IndexOf(NEW_POOL)) == Candidates(key, found, [BOTH[1]])
    ensures IndexOf(OLD_POOL)["a"] !in NEW_POOL
  {
    hide IndexOf, InPool, Available;
    assert [OLD_POOL, NEW_POOL][..1] == [OLD_POOL] && [OLD_POOL][..0] == [];
    assert Memo.Kept([OLD_POOL], PoolSize()) == Some(OLD_POOL);
    IndexOfOne(OLD_POOL[0]);
    IndexOfOne(NEW_POOL[0]);
    TwoCandidates(BOTH[0], BOTH[1], IndexOf(OLD_POOL), world.available);
    TwoCandidates(BOTH[0], BOTH[1], IndexOf(NEW_POOL), world.available);
  }

  lemma IndexOfOne(u: Upstream)
    ensures IndexOf([u]) == map[u.dial := u]
  {
    assert [u][..0] == [];
  }

  lemma OneCandidate(u: WeightedUpstream, index: map<string, Upstream>, available: Upstream -> bool)
    ensures InPool([u], index) == if u.address in index then [u] else []
    ensures Available([u], index, available) == if u.address in index && available(index[u.address]) then [u] else []
  {
    assert [u][..0] == [];
  }

  lemma TwoCandidates(u: WeightedUpstream, v: WeightedUpstream, index: map<string, Upstream>,
                      available: Upstream -> bool)
    ensures InPool([u, v], index) == InPool([u], index) + InPool([v], index)
    ensures InPool([u, v], index) == [] <==> u.address !in index && v.address !in index
    ensures Available([u, v], index, available) == Available([u], index, available) + Available([v], index, available)
    ensures Available([u], index, available) == if u.address in index && available(index[u.address]) then [u] else []
    ensures Available([v], index, available) == if v.address in index && available(index[v.address]) then [v] else []
  {
    assert [u, v][..1] == [u];
    OneCandidate(u, index, available);
    OneCandidate(v, index, available);
  }
}
