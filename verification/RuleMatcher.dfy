/** Matching a configuration against a request, with a bounded cache of compiled patterns, and handing the
    candidates to a selector kept per algorithm and key. */
module RuleMatcher {
  import opened Base
  import opened Requests
  import opened Text
  import opened Routes
  import opened Lru
  import opened HashRing
  import Selector
  import Priorities

  const DEFAULT_CACHE_SIZE := 1024

  // ----- conditions

  datatype Compiled = Compiled(id: int)

  /** The pattern language: compilation, which may fail, and matching. */
  datatype Engine = Engine(compile: string -> Option<Compiled>, matches: (Compiled, string) -> bool)

  predicate IsPattern(expected: string) {
    expected != "" && expected[0] == '~'
  }

  const HEADER_PREFIX := "http.request.header."

  /** A placeholder's value: from the replacer, or from the request for a few common names. */
  function Resolve(r: Request, repl: Option<Replacer>, placeholder: string): string {
    var key := TrimBraces(placeholder);
    if repl.Some? && repl.value(key).Some? then repl.value(key).value
    else if key == "http.request.method" then r.verb
    else if key == "http.request.host" then r.host
    else if key == "http.request.uri.path" then r.path
    else if HEADER_PREFIX <= key && key != HEADER_PREFIX then r.header(key[|HEADER_PREFIX|..])
    else ""
  }

  /** Whether a value is as expected: equal, or matching if the expectation is a pattern that compiles. */
  predicate MatchValue(engine: Engine, actual: string, expected: string) {
    if expected == "" then actual == ""
    else if IsPattern(expected) then
      engine.compile(expected[1..]).Some? && engine.matches(engine.compile(expected[1..]).value, actual)
    else actual == expected
  }

  /** Every condition of a rule holds. */
  predicate Satisfied(engine: Engine, r: Request, repl: Option<Replacer>, conditions: map<string, string>) {
    forall p :: p in conditions ==> MatchValue(engine, Resolve(r, repl, p), conditions[p])
  }

  // ----- the matched rule

  datatype MatchResult = MatchResult(upstreams: UpstreamList,
                                       algorithm: string, algorithmKey: string, matchedSimple: bool)

  function OrElse(s: string, default: string): string {
    if s == "" then default else s
  }

  /** Which rules of a configuration match. */
  function Matching(engine: Engine, r: Request, repl: Option<Replacer>, rules: seq<Rule>): (m: seq<bool>)
    ensures |m| == |rules|
    ensures forall i :: 0 <= i < |m| ==> m[i] == Satisfied(engine, r, repl, rules[i].conditions)
  {
    seq(|rules|, i requires 0 <= i < |rules| => Satisfied(engine, r, repl, rules[i].conditions))
  }

  /** The direct upstream if there are no rules, or else the first rule that matches. */
  function Match(engine: Engine, r: Request, repl: Option<Replacer>, config: RouteConfig): Option<MatchResult> {
    var algorithm := OrElse(config.algorithm, Selector.WEIGHTED_RANDOM);
    if config.upstream != "" && config.rules == [] then
      Some(MatchResult([WeightedUpstream(config.upstream, 1)], algorithm, config.algorithmKey, true))
    else match Priorities.FirstTrue(Matching(engine, r, repl, config.rules))
      case None => None
      case Some(i) =>
        var rule := config.rules[i];
        Some(MatchResult(rule.upstreams, OrElse(rule.algorithm, algorithm),
                         OrElse(rule.algorithmKey, config.algorithmKey), false))
  }

  /** Rule i is satisfied, and no satisfied rule has a higher priority. */
  ghost predicate IsHighestMatch(engine: Engine, r: Request, repl: Option<Replacer>, rules: seq<Rule>, i: nat) {
    && i < |rules| && Satisfied(engine, r, repl, rules[i].conditions)
    && forall j :: 0 <= j < |rules| && Satisfied(engine, r, repl, rules[j].conditions)
         ==> rules[j].priority <= rules[i].priority
  }

  /** For every configuration whose rules are in order, the match is that of a satisfied rule of the
      highest priority, and there is none exactly when no rule is satisfied. */
  lemma MatchHonoursPriority(engine: Engine, r: Request, repl: Option<Replacer>, config: RouteConfig)
    requires config.rules != [] && Priorities.Ordered(config.rules)
    ensures var m := Match(engine, r, repl, config);
      && (m.None? <==> forall i :: 0 <= i < |config.rules| ==> !Satisfied(engine, r, repl, config.rules[i].conditions))
      && (m.Some? ==> exists i: nat ::
            IsHighestMatch(engine, r, repl, config.rules, i) && m.value.upstreams == config.rules[i].upstreams)
  {
    var matching := Matching(engine, r, repl, config.rules);
    var first := Priorities.FirstTrue(matching);
    if first.Some? {
      assert matching[first.value];
      forall j | 0 <= j < |config.rules| && Satisfied(engine, r, repl, config.rules[j].conditions)
        ensures config.rules[j].priority <= config.rules[first.value].priority
      {
        assert matching[j];
      }
      assert IsHighestMatch(engine, r, repl, config.rules, first.value);
    } else {
      forall i | 0 <= i < |config.rules| ensures !Satisfied(engine, r, repl, config.rules[i].conditions) {
        assert !matching[i];
      }
    }
  }

  // ----- selectors by algorithm and key

  function CacheKey(algorithm: string, algorithmKey: string): string {
    algorithm + ":" + algorithmKey
  }

  /** Algorithms without a colon never share a selector by accident. */
  lemma CacheKeyInjective(a: string, k: string, b: string, l: string)
    requires ':' !in a && ':' !in b
    ensures CacheKey(a, k) == CacheKey(b, l) <==> a == b && k == l
  {
    if CacheKey(a, k) == CacheKey(b, l) {
      var s := CacheKey(a, k);
      assert s[|a|] == ':' && s[|b|] == ':';
      assert forall i :: 0 <= i < |a| ==> s[i] == a[i] && s[i] in a;
      assert forall i :: 0 <= i < |b| ==> s[i] == b[i] && s[i] in b;
      assert |a| == |b|;
      assert a == s[..|a|] && k == s[|a| + 1..] && l == s[|b| + 1..];
    }
  }

  /** Two algorithms never share a selector, whatever their keys, if and only if neither, with its colon, begins
      the other with its own. */
  lemma CacheKeysApartIff(a: string, b: string)
    requires a != b
    ensures (forall k, l :: CacheKey(a, k) != CacheKey(b, l))
      <==> !(a + ":" <= b + ":") && !(b + ":" <= a + ":")
  {
    SharedKey(a, b);
    SharedKey(b, a);
    forall k, l | CacheKey(a, k) == CacheKey(b, l) ensures a + ":" <= b + ":" || b + ":" <= a + ":" {
      BothPrefixes(a + ":", b + ":", CacheKey(a, k));
    }
  }

  lemma SharedKey(a: string, b: string)
    ensures a + ":" <= b + ":" ==> exists k :: CacheKey(a, k) == CacheKey(b, "")
  {
    if a + ":" <= b + ":" {
      var k := (b + ":")[|a + ":"|..];
      assert CacheKey(a, k) == (a + ":") + k == CacheKey(b, "");
    }
  }

  lemma BothPrefixes(s: string, t: string, whole: string)
    requires s <= whole && t <= whole
    ensures s <= t || t <= s
  {
    if |s| <= |t| {
      assert s == whole[..|s|] == t[..|s|];
    } else {
      assert t == whole[..|t|] == s[..|t|];
    }
  }

  /** An algorithm with a colon can share the selector of another. */
  lemma CacheKeyCollision()
    ensures CacheKey("header_hash:X", "") == CacheKey("header_hash", "X:")
  {
    assert "header_hash:X" + ":" + "" == "header_hash" + ":" + "X:";
  }

  predicate UnderKey(c: Selector.Settings, key: string) {
    CacheKey(c.algorithm, c.hashKey) == key
  }

  class RuleMatcher {
    const engine: Engine
    const hash: Hash
    const regexCacheSize: nat
    const selectorCacheSize: nat

    var regexCache: seq<Entry<Compiled>>
    var selectorCache: seq<Entry<Selector.UpstreamSelector>>

    ghost predicate Valid()
      reads this, Selectors()
    {
      && regexCacheSize > 0 && selectorCacheSize > 0
      && (forall i :: 0 <= i < |regexCache| ==> engine.compile(regexCache[i].key) == Some(regexCache[i].value))
      && (forall i :: 0 <= i < |selectorCache| ==>
            var s := selectorCache[i].value;
            s.Valid() && s.hash == hash && selectorCache[i].key == CacheKey(s.algorithm, s.hashKey))
    }

    ghost function Selectors(): set<Selector.UpstreamSelector>
      reads this`selectorCache
    {
      set i | 0 <= i < |selectorCache| :: selectorCache[i].value
    }

    constructor (engine: Engine, hash: Hash, regexCacheSize: int, selectorCacheSize: int)
      ensures Valid() && Selectors() == {}
      ensures this.engine == engine && this.hash == hash
    {
      this.engine, this.hash := engine, hash;
      this.regexCacheSize := if regexCacheSize <= 0 then DEFAULT_CACHE_SIZE else regexCacheSize;
      this.selectorCacheSize := if selectorCacheSize <= 0 then DEFAULT_CACHE_SIZE else selectorCacheSize;
      regexCache, selectorCache := [], [];
    }

    /** Whatever the cache holds, the result is that of compiling. */
    method GetRegex(pattern: string) returns (re: Option<Compiled>)
      requires Valid()
      modifies this`regexCache
      ensures Valid()
      ensures re == engine.compile(pattern)
    {
      var cached := Find(regexCache, pattern);
      if cached.Some? {
        var i :| 0 <= i < |regexCache| && regexCache[i] == Entry(pattern, cached.value);
        regexCache := Touch(regexCache, pattern);
        return cached;
      }
      re := engine.compile(pattern);
      if re.Some? {
        regexCache := Add(regexCache, regexCacheSize, pattern, re.value);
      }
    }

    method MatchRegex(actual: string, expected: string) returns (b: bool)
      requires Valid() && IsPattern(expected)
      modifies this`regexCache
      ensures Valid()
      ensures b == MatchValue(engine, actual, expected)
    {
      var re := GetRegex(expected[1..]);
      if re.None? {
        return false;
      }
      b := engine.matches(re.value, actual);
    }

    /** Plain values first, patterns second, each in whatever order the map yields them: together they
        decide whether every condition holds. */
    method MatchConditions(r: Request, repl: Option<Replacer>, conditions: map<string, string>) returns (b: bool)
      requires Valid()
      modifies this`regexCache
      ensures Valid()
      ensures b == Satisfied(engine, r, repl, conditions)
    {
      hide Resolve, Selector.State.Valid, CacheKey;
      var regexConditions: seq<string> := [];
      var pending := conditions.Keys;
      while pending != {}
        invariant pending <= conditions.Keys
        invariant forall i :: 0 <= i < |regexConditions| ==>
          regexConditions[i] in conditions && IsPattern(conditions[regexConditions[i]])
        invariant forall p :: p in conditions && p !in pending ==>
          p in regexConditions || MatchValue(engine, Resolve(r, repl, p), conditions[p])
      {
        var p :| p in pending;
        pending := pending - {p};
        if IsPattern(conditions[p]) {
          regexConditions := regexConditions + [p];
          continue;
        }
        if Resolve(r, repl, p) != conditions[p] {
          return false;
        }
      }
      for i := 0 to |regexConditions|
        invariant Valid()
        invariant forall j :: 0 <= j < i ==>
          MatchValue(engine, Resolve(r, repl, regexConditions[j]), conditions[regexConditions[j]])
      {
        var p := regexConditions[i];
        var matched := MatchRegex(Resolve(r, repl, p), conditions[p]);
        if !matched {
          return false;
        }
      }
      b := true;
    }

    method FindMatch(r: Request, repl: Option<Replacer>, config: RouteConfig) returns (m: Option<MatchResult>)
      requires Valid()
      modifies this`regexCache
      ensures Valid()
      ensures m == Match(engine, r, repl, config)
    {
      hide Satisfied, Resolve, Selector.State.Valid, CacheKey;
      var defaultAlgorithm := config.algorithm;
      if defaultAlgorithm == "" {
        defaultAlgorithm := Selector.WEIGHTED_RANDOM;
      }
      if config.upstream != "" && |config.rules| == 0 {
        return Some(MatchResult([WeightedUpstream(config.upstream, 1)], defaultAlgorithm, config.algorithmKey, true));
      }
      ghost var matching := Matching(engine, r, repl, config.rules);
      for i := 0 to |config.rules|
        invariant Valid()
        invariant forall j :: 0 <= j < i ==> !matching[j]
      {
        var rule := config.rules[i];
        var matched := MatchConditions(r, repl, rule.conditions);
        if matched {
          var algorithm := rule.algorithm;
          if algorithm == "" {
            algorithm := defaultAlgorithm;
          }
          var algorithmKey := rule.algorithmKey;
          if algorithmKey == "" {
            algorithmKey := config.algorithmKey;
          }
          assert Priorities.FirstTrue(matching) == Some(i);
          return Some(MatchResult(rule.upstreams, algorithm, algorithmKey, false));
        }
      }
      m := None;
    }

    ghost function Cached(key: string): (s: Option<Selector.UpstreamSelector>)
      reads this`selectorCache
      ensures s.Some? ==> s.value in Selectors()
    {
      var s := Find(selectorCache, key);
      assert s.Some? ==> exists i :: 0 <= i < |selectorCache| && selectorCache[i].value == s.value;
      s
    }

    ghost function CachedSet(key: string): set<Selector.UpstreamSelector>
      reads this`selectorCache
    {
      if Cached(key).Some? then {Cached(key).value} else {}
    }

    /** The settings and state of the selector a call would use: a cached one, or a fresh one. */
    ghost function SelectorFor(algorithm: string, algorithmKey: string): (Selector.Settings, Selector.State)
      reads this`selectorCache, Selectors()
    {
      match Cached(CacheKey(algorithm, algorithmKey))
      case Some(s) => (s.Config(), s.View())
      case None => (Selector.Settings(algorithm, algorithmKey, hash), Selector.INITIAL)
    }

    /** Every kept ring was built from one of the given lists. */
    ghost predicate RingsFrom(lists: set<UpstreamList>)
      reads this`selectorCache, Selectors()
    {
      forall s :: s in Selectors() && s.View().RingList().Some? ==> s.View().RingList().value in lists
    }

    lemma RingIsFromRun(lists: set<UpstreamList>, algorithm: string, algorithmKey: string)
      requires Valid() && RingsFrom(lists)
      ensures var (settings, state) := SelectorFor(algorithm, algorithmKey);
        settings.hash == hash && (state.RingList().Some? ==> state.RingList().value in lists)
    {
      if Cached(CacheKey(algorithm, algorithmKey)).Some? {
        assert Cached(CacheKey(algorithm, algorithmKey)).value in Selectors();
      }
    }

    method GetSelector(algorithm: string, algorithmKey: string) returns (s: Selector.UpstreamSelector)
      requires Valid()
      modifies this`selectorCache
      ensures Valid()
      ensures s in Selectors() && Selectors() <= old(Selectors()) + {s}
      ensures fresh(s) || (s in old(Selectors()) && old(Cached(CacheKey(algorithm, algorithmKey))) == Some(s))
      ensures (s.Config(), s.View()) == old(SelectorFor(algorithm, algorithmKey))
      ensures Cached(CacheKey(algorithm, algorithmKey)) == Some(s)
      ensures CacheKey(s.algorithm, s.hashKey) == CacheKey(algorithm, algorithmKey) && s.hash == hash
    {
      hide Find, Add, Touch, Selector.State.Valid, CacheKey;
      var cacheKey := CacheKey(algorithm, algorithmKey);
      var cached := Find(selectorCache, cacheKey);
      if cached.Some? {
        assert Cached(cacheKey) == cached;
        selectorCache := Touch(selectorCache, cacheKey);
        FrontIsFound(selectorCache, cacheKey, cached.value);
        return cached.value;
      }
      s := new Selector.UpstreamSelector(algorithm, algorithmKey, hash);
      selectorCache := Add(selectorCache, selectorCacheSize, cacheKey, s);
      FrontIsFound(selectorCache, cacheKey, s);
    }

    /** The cached selector chooses; no other selector is touched. */
    method UseSelector(s: Selector.UpstreamSelector, r: Request, upstreams: UpstreamList, intn: int -> int,
                       ghost lists: set<UpstreamList>) returns (u: WeightedUpstream)
      requires Valid() && Selector.IsRandom(intn) && RingsFrom(lists) && s in Selectors() && |upstreams| > 1
      modifies s
      ensures Valid() && RingsFrom(lists + {upstreams})
      ensures old(s.View()).Valid(hash) && s.View().Valid(hash)
        && s.Config().Chooses(old(s.View()), r, upstreams, intn, s.View(), u)
    {
      hide Selector.State.Valid, CacheKey, Selector.Settings.Chooses;
      ghost var before := s.View();
      var chosen := s.Select(r, upstreams, intn);
      u := chosen.value;
      Selector.ChoiceKeepsRing(s.Config(), before, r, upstreams, intn, s.View(), u);
    }

    /** None for no candidate, the candidate for one, and for more what the selector of this algorithm and
        key chooses; the selectors of other algorithms and keys are left alone. */
    method SelectFromUpstreams(r: Request, upstreams: UpstreamList, algorithm: string, algorithmKey: string,
                               intn: int -> int, ghost lists: set<UpstreamList>) returns (u: Option<WeightedUpstream>)
      requires Valid() && Selector.IsRandom(intn) && RingsFrom(lists)
      modifies this`selectorCache, Selectors()
      ensures Valid() && fresh(Selectors() - old(Selectors())) && RingsFrom(lists + {upstreams})
      ensures upstreams == [] ==> u == None
      ensures |upstreams| == 1 ==> u == Some(upstreams[0])
      ensures |upstreams| > 1 ==>
        u.Some? && Chose(old(SelectorFor(algorithm, algorithmKey)),
          SelectorFor(algorithm, algorithmKey), r, upstreams, intn, u.value)
      ensures |upstreams| > 1 ==>
        UnderKey(old(SelectorFor(algorithm, algorithmKey)).0, CacheKey(algorithm, algorithmKey))
      ensures forall s ::
        s in old(Selectors()) && s !in old(CachedSet(CacheKey(algorithm, algorithmKey))) ==> s.View() == old(s.View())
    {
      hide Find, Selector.State.Valid, CacheKey, Selector.Settings.Chooses;
      if |upstreams| == 0 {
        return None;
      }
      if |upstreams| == 1 {
        return Some(upstreams[0]);
      }
      var selector := GetSelector(algorithm, algorithmKey);
      var chosen := UseSelector(selector, r, upstreams, intn, lists);
      u := Some(chosen);
    }

    ghost predicate Chose(before: (Selector.Settings, Selector.State), after: (Selector.Settings, Selector.State),
                          r: Request, upstreams: UpstreamList, intn: int -> int, u: WeightedUpstream)
      requires upstreams != []
    {
      && after.0 == before.0 && before.0.hash == hash && before.1.Valid(hash) && after.1.Valid(hash)
      && before.0.Chooses(before.1, r, upstreams, intn, after.1, u)
    }
  }

  lemma FrontIsFound<V>(l: seq<Entry<V>>, key: string, value: V)
    requires l != [] && l[0] == Entry(key, value)
    ensures Find(l, key) == Some(value)
  {
  }

  // ----- what conditions and matches mean

  /** A name is resolved by the replacer if it defines it, and otherwise from the request: its method, host, path, or
      the header named. Braces around the name make no difference. */
  lemma ResolvesName(r: Request, repl: Option<Replacer>, name: string, h: string)
    requires name != "" && !IsBrace(name[0]) && !IsBrace(name[|name| - 1])
    ensures Resolve(r, repl, "{" + name + "}") == Resolve(r, repl, name)
    ensures repl.Some? && repl.value(name).Some? ==> Resolve(r, repl, name) == repl.value(name).value
    ensures repl.None? || repl.value(name).None? ==>
      && (name == "http.request.method" ==> Resolve(r, repl, name) == r.verb)
      && (name == "http.request.host" ==> Resolve(r, repl, name) == r.host)
      && (name == "http.request.uri.path" ==> Resolve(r, repl, name) == r.path)
      && (name == "http.request.header." + h && h != "" ==> Resolve(r, repl, name) == r.header(h))
      && (name in {"http.request.method", "http.request.host", "http.request.uri.path"}
          || "http.request.header." <= name || Resolve(r, repl, name) == "")
  {
    PlaceholderName(name);
    assert TrimBraces(name) == name;
    if name == HEADER_PREFIX + h && h != "" {
      HeaderName(h);
    }
  }

  lemma HeaderName(h: string)
    requires h != ""
    ensures var name := HEADER_PREFIX + h;
      && HEADER_PREFIX <= name && name != HEADER_PREFIX && name[|HEADER_PREFIX|..] == h
      && name != "http.request.method" && name != "http.request.host" && name != "http.request.uri.path"
  {
    var name := HEADER_PREFIX + h;
    assert name[13] == HEADER_PREFIX[13] == 'h' && name[14] == 'e';
  }

  /** An expectation that begins with a tilde is a pattern, which must compile and match; any other must be equal. */
  lemma MatchValueIs(engine: Engine, actual: string, text: string)
    ensures MatchValue(engine, actual, "~" + text) <==>
      engine.compile(text).Some? && engine.matches(engine.compile(text).value, actual)
    ensures text == "" || text[0] != '~' ==> (MatchValue(engine, actual, text) <==> actual == text)
  {
    assert ("~" + text)[1..] == text;
  }

  /** No conditions are satisfied; with one more, both it and the others must be. */
  lemma SatisfiedIs(engine: Engine, r: Request, repl: Option<Replacer>, conditions: map<string, string>, p: string,
                    e: string)
    ensures Satisfied(engine, r, repl, map[])
    ensures p !in conditions ==> (Satisfied(engine, r, repl, conditions[p := e]) <==>
      MatchValue(engine, Resolve(r, repl, p), e) && Satisfied(engine, r, repl, conditions))
  {
    hide Resolve, MatchValue;
    var more := conditions[p := e];
    if p !in conditions {
      assert p in more && more[p] == e;
      assert forall q :: q in conditions ==> q in more && more[q] == conditions[q];
    }
  }

  /** The match is the direct upstream where there is one and no rule, and otherwise that of the first satisfied rule.
      Its algorithm is the rule's, or else the configuration's, or else weighted random; its key the rule's, or else
      the configuration's. */
  lemma MatchIs(engine: Engine, r: Request, repl: Option<Replacer>, config: RouteConfig)
    ensures var m := Match(engine, r, repl, config);
      if config.upstream != "" && config.rules == [] then
        m == Some(MatchResult([WeightedUpstream(config.upstream, 1)],
                              if config.algorithm != "" then config.algorithm else "weighted_random",
                              config.algorithmKey, true))
      else if m.None? then
        forall i :: 0 <= i < |config.rules| ==> !Satisfied(engine, r, repl, config.rules[i].conditions)
      else
        exists i :: 0 <= i < |config.rules| && IsMatchOf(config, i, m.value)
          && Satisfied(engine, r, repl, config.rules[i].conditions)
          && forall j :: 0 <= j < i ==> !Satisfied(engine, r, repl, config.rules[j].conditions)
  {
    hide Satisfied;
    var matching := Matching(engine, r, repl, config.rules);
    var first := Priorities.FirstTrue(matching);
    if first.Some? {
      assert matching[first.value];
      assert forall j :: 0 <= j < first.value ==> !matching[j];
    } else {
      assert forall j :: 0 <= j < |config.rules| ==> !matching[j];
    }
  }

  predicate IsMatchOf(config: RouteConfig, i: int, m: MatchResult)
    requires 0 <= i < |config.rules|
  {
    var rule := config.rules[i];
    && m.upstreams == rule.upstreams && !m.matchedSimple
    && m.algorithm == (if rule.algorithm != "" then rule.algorithm
                       else if config.algorithm != "" then config.algorithm else "weighted_random")
    && m.algorithmKey == if rule.algorithmKey != "" then rule.algorithmKey else config.algorithmKey
  }
}
