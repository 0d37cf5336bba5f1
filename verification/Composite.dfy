/** The composite source: configurations fetched from several sources, one after the other or all at once,
    and combined. Configurations are objects; the results of parallel fetches arrive in any order. */
module Composite {
  import opened Base
  import opened Routes
  import opened Merging

  /** A map that several configurations could share. */
  class Metadata {
    var entries: map<string, string>

    constructor (entries: map<string, string>)
      ensures this.entries == entries
    {
      this.entries := entries;
    }

    /** The entries of the other map are written into this one in whatever order that one yields them. */
    method AddAll(other: Metadata)
      requires other != this
      modifies this
      ensures entries == old(entries) + other.entries
    {
      var pending := other.entries.Keys;
      while pending != {}
        invariant pending <= other.entries.Keys
        invariant entries.Keys == old(entries).Keys + (other.entries.Keys - pending)
        invariant forall k :: k in other.entries && k !in pending ==> entries[k] == other.entries[k]
        invariant forall k ::
          k in entries && (k !in other.entries || k in pending) ==> entries[k] == old(entries)[k]
      {
        var k :| k in pending;
        pending := pending - {k};
        entries := entries[k := other.entries[k]];
      }
    }
  }

  /** The conditions and the upstreams of a rule: maps and slices that rules may share. Once a configuration is
      parsed nothing writes to them. */
  class Conditions {
    const entries: map<string, string>

    constructor (entries: map<string, string>)
      ensures this.entries == entries
    {
      this.entries := entries;
    }
  }

  class Upstreams {
    const list: seq<WeightedUpstream>

    constructor (list: seq<WeightedUpstream>)
      ensures this.list == list
    {
      this.list := list;
    }
  }

  /** A rule as a configuration holds it. */
  datatype RuleRef = RuleRef(conditions: Conditions?, upstreams: Upstreams?, priority: int, algorithm: string,
                             algorithmKey: string)
  {
    ghost function Value(): Rule {
      Rule(if conditions == null then map[] else conditions.entries, if upstreams == null then [] else upstreams.list,
           priority, algorithm, algorithmKey)
    }

    /** A rule of the same value that shares nothing with this one. */
    method Clone() returns (clone: RuleRef)
      ensures clone.Value() == Value()
      ensures if conditions == null then clone.conditions == null else fresh(clone.conditions)
      ensures if upstreams == null then clone.upstreams == null else fresh(clone.upstreams)
    {
      var copied: Conditions? := null;
      if conditions != null {
        var entries: map<string, string> := map[];
        var pending := conditions.entries.Keys;
        while pending != {}
          invariant pending <= conditions.entries.Keys && entries.Keys == conditions.entries.Keys - pending
          invariant forall k :: k in entries ==> entries[k] == conditions.entries[k]
        {
          var k :| k in pending;
          pending := pending - {k};
          entries := entries[k := conditions.entries[k]];
        }
        assert entries == conditions.entries;
        copied := new Conditions(entries);
      }
      var candidates: Upstreams? := null;
      if upstreams != null {
        candidates := new Upstreams(upstreams.list);
      }
      clone := RuleRef(copied, candidates, priority, algorithm, algorithmKey);
    }
  }

  /** What the rules refer to. */
  ghost function RuleObjects(rules: seq<RuleRef>): set<object> {
    (set i | 0 <= i < |rules| && rules[i].conditions != null :: rules[i].conditions)
    + (set i | 0 <= i < |rules| && rules[i].upstreams != null :: rules[i].upstreams)
  }

  ghost function RuleValues(rules: seq<RuleRef>): (vs: seq<Rule>)
    ensures |vs| == |rules| && forall i :: 0 <= i < |vs| ==> vs[i] == rules[i].Value()
  {
    seq(|rules|, i requires 0 <= i < |rules| => rules[i].Value())
  }

  class Config {
    var version: int
    var createdAt: int
    var updatedAt: int
    var upstream: string
    var rules: seq<RuleRef>
    var fallback: string
    var algorithm: string
    var algorithmKey: string
    var metadata: Metadata?
    var ttl: int
    var enabled: Option<bool>
    var description: string

    ghost function View(): RouteConfig
      reads this, metadata
    {
      RouteConfig(version, createdAt, updatedAt, upstream, RuleValues(rules), fallback, algorithm, algorithmKey,
                  Entries(), ttl, enabled, description)
    }

    /** A configuration without metadata reads as one with none. */
    function Entries(): map<string, string>
      reads this, metadata
    {
      if metadata == null then map[] else metadata.entries
    }

    /** The plain fields of another configuration, with these rules and no metadata. */
    constructor (of: Config, rules: seq<RuleRef>)
      ensures View() == of.View().(rules := RuleValues(rules), metadata := map[])
      ensures this.rules == rules && metadata == null
    {
      version, createdAt, updatedAt := of.version, of.createdAt, of.updatedAt;
      upstream, this.rules, fallback := of.upstream, rules, of.fallback;
      algorithm, algorithmKey := of.algorithm, of.algorithmKey;
      metadata, ttl, enabled, description := null, of.ttl, of.enabled, of.description;
    }

    /** A configuration of the same value that shares no object with this one. */
    method Clone() returns (clone: Config)
      ensures fresh(clone) && clone.View() == View() && (clone.metadata == null <==> metadata == null)
      ensures (clone.metadata != null ==> fresh(clone.metadata)) && fresh(RuleObjects(clone.rules))
    {
      hide RuleObjects, RuleValues;
      var copied := CloneRules(rules);
      clone := new Config(this, copied);
      if metadata != null {
        clone.metadata := new Metadata(map[]);
        clone.metadata.AddAll(metadata);
      }
    }
  }

  lemma NoRuleObjects()
    ensures RuleObjects([]) == {}
  {
  }

  method CloneRules(rules: seq<RuleRef>) returns (clones: seq<RuleRef>)
    ensures fresh(RuleObjects(clones)) && RuleValues(clones) == RuleValues(rules)
  {
    hide RuleObjects, RuleValues;
    NoRuleObjects();
    clones := [];
    for i := 0 to |rules|
      invariant |clones| == i && fresh(RuleObjects(clones))
      invariant forall j :: 0 <= j < i ==> clones[j].Value() == rules[j].Value()
    {
      var clone := rules[i].Clone();
      RuleObjectsOneMore(clones, clone);
      clones := clones + [clone];
    }
  }

  lemma RuleObjectsOneMore(rules: seq<RuleRef>, r: RuleRef)
    ensures RuleObjects(rules + [r]) == RuleObjects(rules)
      + (if r.conditions == null then {} else {r.conditions}) + (if r.upstreams == null then {} else {r.upstreams})
  {
    var more := rules + [r];
    assert more[|rules|] == r && forall i :: 0 <= i < |rules| ==> more[i] == rules[i];
  }

  /** The two configurations share no object. */
  predicate Apart(dst: Config, src: Config)
    reads dst, src
  {
    dst != src && (dst.metadata != null ==> dst.metadata != src.metadata)
  }

  /** src is laid over dst; dst and its metadata change and nothing else does. */
  method MergeConfig(dst: Config, src: Config)
    requires Apart(dst, src)
    modifies dst, dst.metadata
    ensures dst.View() == Merge(old(dst.View()), src.View())
    ensures dst.metadata == old(dst.metadata) || fresh(dst.metadata)
  {
    assert RuleValues(dst.rules + src.rules) == RuleValues(dst.rules) + RuleValues(src.rules);
    MergeTexts(dst, src);
    MergeSettings(dst, src);
    MergeMetadata(dst, src);
  }

  method MergeSettings(dst: Config, src: Config)
    requires dst != src
    modifies dst`ttl, dst`enabled, dst`rules, dst`version
    ensures dst.ttl == if src.ttl > 0 then src.ttl else old(dst.ttl)
    ensures dst.enabled == if src.enabled.Some? then src.enabled else old(dst.enabled)
    ensures dst.rules == old(dst.rules) + src.rules
    ensures dst.version == if src.version > old(dst.version) then src.version else old(dst.version)
  {
    if src.ttl > 0 {
      dst.ttl := src.ttl;
    }
    if src.enabled.Some? {
      dst.enabled := src.enabled;
    }
    if |src.rules| > 0 {
      dst.rules := dst.rules + src.rules;
    }
    if src.version > dst.version {
      dst.version := src.version;
    }
  }

  method MergeTexts(dst: Config, src: Config)
    requires dst != src
    modifies dst`upstream, dst`algorithm, dst`algorithmKey, dst`fallback, dst`description
    ensures dst.upstream == Prefer(old(dst.upstream), src.upstream)
    ensures dst.algorithm == Prefer(old(dst.algorithm), src.algorithm)
    ensures dst.algorithmKey == Prefer(old(dst.algorithmKey), src.algorithmKey)
    ensures dst.fallback == Prefer(old(dst.fallback), src.fallback)
    ensures dst.description == Prefer(old(dst.description), src.description)
  {
    if src.upstream != "" {
      dst.upstream := src.upstream;
    }
    if src.algorithm != "" {
      dst.algorithm := src.algorithm;
    }
    if src.algorithmKey != "" {
      dst.algorithmKey := src.algorithmKey;
    }
    if src.fallback != "" {
      dst.fallback := src.fallback;
    }
    if src.description != "" {
      dst.description := src.description;
    }
  }

  /** The entries of src are written into dst's own map, which is made if there is none. */
  method MergeMetadata(dst: Config, src: Config)
    requires Apart(dst, src)
    modifies dst`metadata, dst.metadata
    ensures dst.Entries() == old(dst.Entries()) + src.Entries()
    ensures dst.metadata == old(dst.metadata) || fresh(dst.metadata)
  {
    if src.metadata == null || |src.metadata.entries| == 0 {
      assert src.Entries() == map[];
      return;
    }
    if dst.metadata == null {
      dst.metadata := new Metadata(map[]);
    }
    dst.metadata.AddAll(src.metadata);
  }

  /** What a source answers: a configuration or nil, or an error. */
  datatype Fetched = Fetched(config: Config?) | Failed

  function Usable(f: Fetched): (c: Config?)
    ensures c != null ==> f == Fetched(c)
    ensures c == null ==> f == Failed || f == Fetched(null)
  {
    if f.Fetched? then f.config else null
  }

  /** What is there to merge, source by source. */
  function Usables(results: seq<Fetched>): (cs: seq<Config?>)
    ensures |cs| == |results| && forall i :: 0 <= i < |cs| ==> cs[i] == Usable(results[i])
  {
    seq(|results|, i requires 0 <= i < |results| => Usable(results[i]))
  }

  /** The configurations that are there, and the metadata of those. */
  ghost function Configs(cs: seq<Config?>): set<object> {
    set i | 0 <= i < |cs| && cs[i] != null :: cs[i]
  }

  ghost function Metadatas(cs: seq<Config?>): set<object>
    reads Configs(cs)
  {
    set i | 0 <= i < |cs| && cs[i] != null && cs[i].metadata != null :: cs[i].metadata
  }

  ghost function Values(cs: seq<Config?>): (vs: seq<Option<RouteConfig>>)
    reads Configs(cs), Metadatas(cs)
    ensures |vs| == |cs|
    ensures forall i :: 0 <= i < |vs| ==> vs[i] == ValueOf(cs[i])
  {
    if cs == [] then [] else Values(cs[..|cs| - 1]) + [ValueOf(cs[|cs| - 1])]
  }

  ghost function ValueOf(merged: Config?): Option<RouteConfig>
    reads merged, if merged == null then null else merged.metadata
  {
    if merged == null then None else Some(merged.View())
  }

  /** The sources one after the other. No existing configuration is written to: the method may modify nothing. */
  method GetMergeSequential(results: seq<Fetched>) returns (merged: Config?)
    ensures merged != null ==> fresh(merged) && (merged.metadata != null ==> fresh(merged.metadata))
    ensures ValueOf(merged) == MergeAll(Values(Usables(results)))
  {
    hide Merge, Values;
    merged := null;
    ghost var vs := Values(Usables(results));
    for i := 0 to |results|
      invariant merged != null ==> fresh(merged) && (merged.metadata != null ==> fresh(merged.metadata))
      invariant ValueOf(merged) == MergeAll(vs[..i])
    {
      assert vs[..i + 1][..i] == vs[..i];
      assert vs[i] == ValueOf(Usables(results)[i]);
      if results[i].Failed? {
        continue;
      }
      if results[i].config == null {
        continue;
      }
      if merged == null {
        merged := results[i].config.Clone();
      } else {
        MergeConfig(merged, results[i].config);
      }
    }
    assert vs[..|results|] == vs;
    assert Values(Usables(results)) == vs;
  }

  /** All sources at once: results arrive in any order and are put in place by index before merging. */
  method GetMergeParallel(results: seq<Fetched>) returns (merged: Config?)
    ensures merged != null ==> fresh(merged) && (merged.metadata != null ==> fresh(merged.metadata))
    ensures ValueOf(merged) == MergeAll(Values(Usables(results)))
  {
    hide Merge, Values;
    var configs: seq<Config?> := seq(|results|, _ => null);
    var pending := Indices(|results|);
    while pending != {}
      invariant pending <= Indices(|results|) && |configs| == |results|
      invariant forall i :: 0 <= i < |results| ==> configs[i] == if i in pending then null else Usable(results[i])
    {
      var i :| i in pending;
      pending := pending - {i};
      if results[i].Failed? {
        continue;
      }
      configs := configs[i := results[i].config];
    }
    assert configs == Usables(results);
    merged := MergeInOrder(configs);
  }

  method MergeInOrder(configs: seq<Config?>) returns (merged: Config?)
    ensures merged != null ==> fresh(merged) && (merged.metadata != null ==> fresh(merged.metadata))
    ensures ValueOf(merged) == MergeAll(Values(configs))
  {
    hide Merge, Values;
    merged := null;
    ghost var vs := Values(configs);
    for i := 0 to |configs|
      invariant merged != null ==> fresh(merged) && (merged.metadata != null ==> fresh(merged.metadata))
      invariant ValueOf(merged) == MergeAll(vs[..i])
    {
      assert vs[..i + 1][..i] == vs[..i];
      assert vs[i] == ValueOf(configs[i]);
      if configs[i] == null {
        continue;
      }
      if merged == null {
        merged := configs[i].Clone();
      } else {
        MergeConfig(merged, configs[i]);
      }
    }
    assert vs[..|configs|] == vs;
    assert Values(configs) == vs;
  }

  // ----- the first source that has a configuration

  function Indices(n: nat): (s: set<nat>)
    ensures forall i :: i in s <==> 0 <= i < n
    ensures |s| == n
  {
    if n == 0 then {} else Indices(n - 1) + {n - 1}
  }

  /** The lowest index, from the given one on, among those allowed whose source has a configuration. */
  function Lowest(results: seq<Fetched>, allowed: set<nat>, from: nat): (r: Option<nat>)
    requires from <= |results|
    ensures r.Some? ==> from <= r.value < |results| && r.value in allowed && Usable(results[r.value]) != null
    ensures r.Some? ==> forall j :: from <= j < r.value ==> j !in allowed || Usable(results[j]) == null
    ensures r.None? ==> forall j :: from <= j < |results| ==> j !in allowed || Usable(results[j]) == null
    decreases |results| - from
  {
    if from == |results| then None
    else if from in allowed && Usable(results[from]) != null then Some(from)
    else Lowest(results, allowed, from + 1)
  }

  function Pick(results: seq<Fetched>, r: Option<nat>): (c: Config?)
    requires r.Some? ==> r.value < |results|
    ensures r.None? ==> c == null
    ensures r.Some? && c != null ==> results[r.value] == Fetched(c)
    ensures r.Some? && c == null ==> results[r.value] == Failed || results[r.value] == Fetched(null)
  {
    if r.None? then null else Usable(results[r.value])
  }

  /** Sources in order, regardless of health. */
  method GetPriority(results: seq<Fetched>) returns (c: Config?)
    ensures c == Pick(results, Lowest(results, Indices(|results|), 0))
  {
    for i := 0 to |results|
      invariant Lowest(results, Indices(|results|), 0) == Lowest(results, Indices(|results|), i)
    {
      if results[i].Failed? {
        continue;
      }
      if results[i].config != null {
        return results[i].config;
      }
    }
    c := null;
  }

  /** Healthy sources in order. */
  method GetFailover(results: seq<Fetched>, healthy: seq<bool>) returns (c: Config?)
    requires |healthy| == |results|
    ensures c == Pick(results, Lowest(results, HealthyOnes(healthy), 0))
  {
    for i := 0 to |results|
      invariant Lowest(results, HealthyOnes(healthy), 0) == Lowest(results, HealthyOnes(healthy), i)
    {
      if !healthy[i] {
        continue;
      }
      if results[i].Failed? {
        continue;
      }
      if results[i].config != null {
        return results[i].config;
      }
    }
    c := null;
  }

  function HealthyOnes(healthy: seq<bool>): (s: set<nat>)
    ensures forall i :: i in s <==> 0 <= i < |healthy| && healthy[i]
  {
    set i | i in Indices(|healthy|) && healthy[i]
  }

  /** All sources at once; the results of `delivered` arrive in any order, the others are dropped because
      the context was cancelled first. */
  method GetPriorityParallel(results: seq<Fetched>, delivered: set<nat>) returns (c: Config?)
    requires delivered <= Indices(|results|)
    ensures c == Pick(results, Lowest(results, delivered, 0))
  {
    var n := |results|;
    var collected: map<nat, Config> := map[];
    var received := 0;
    var pending := delivered;
    SubsetSize(delivered, Indices(n));
    while pending != {}
      invariant pending <= delivered && received + |pending| == |delivered| <= n
      invariant forall i :: i in collected <==> i in delivered - pending && Usable(results[i]) != null
      invariant forall i :: i in collected ==> collected[i] == Usable(results[i])
    {
      var r :| r in pending;
      pending := pending - {r};
      received := received + 1;
      if Usable(results[r]) != null {
        collected := collected[r := results[r].config];
      }
      for i := 0 to n
        invariant i > 0 ==> received == n && pending == {}
        invariant forall j :: 0 <= j < i ==> j !in collected
      {
        if i in collected {
          forall j | 0 <= j < i ensures j !in delivered || Usable(results[j]) == null {
            assert j !in collected;
          }
          LowestIs(results, delivered, i);
          return collected[i];
        }
        if received < n {
          break;
        }
        assert |pending| == 0;
      }
    }
    for i := 0 to n
      invariant forall j :: 0 <= j < i ==> j !in collected
    {
      if i in collected {
        return collected[i];
      }
    }
    c := null;
  }

  lemma LowestIs(results: seq<Fetched>, allowed: set<nat>, i: nat)
    requires i < |results| && i in allowed && Usable(results[i]) != null
    requires forall j :: 0 <= j < i ==> j !in allowed || Usable(results[j]) == null
    ensures Lowest(results, allowed, 0) == Some(i)
  {
  }

  /** A parallel fetch answers from the same source as the sequential one if and only if the source that
      the sequential one would answer from was not dropped. */
  lemma ParallelAgreesIff(results: seq<Fetched>, delivered: set<nat>)
    requires delivered <= Indices(|results|)
    ensures Lowest(results, delivered, 0) == Lowest(results, Indices(|results|), 0)
      <==> (Lowest(results, Indices(|results|), 0).Some? ==> Lowest(results, Indices(|results|), 0).value in delivered)
  {
    var p, s := Lowest(results, delivered, 0), Lowest(results, Indices(|results|), 0);
    if s.Some? && s.value in delivered {
      assert p.Some? && p.value <= s.value;
      assert s.value <= p.value;
    }
  }

  /** The answer of the first source that answers with a configuration, of those counted; nil if none does. */
  ghost predicate FirstAnswer(results: seq<Fetched>, counted: set<nat>, c: Config?) {
    if c == null then
      forall i :: 0 <= i < |results| && i in counted ==> results[i] == Failed || results[i] == Fetched(null)
    else
      exists i :: 0 <= i < |results| && i in counted && results[i] == Fetched(c)
        && forall j :: 0 <= j < i && j in counted ==> results[j] == Failed || results[j] == Fetched(null)
  }

  /** What is picked at the lowest index is that answer, and there is only one. */
  lemma LowestIsFirstAnswer(results: seq<Fetched>, counted: set<nat>, c: Config?)
    ensures c == Pick(results, Lowest(results, counted, 0)) <==> FirstAnswer(results, counted, c)
  {
    var r := Lowest(results, counted, 0);
    var picked := Pick(results, r);
    if r.Some? {
      assert FirstAnswer(results, counted, picked);
      if FirstAnswer(results, counted, c) && c != null {
        var i :| 0 <= i < |results| && i in counted && results[i] == Fetched(c)
          && forall j :: 0 <= j < i && j in counted ==> results[j] == Failed || results[j] == Fetched(null);
        assert !(i < r.value) && !(r.value < i);
      }
    }
  }
}
