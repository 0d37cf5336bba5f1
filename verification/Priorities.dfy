/** Rules in priority order: how parsing establishes the order, what it guarantees about the first matching
    rule, and when merging keeps it. */
module Priorities {
  import opened Base
  import opened Routes
  import opened Sorting
  import Merging

  ghost predicate Ordered(rules: seq<Rule>) {
    forall i, j :: 0 <= i < j < |rules| ==> rules[i].priority >= rules[j].priority
  }

  function NormalUpstreams(us: seq<WeightedUpstream>): (r: seq<WeightedUpstream>)
    ensures |r| == |us|
    ensures forall j :: 0 <= j < |us| ==> r[j] == us[j].(weight := us[j].EffectiveWeight())
  {
    seq(|us|, j requires 0 <= j < |us| => us[j].(weight := us[j].EffectiveWeight()))
  }

  method SetDefaultWeights(upstreams: seq<WeightedUpstream>) returns (us: seq<WeightedUpstream>)
    ensures us == NormalUpstreams(upstreams)
  {
    us := upstreams;
    for j := 0 to |us|
      invariant |us| == |upstreams|
      invariant forall k :: 0 <= k < j ==> us[k] == upstreams[k].(weight := upstreams[k].EffectiveWeight())
      invariant forall k :: j <= k < |us| ==> us[k] == upstreams[k]
    {
      if us[j].weight <= 0 {
        us := us[j := us[j].(weight := 1)];
      }
    }
  }

  /** The rules of the second sequence are those of the first, with positive weights. */
  ghost predicate Normalized(rules: seq<Rule>, r: seq<Rule>) {
    |r| == |rules| && forall i :: 0 <= i < |r| ==> r[i] == rules[i].(upstreams := NormalUpstreams(rules[i].upstreams))
  }

  ghost predicate PositiveWeights(rules: seq<Rule>) {
    forall i, j :: 0 <= i < |rules| && 0 <= j < |rules[i].upstreams| ==> rules[i].upstreams[j].weight >= 1
  }

  /** The same configuration with its rules in order, ties in any order, and their weights made positive. */
  ghost predicate IsNormalForm(config: RouteConfig, r: RouteConfig) {
    && r == config.(rules := r.rules) && Ordered(r.rules) && PositiveWeights(r.rules)
    && exists sorted :: multiset(sorted) == multiset(config.rules) && Normalized(sorted, r.rules)
  }

  /** Sort by priority, highest first, and give every upstream a positive weight. */
  method NormalizeConfig(config: RouteConfig) returns (r: RouteConfig)
    ensures IsNormalForm(config, r)
  {
    var rules := config.rules;
    var less := (x: Rule, y: Rule) => x.priority > y.priority;
    if |rules| > 0 {
      rules := SortSlice(rules, less);
      assert forall i, j :: 0 <= i < j < |rules| ==> !less(rules[j], rules[i]);
    }
    ghost var sorted := rules;
    assert Ordered(sorted) && multiset(sorted) == multiset(config.rules);
    for i := 0 to |rules|
      invariant |rules| == |sorted|
      invariant forall k :: 0 <= k < i ==> rules[k] == sorted[k].(upstreams := NormalUpstreams(sorted[k].upstreams))
      invariant forall k :: i <= k < |rules| ==> rules[k] == sorted[k]
    {
      var us := SetDefaultWeights(rules[i].upstreams);
      rules := rules[i := rules[i].(upstreams := us)];
    }
    r := config.(rules := rules);
    assert Normalized(sorted, r.rules);
  }

  // ----- the first matching rule

  /** The first position of the vector that is true. */
  function FirstTrue(m: seq<bool>): (r: Option<nat>)
    ensures r.None? <==> forall i :: 0 <= i < |m| ==> !m[i]
    ensures r.Some? ==> r.value < |m| && m[r.value] && forall i :: 0 <= i < r.value ==> !m[i]
  {
    if m == [] then None
    else match FirstTrue(m[..|m| - 1])
      case Some(i) => Some(i)
      case None => if m[|m| - 1] then Some(|m| - 1) else None
  }

  /** Among the rules that match, the one taken has the highest priority. */
  ghost predicate TakesHighest(rules: seq<Rule>, matching: seq<bool>)
    requires |matching| == |rules|
  {
    FirstTrue(matching).Some? ==>
      forall j :: 0 <= j < |rules| && matching[j] ==> rules[j].priority <= rules[FirstTrue(matching).value].priority
  }

  /** Taking the first matching rule honours priority, whichever rules match, exactly when the rules are in order. */
  lemma PriorityHonouredIffOrdered(rules: seq<Rule>)
    ensures (forall m: seq<bool> :: |m| == |rules| ==> TakesHighest(rules, m)) <==> Ordered(rules)
  {
    if !Ordered(rules) {
      var i, j :| 0 <= i < j < |rules| && rules[i].priority < rules[j].priority;
      var m := seq(|rules|, k => k == i || k == j);
      assert m[i] && m[j] && forall k :: 0 <= k < i ==> !m[k];
      assert !TakesHighest(rules, m);
    }
  }

  /** Merging two ordered configurations keeps the order exactly when the last rule of the first has at
      least the priority of the first rule of the second; nothing sorts the rules again. */
  lemma MergedRulesOrderedIff(a: RouteConfig, b: RouteConfig)
    requires Ordered(a.rules) && Ordered(b.rules)
    ensures Ordered(Merging.Merge(a, b).rules) <==>
      (a.rules == [] || b.rules == [] || a.rules[|a.rules| - 1].priority >= b.rules[0].priority)
  {
    var r := a.rules + b.rules;
    if Ordered(r) && a.rules != [] && b.rules != [] {
      assert r[|a.rules| - 1].priority >= r[|a.rules|].priority;
    }
  }
}
