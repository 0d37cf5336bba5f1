/** Merging configurations as values: what one merge keeps, and why grouping does not matter. */
module Merging {
  import opened Base
  import opened Routes

  function Prefer(a: string, b: string): string {
    if b != "" then b else a
  }

  /** src laid over dst: non-empty fields win, rules are appended, metadata is joined, the higher version
      stays; the times are those of dst. */
  function Merge(dst: RouteConfig, src: RouteConfig): RouteConfig {
    RouteConfig(
      if src.version > dst.version then src.version else dst.version,
      dst.createdAt, dst.updatedAt,
      Prefer(dst.upstream, src.upstream),
      dst.rules + src.rules,
      Prefer(dst.fallback, src.fallback),
      Prefer(dst.algorithm, src.algorithm),
      Prefer(dst.algorithmKey, src.algorithmKey),
      dst.metadata + src.metadata,
      if src.ttl > 0 then src.ttl else dst.ttl,
      if src.enabled.Some? then src.enabled else dst.enabled,
      Prefer(dst.description, src.description))
  }

  /** A source without a configuration contributes nothing. */
  function Combine(a: Option<RouteConfig>, b: Option<RouteConfig>): Option<RouteConfig> {
    match (a, b)
    case (None, _) => b
    case (_, None) => a
    case (Some(x), Some(y)) => Some(Merge(x, y))
  }

  function MergeAll(cs: seq<Option<RouteConfig>>): Option<RouteConfig> {
    if cs == [] then None else Combine(MergeAll(cs[..|cs| - 1]), cs[|cs| - 1])
  }

  lemma CombineAssociative(a: Option<RouteConfig>, b: Option<RouteConfig>, c: Option<RouteConfig>)
    ensures Combine(Combine(a, b), c) == Combine(a, Combine(b, c))
  {
    if a.Some? && b.Some? && c.Some? {
      var x, y, z := a.value, b.value, c.value;
      assert (x.rules + y.rules) + z.rules == x.rules + (y.rules + z.rules);
      assert (x.metadata + y.metadata) + z.metadata == x.metadata + (y.metadata + z.metadata);
    }
  }

  lemma {:induction false} MergeAllAppends(a: seq<Option<RouteConfig>>, b: seq<Option<RouteConfig>>)
    ensures MergeAll(a + b) == Combine(MergeAll(a), MergeAll(b))
  {
    hide Combine;
    if b == [] {
      assert a + b == a;
      CombineUnit(MergeAll(a));
    } else {
      var n := |b| - 1;
      assert (a + b)[..|a + b| - 1] == a + b[..n];
      MergeAllAppends(a, b[..n]);
      CombineAssociative(MergeAll(a), MergeAll(b[..n]), b[n]);
    }
  }

  lemma CombineUnit(a: Option<RouteConfig>)
    ensures Combine(a, None) == a == Combine(None, a)
  {
  }

  function Flatten(groups: seq<seq<Option<RouteConfig>>>): seq<Option<RouteConfig>> {
    if groups == [] then [] else Flatten(groups[..|groups| - 1]) + groups[|groups| - 1]
  }

  function MergeEach(groups: seq<seq<Option<RouteConfig>>>): seq<Option<RouteConfig>> {
    if groups == [] then [] else MergeEach(groups[..|groups| - 1]) + [MergeAll(groups[|groups| - 1])]
  }

  /** A merge of merges is one merge of everything, in order. */
  lemma {:induction false} NestedMergesFlatten(groups: seq<seq<Option<RouteConfig>>>)
    ensures MergeAll(MergeEach(groups)) == MergeAll(Flatten(groups))
  {
    hide Combine;
    if groups != [] {
      var n := |groups| - 1;
      NestedMergesFlatten(groups[..n]);
      MergeAllAppends(Flatten(groups[..n]), groups[n]);
      var each := MergeEach(groups);
      assert each[..|each| - 1] == MergeEach(groups[..n]) && each[|each| - 1] == MergeAll(groups[n]);
    }
  }

  // ----- what a merge of many contains

  /** The last non-empty value of a field. */
  function LastOf(cs: seq<RouteConfig>, field: RouteConfig -> string): string {
    if cs == [] then ""
    else if field(cs[|cs| - 1]) != "" then field(cs[|cs| - 1])
    else LastOf(cs[..|cs| - 1], field)
  }

  function LastEnabled(cs: seq<RouteConfig>): Option<bool> {
    if cs == [] then None
    else if cs[|cs| - 1].enabled.Some? then cs[|cs| - 1].enabled
    else LastEnabled(cs[..|cs| - 1])
  }

  /** The last positive lifetime, or else the first configuration's. */
  function LastTtl(cs: seq<RouteConfig>): int
    requires cs != []
  {
    if |cs| == 1 || cs[|cs| - 1].ttl > 0 then cs[|cs| - 1].ttl else LastTtl(cs[..|cs| - 1])
  }

  function LastMeta(cs: seq<RouteConfig>, key: string): Option<string> {
    if cs == [] then None
    else if key in cs[|cs| - 1].metadata then Some(cs[|cs| - 1].metadata[key])
    else LastMeta(cs[..|cs| - 1], key)
  }

  function AllRules(cs: seq<RouteConfig>): seq<Rule> {
    if cs == [] then [] else AllRules(cs[..|cs| - 1]) + cs[|cs| - 1].rules
  }

  /** The configurations that are there. */
  function Present(cs: seq<Option<RouteConfig>>): seq<RouteConfig> {
    if cs == [] then []
    else Present(cs[..|cs| - 1]) + if cs[|cs| - 1].Some? then [cs[|cs| - 1].value] else []
  }

  lemma {:induction false} OnlyPresentMatter(cs: seq<Option<RouteConfig>>)
    ensures MergeAll(cs).Some? <==> Present(cs) != []
    ensures Present(cs) != [] ==> MergeAll(cs).value == Fold(Present(cs))
  {
    hide Merge;
    if cs != [] {
      OnlyPresentMatter(cs[..|cs| - 1]);
      var p := Present(cs[..|cs| - 1]);
      if cs[|cs| - 1].Some? {
        var v := cs[|cs| - 1].value;
        assert Present(cs) == p + [v] && (p + [v])[..|p + [v]| - 1] == p;
      } else {
        assert Present(cs) == p;
      }
    }
  }

  function Fold(cs: seq<RouteConfig>): RouteConfig
    requires cs != []
  {
    if |cs| == 1 then cs[0] else Merge(Fold(cs[..|cs| - 1]), cs[|cs| - 1])
  }

  /** The merged configuration, field by field, in terms of the list it was merged from. */
  lemma {:induction false} MergedFields(cs: seq<RouteConfig>)
    requires cs != []
    ensures Fold(cs).upstream == LastOf(cs, (c: RouteConfig) => c.upstream)
    ensures Fold(cs).fallback == LastOf(cs, (c: RouteConfig) => c.fallback)
    ensures Fold(cs).algorithm == LastOf(cs, (c: RouteConfig) => c.algorithm)
    ensures Fold(cs).algorithmKey == LastOf(cs, (c: RouteConfig) => c.algorithmKey)
    ensures Fold(cs).description == LastOf(cs, (c: RouteConfig) => c.description)
    ensures Fold(cs).enabled == LastEnabled(cs)
    ensures Fold(cs).ttl == LastTtl(cs)
    ensures Fold(cs).rules == AllRules(cs)
    ensures Fold(cs).createdAt == cs[0].createdAt && Fold(cs).updatedAt == cs[0].updatedAt
  {
    if |cs| > 1 {
      MergedFields(cs[..|cs| - 1]);
    } else {
      assert cs[..0] == [];
      assert AllRules(cs) == cs[0].rules;
    }
  }

  lemma {:induction false} MergedVersion(cs: seq<RouteConfig>)
    requires cs != []
    ensures forall i :: 0 <= i < |cs| ==> cs[i].version <= Fold(cs).version
    ensures exists i :: 0 <= i < |cs| && cs[i].version == Fold(cs).version
  {
    if |cs| > 1 {
      MergedVersion(cs[..|cs| - 1]);
      var i :| 0 <= i < |cs| - 1 && cs[..|cs| - 1][i].version == Fold(cs[..|cs| - 1]).version;
      var last := |cs| - 1;
      assert cs[if cs[last].version > Fold(cs[..last]).version then last else i].version == Fold(cs).version;
    } else {
      assert cs[0].version == Fold(cs).version;
    }
  }

  lemma {:induction false} MergedMetadata(cs: seq<RouteConfig>, key: string)
    requires cs != []
    ensures key in Fold(cs).metadata <==> LastMeta(cs, key).Some?
    ensures key in Fold(cs).metadata ==> Fold(cs).metadata[key] == LastMeta(cs, key).value
  {
    if |cs| > 1 {
      MergedMetadata(cs[..|cs| - 1], key);
    } else {
      assert cs[..0] == [];
    }
  }
}
