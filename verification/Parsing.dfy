/** Parsing a configuration: which decoder the text goes to, and what every parsed configuration promises
    to the rule matcher. */
module Parsing {
  import opened Base
  import opened Text
  import opened Requests
  import opened Routes
  import Priorities
  import RuleMatcher

  /** The JSON and YAML libraries: None where they report an error. */
  datatype Decoders = Decoders(
    jsonString: string -> Option<string>, json: string -> Option<RouteConfig>, yaml: string -> Option<RouteConfig>)

  datatype Parse = NoConfig | Parsed(config: RouteConfig) | Invalid

  const AUTO := "auto"
  const JSON := "json"
  const YAML := "yaml"
  const SIMPLE := "simple"

  /** A configuration that consists of an upstream address only. */
  function Simple(upstream: string): RouteConfig {
    RouteConfig(0, 0, 0, upstream, [], "", "", "", map[], 0, None, "")
  }

  // ----- detecting the format

  /** The first occurrence of a piece of text, or the end. */
  function Find(s: string, piece: string, from: nat): (k: nat)
    requires from <= |s|
    ensures from <= k <= |s|
    ensures k < |s| ==> piece <= s[k..]
    ensures forall i :: from <= i < k ==> !(piece <= s[i..])
    decreases |s| - from
  {
    if from == |s| || piece <= s[from..] then from else Find(s, piece, from + 1)
  }

  predicate Contains(s: string, piece: string) {
    Find(s, piece, 0) < |s|
  }

  predicate IsPort(s: string) {
    s != "" && forall i :: 0 <= i < |s| ==> '0' <= s[i] <= '9'
  }

  /** One colon, and behind it nothing but digits, at least one, and white space around them. */
  predicate IsHostPort(s: string) {
    var k := Find(s, ":", 0);
    k < |s| && !Contains(s[k + 1..], ":")
    && IsPort(TrimSpace(s[k + 1..]))
  }

  function DetectFormat(data: string): (f: string)
    ensures f in {JSON, YAML, SIMPLE}
  {
    if data == "" then SIMPLE
    else if data[0] in {'{', '"', '['} then JSON
    else if Contains(data, "\n") then YAML
    else if Contains(data, ": ") && !Contains(data, "://") then
      var name := data[..Find(data, ":", 0)];
      if TrimSpace(name) != "" && name[0] != ' ' && name[0] != '\t' && !IsHostPort(data) then YAML else SIMPLE
    else SIMPLE
  }

  /** A single line that is not JSON by its first character and is not of the form "name: value" is an
      address; an address with a numeric port is one whatever its spacing. */
  lemma AddressIsSimple(data: string)
    requires data != "" && data[0] !in {'{', '"', '['} && !Contains(data, "\n")
    requires IsHostPort(data) || !Contains(data, ": ") || Contains(data, "://")
    ensures DetectFormat(data) == SIMPLE
  {
  }

  // ----- parsing

  /** What a structured document becomes: it must decode and name an upstream or rules. */
  ghost predicate Structured(doc: Option<RouteConfig>, r: Parse) {
    if doc.None? || (doc.value.upstream == "" && doc.value.rules == []) then r == Invalid
    else r.Parsed? && Priorities.IsNormalForm(doc.value, r.config)
  }

  /** The document that the text stands for, if it goes to a decoder. */
  ghost predicate ParsesTo(d: Decoders, data: string, format: string, r: Parse) {
    var trimmed := TrimSpace(data);
    if trimmed == "" then r == NoConfig
    else
      var f := if format == AUTO || format == "" then DetectFormat(trimmed) else format;
      if f == JSON then
        if trimmed[0] == '"' && d.jsonString(data).Some? then r == Parsed(Simple(d.jsonString(data).value))
        else Structured(d.json(data), r)
      else if f == YAML then Structured(d.yaml(data), r)
      else r == Parsed(Simple(trimmed))
  }

  method ParseRouteConfigWithFormat(d: Decoders, data: string, format: string) returns (r: Parse)
    ensures ParsesTo(d, data, format, r)
  {
    if |data| == 0 {
      return NoConfig;
    }
    var trimmed := TrimSpace(data);
    if trimmed == "" {
      return NoConfig;
    }
    var f := format;
    if f == AUTO || f == "" {
      f := DetectFormat(trimmed);
    }
    var doc: Option<RouteConfig>;
    if f == JSON {
      if trimmed[0] == '"' && d.jsonString(data).Some? {
        return Parsed(Simple(d.jsonString(data).value));
      }
      doc := d.json(data);
    } else if f == YAML {
      doc := d.yaml(data);
    } else {
      return Parsed(Simple(trimmed));
    }
    if doc.None? {
      return Invalid;
    }
    if doc.value.upstream == "" && |doc.value.rules| == 0 {
      return Invalid;
    }
    var config := Priorities.NormalizeConfig(doc.value);
    r := Parsed(config);
  }

  /** The text is a JSON string, and an empty one: the only text from which a configuration is made that
      names neither an upstream nor rules. */
  predicate EmptyJsonString(d: Decoders, data: string, format: string) {
    var trimmed := TrimSpace(data);
    && trimmed != "" && trimmed[0] == '"' && d.jsonString(data) == Some("")
    && (format == JSON || format == AUTO || format == "")
  }

  /** Every parsed configuration has its rules in order of priority and only positive weights, and it names
      an upstream or rules unless it comes from the empty JSON string. */
  lemma ParsedIsNormal(d: Decoders, data: string, format: string, r: Parse)
    requires ParsesTo(d, data, format, r) && r.Parsed?
    ensures Priorities.Ordered(r.config.rules) && Priorities.PositiveWeights(r.config.rules)
    ensures r.config.upstream == "" && r.config.rules == [] <==> EmptyJsonString(d, data, format)
  {
    hide IsHostPort, Contains, Find;
  }

  /** For every parsed configuration the match is its upstream if it has no rules, and otherwise that of a
      satisfied rule of the highest priority; there is none exactly when no rule is satisfied. */
  lemma ParsedMatchHonoursPriority(d: Decoders, data: string, format: string, config: RouteConfig,
                                   engine: RuleMatcher.Engine, r: Request, repl: Option<Replacer>)
    requires ParsesTo(d, data, format, Parsed(config)) && !EmptyJsonString(d, data, format)
    ensures var m := RuleMatcher.Match(engine, r, repl, config);
      if config.rules == [] then
        m.Some? && m.value.upstreams == [WeightedUpstream(config.upstream, 1)]
      else
        && (m.None? <==> forall i :: 0 <= i < |config.rules| ==>
              !RuleMatcher.Satisfied(engine, r, repl, config.rules[i].conditions))
        && (m.Some? ==> exists i: nat ::
              RuleMatcher.IsHighestMatch(engine, r, repl, config.rules, i)
                && m.value.upstreams == config.rules[i].upstreams)
  {
    hide ParsesTo, EmptyJsonString;
    ParsedIsNormal(d, data, format, Parsed(config));
    if config.rules != [] {
      RuleMatcher.MatchHonoursPriority(engine, r, repl, config);
    }
  }

  // ----- what decides the format

  /** A host and a port: one colon, and behind it digits, at least one, between white space. */
  ghost predicate HostPort(s: string, host: string, left: string, port: string, right: string) {
    && s == host + ":" + left + port + right
    && (forall i :: 0 <= i < |host| ==> host[i] != ':')
    && Blank(left) && Blank(right)
    && port != "" && (forall i :: 0 <= i < |port| ==> '0' <= port[i] <= '9')
  }

  /** The text has a host and a port exactly if that is so. */
  lemma HostPortIff(s: string)
    ensures IsHostPort(s) <==> exists host, left, port, right :: HostPort(s, host, left, port, right)
  {
    hide IsHostPort, HostPort;
    if IsHostPort(s) {
      HostPortParts(s);
    }
    if host, left, port, right :| HostPort(s, host, left, port, right) {
      PortIsHostPort(s, host, left, port, right);
    }
  }

  lemma HostPortParts(s: string)
    requires IsHostPort(s)
    ensures exists host, left, port, right :: HostPort(s, host, left, port, right)
  {
    var k := Find(s, ":", 0);
    ColonAt(s, k);
    SpaceAround(s[k + 1..]);
    hide TrimSpace, Blank, Find, Contains, HostPort, IsPort;
    var host, tail := s[..k], s[k + 1..];
    var left, right :| tail == left + TrimSpace(tail) + right && Blank(left) && Blank(right);
    PartsMake(s, host, tail, left, TrimSpace(tail), right);
  }

  lemma PartsMake(s: string, host: string, tail: string, left: string, port: string, right: string)
    requires s == host + ":" + tail && tail == left + port + right && IsPort(port) && Blank(left) && Blank(right)
    requires forall i :: 0 <= i < |host| ==> host[i] != ':'
    ensures HostPort(s, host, left, port, right)
  {
    hide Blank;
    Regrouped(host + ":", left, port, right);
  }

  lemma Regrouped(a: string, b: string, c: string, d: string)
    ensures a + (b + c + d) == a + b + c + d
  {
  }

  lemma ColonAt(s: string, k: nat)
    requires k == Find(s, ":", 0) < |s|
    ensures s == s[..k] + ":" + s[k + 1..] && forall i :: 0 <= i < k ==> s[..k][i] != ':'
  {
    ColonThere(s, k);
    ThreeParts(s, k, k + 1);
    assert s[k..k + 1] == ":";
  }

  lemma ColonThere(s: string, k: nat)
    requires k == Find(s, ":", 0) < |s|
    ensures s[k] == ':' && forall i :: 0 <= i < k ==> s[i] != ':'
  {
    assert s[k..][0] == s[k];
    forall i | 0 <= i < k ensures s[i] != ':' {
      assert !(":" <= s[i..]) && s[i..][0] == s[i];
    }
  }

  lemma PortIsHostPort(s: string, host: string, left: string, port: string, right: string)
    requires HostPort(s, host, left, port, right)
    ensures IsHostPort(s)
  {
    var tail := left + port + right;
    DigitsAreNotSpace(port);
    hide TrimSpace, Blank, IsSpace, Find, Contains;
    BlankHasNoColon(left);
    BlankHasNoColon(right);
    TrimBlanks(left, port, right);
    Regrouped(host + ":", left, port, right);
    FindColon(host, tail);
    NoColon(tail);
  }

  lemma DigitsAreNotSpace(port: string)
    requires IsPort(port)
    ensures !IsSpace(port[0]) && !IsSpace(port[|port| - 1]) && forall i :: 0 <= i < |port| ==> port[i] != ':'
  {
  }

  lemma FindColon(host: string, tail: string)
    requires forall i :: 0 <= i < |host| ==> host[i] != ':'
    ensures var s := host + ":" + tail; Find(s, ":", 0) == |host| < |s| && s[|host| + 1..] == tail
  {
    var s := host + ":" + tail;
    assert ":" <= s[|host|..];
    forall i | 0 <= i < |host| ensures !(":" <= s[i..]) {
      assert s[i..][0] == s[i] == host[i];
    }
  }

  lemma NoColon(s: string)
    requires forall i :: 0 <= i < |s| ==> s[i] != ':'
    ensures !Contains(s, ":")
  {
    forall i | 0 <= i < |s| ensures !(":" <= s[i..]) {
      assert s[i..][0] == s[i];
    }
  }

  lemma BlankHasNoColon(s: string)
    requires Blank(s)
    ensures forall i :: 0 <= i < |s| ==> s[i] != ':'
  {
  }

  lemma {:induction false} TrimBlanks(left: string, port: string, right: string)
    requires Blank(left) && Blank(right) && port != "" && !IsSpace(port[0]) && !IsSpace(port[|port| - 1])
    ensures TrimSpace(left + port + right) == port
    decreases |left| + |right|
  {
    var s, cutset := left + port + right, c => IsSpace(c);
    if left != "" {
      assert s[1..] == left[1..] + port + right;
      TrimBlanks(left[1..], port, right);
    } else if right != "" {
      assert s[0] == port[0];
      assert s[..|s| - 1] == left + port + right[..|right| - 1];
      TrimBlanks(left, port, right[..|right| - 1]);
    } else {
      assert s == port;
    }
  }

  ghost predicate Occurs(s: string, piece: string) {
    exists i :: 0 <= i < |s| && piece <= s[i..]
  }

  lemma OccursIff(s: string, piece: string)
    ensures Contains(s, piece) <==> Occurs(s, piece)
  {
    if i :| 0 <= i < |s| && piece <= s[i..] {
      assert Find(s, piece, 0) <= i;
    }
  }

  predicate IsMapKey(name: string) {
    !Blank(name) && name[0] != ' ' && name[0] != '\t'
  }

  /** JSON begins with a brace, a bracket or a quote. Of the rest, several lines are YAML, and so is one line with a
      colon and a space, no scheme, a name before its first colon that is not blank and does not begin with a space
      or tab, and no numeric port behind it. Everything else is an address. */
  lemma FormatIs(data: string, name: string, rest: string)
    requires data == name + ":" + rest && forall i :: 0 <= i < |name| ==> name[i] != ':'
    requires name == "" || name[0] !in {'{', '"', '['}
    ensures DetectFormat(data) == YAML <==>
      || Occurs(data, "\n")
      || (Occurs(data, ": ") && !Occurs(data, "://") && IsMapKey(name) && !IsHostPort(data))
    ensures DetectFormat(data) in {YAML, SIMPLE}
  {
    OccursIff(data, "\n");
    OccursIff(data, ": ");
    OccursIff(data, "://");
    FindColon(name, rest);
    assert data[..|name|] == name;
    hide IsHostPort, Find, Contains, Occurs, TrimSpace, Blank;
  }

  lemma FormatWithoutColon(data: string)
    requires data != "" && data[0] !in {'{', '"', '['} && forall i :: 0 <= i < |data| ==> data[i] != ':'
    ensures DetectFormat(data) == if Occurs(data, "\n") then YAML else SIMPLE
  {
    OccursIff(data, "\n");
    OccursIff(data, ": ");
    forall i | 0 <= i < |data| ensures !(": " <= data[i..]) {
      assert data[i..][0] == data[i];
    }
  }

  lemma JsonBegins(data: string)
    requires data != ""
    ensures data[0] in {'{', '"', '['} ==> DetectFormat(data) == JSON
    ensures data[0] !in {'{', '"', '['} ==> DetectFormat(data) != JSON
  {
  }

  // ----- what a parse gives

  ghost predicate Same(doc: RouteConfig, config: RouteConfig) {
    config == doc.(rules := config.rules)
  }

  /** The rule with every weight of 0 or less replaced by 1. */
  function Positive(rule: Rule): Rule {
    rule.(upstreams := seq(|rule.upstreams|, j requires 0 <= j < |rule.upstreams| =>
      if rule.upstreams[j].weight >= 1 then rule.upstreams[j] else rule.upstreams[j].(weight := 1)))
  }

  /** The rules of a normal form are those of the document with positive weights, and nothing else changes. */
  lemma NormalFormKeepsRules(doc: RouteConfig, config: RouteConfig)
    requires Priorities.IsNormalForm(doc, config)
    ensures Same(doc, config) && |config.rules| == |doc.rules|
    ensures forall rule :: rule in doc.rules ==> Positive(rule) in config.rules
    ensures forall rule' :: rule' in config.rules ==> exists rule :: rule in doc.rules && rule' == Positive(rule)
  {
    var sorted: seq<Rule> :| multiset(sorted) == multiset(doc.rules) && Priorities.Normalized(sorted, config.rules);
    assert |sorted| == |multiset(sorted)| == |doc.rules|;
    forall i | 0 <= i < |sorted| ensures config.rules[i] == Positive(sorted[i]) {
      assert Priorities.NormalUpstreams(sorted[i].upstreams) == Positive(sorted[i]).upstreams;
    }
    forall rule ensures rule in doc.rules <==> rule in sorted {
      assert rule in multiset(sorted) <==> rule in multiset(doc.rules);
    }
    forall rule | rule in doc.rules ensures Positive(rule) in config.rules {
      var i :| 0 <= i < |sorted| && sorted[i] == rule;
      assert config.rules[i] == Positive(rule);
    }
    forall rule' | rule' in config.rules ensures exists rule :: rule in doc.rules && rule' == Positive(rule) {
      var i :| 0 <= i < |sorted| && config.rules[i] == rule';
      assert sorted[i] in doc.rules && rule' == Positive(sorted[i]);
    }
  }

  /** Blank text is no configuration, and an address alone is a configuration of just that. */
  lemma PlainTextParses(d: Decoders, data: string, format: string, r: Parse)
    requires ParsesTo(d, data, format, r)
    ensures Blank(data) <==> r == NoConfig
    ensures !Blank(data) && format in {"", "auto"} && DetectFormat(TrimSpace(data)) == "simple" ==>
      r.Parsed? && r.config == RouteConfig(0, 0, 0, TrimSpace(data), [], "", "", "", map[], 0, None, "")
    ensures !Blank(data) && format !in {"", "auto", "json", "yaml"} ==>
      r.Parsed? && r.config == RouteConfig(0, 0, 0, TrimSpace(data), [], "", "", "", map[], 0, None, "")
  {
    hide DetectFormat, IsHostPort;
  }

  /** JSON goes to the JSON decoder and YAML to the YAML decoder; a document that does not decode, or names neither an
      upstream nor rules, is an error, and another one is brought into normal form. */
  lemma DocumentParses(d: Decoders, data: string, format: string, r: Parse)
    requires ParsesTo(d, data, format, r) && !Blank(data)
    ensures var trimmed := TrimSpace(data);
      var auto := format in {"", "auto"};
      var json := format == "json" || (auto && DetectFormat(trimmed) == "json");
      var yaml := format == "yaml" || (auto && DetectFormat(trimmed) == "yaml");
      && (json && trimmed[0] == '"' && d.jsonString(data).Some? ==>
            r.Parsed? && r.config == RouteConfig(0, 0, 0, d.jsonString(data).value, [], "", "", "", map[], 0, None, ""))
      && (json && !(trimmed[0] == '"' && d.jsonString(data).Some?) ==> Structured(d.json(data), r))
      && (yaml ==> Structured(d.yaml(data), r))
  {
    hide DetectFormat, IsHostPort, Structured;
  }

  lemma StructuredIs(doc: Option<RouteConfig>, r: Parse)
    requires Structured(doc, r)
    ensures r == Invalid <==> doc.None? || (doc.value.upstream == "" && doc.value.rules == [])
    ensures r != Invalid ==> r.Parsed? && Priorities.IsNormalForm(doc.value, r.config)
  {
  }
}
