/** Key expressions: expanding shortcut placeholders, splitting an expression into literals and
    placeholders, and extracting a key from a request. */
module Extractor {
  import opened Base
  import opened Requests
  import opened Text
  import opened Rewriting

  const SHORTCUTS: map<string, string> := map[
    "{header." := "{http.request.header.",
    "{cookie." := "{http.request.cookie.",
    "{query." := "{http.request.uri.query.",
    "{path." := "{http.request.uri.path.",
    "{path}" := "{http.request.uri.path}",
    "{host}" := "{http.request.host}",
    "{method}" := "{http.request.method}",
    "{remote}" := "{http.request.remote}",
    "{scheme}" := "{http.request.scheme}"
  ]

  // ----- expanding shortcuts

  lemma ShortcutIsToken(p: string)
    requires p in SHORTCUTS
    ensures IsToken(p) && |p| >= 6 && p[2] != 't'
  {
  }

  lemma ExpansionIsPlaceholder(p: string)
    requires p in SHORTCUTS
    ensures IsToken(SHORTCUTS[p]) && |SHORTCUTS[p]| > 2 && SHORTCUTS[p][2] == 't'
  {
  }

  lemma ShortcutsDiffer(p: string, q: string)
    requires p in SHORTCUTS && q in SHORTCUTS && |p| >= 6 && |q| >= 6
    requires p[1] == q[1] && p[2] == q[2] && p[5] == q[5]
    ensures p == q
  {
  }

  lemma ShortcutsAreTokens()
    ensures Tokens(SHORTCUTS.Keys)
  {
    hide SHORTCUTS;
    forall p | p in SHORTCUTS ensures IsToken(p) {
      ShortcutIsToken(p);
    }
    forall p, q | p in SHORTCUTS && q in SHORTCUTS && p <= q ensures p == q {
      ShortcutIsToken(p);
      ShortcutIsToken(q);
      ShortcutsDiffer(p, q);
    }
  }

  ghost function ShortcutRules(): (r: Rules)
    ensures r == SHORTCUTS
  {
    ShortcutsAreTokens();
    SHORTCUTS
  }

  /** No shortcut begins inside an expansion. */
  lemma ExpansionsInert(p: string, q: string)
    requires p in SHORTCUTS && q in SHORTCUTS
    ensures Inert(SHORTCUTS[p], q)
  {
    hide SHORTCUTS;
    var t := SHORTCUTS[p];
    ExpansionIsPlaceholder(p);
    ShortcutIsToken(q);
    forall m, i | 0 <= i < |t| ensures !(q <= (t + m)[i..]) {
      assert (t + m)[i..][0] == t[i];
      assert i == 0 && |q| <= |t + m| ==> (t + m)[i..][2] == t[2];
    }
  }

  /** Text without an opening brace that the result begins with was there before. */
  lemma {:induction false} PlainTextWasThere(ts: set<string>, t: string, s: string)
    requires ts <= SHORTCUTS.Keys && forall i :: 0 <= i < |t| ==> t[i] != '{'
    requires t <= OnePass(ShortcutRules(), ts, s)
    ensures t <= s
    decreases |s|
  {
    hide SHORTCUTS;
    if t != "" {
      var r := OnePass(ShortcutRules(), ts, s);
      assert r[0] == t[0];
      if Starts(ts, s) {
        ExpansionIsPlaceholder(TokenAt(ts, s));
      }
      assert t[1..] <= r[1..] == OnePass(ShortcutRules(), ts, s[1..]);
      PlainTextWasThere(ts, t[1..], s[1..]);
      assert t == [t[0]] + t[1..] && s == [s[0]] + s[1..];
    }
  }

  lemma ShortcutsIndependent(s: string)
    ensures Independent(ShortcutRules(), s)
  {
    hide SHORTCUTS;
    forall p, q, i | p in SHORTCUTS && q in SHORTCUTS && 0 <= i <= |s| && p <= s[i..] ensures Inert(SHORTCUTS[p], q) {
      ExpansionsInert(p, q);
    }
    forall ts: set<string>, q, i | ts <= SHORTCUTS.Keys && q in SHORTCUTS && 0 <= i <= |s|
      ensures NothingForms(ShortcutRules(), ts, q, s[i..])
    {
      var u := s[i..];
      ShortcutIsToken(q);
      if u != "" && u[0] == '{' && q <= [u[0]] + OnePass(ShortcutRules(), ts, u[1..]) {
        assert q[1..] <= ([u[0]] + OnePass(ShortcutRules(), ts, u[1..]))[1..] == OnePass(ShortcutRules(), ts, u[1..]);
        PlainTextWasThere(ts, q[1..], u[1..]);
        assert q == ['{'] + q[1..] && u == ['{'] + u[1..];
      }
    }
  }

  /** The expansion of an expression: one pass from left to right. */
  ghost function Expanded(expr: string): string {
    OnePass(ShortcutRules(), SHORTCUTS.Keys, expr)
  }

  /** Whatever order the map of shortcuts is walked in, the result is that of one pass. */
  method ExpandShortcuts(expr: string) returns (result: string)
    ensures result == Expanded(expr)
  {
    hide SHORTCUTS;
    result := expr;
    ghost var order: seq<string> := [];
    var pending := SHORTCUTS.Keys;
    ShortcutsAreTokens();
    while pending != {}
      invariant pending <= SHORTCUTS.Keys && ToSet(order) == SHORTCUTS.Keys - pending
      invariant forall i :: 0 <= i < |order| ==> order[i] in SHORTCUTS
      invariant result == InOrder(ShortcutRules(), order, expr)
    {
      var shortcut :| shortcut in pending;
      pending := pending - {shortcut};
      InOrderAppend(ShortcutRules(), order, shortcut, expr);
      result := ReplaceAll(result, shortcut, SHORTCUTS[shortcut]);
      assert (order + [shortcut])[..|order|] == order;
      order := order + [shortcut];
    }
    ShortcutsIndependent(expr);
    InOrderIsOnePass(ShortcutRules(), order, expr);
    assert ToSet(order) == SHORTCUTS.Keys;
  }

  /** Expanding twice is expanding once. */
  lemma ExpansionIsIdempotent(expr: string)
    ensures Expanded(Expanded(expr)) == Expanded(expr)
  {
    hide SHORTCUTS, OnePass;
    var order := SomeOrder(SHORTCUTS.Keys);
    ShortcutsIndependent(expr);
    ShortcutsIndependent(Expanded(expr));
    AgainChangesNothing(ShortcutRules(), order, expr);
    InOrderIsOnePass(ShortcutRules(), order, Expanded(expr));
  }

  // ----- splitting an expression

  datatype Part = Literal(value: string) | Placeholder(value: string)

  /** The first closing brace at or after i, or the end. */
  function Closing(s: string, i: nat): (k: nat)
    requires i <= |s|
    ensures i <= k <= |s| && (k < |s| ==> s[k] == '}')
    ensures forall j :: i <= j < k ==> s[j] != '}'
    decreases |s| - i
  {
    if i == |s| || s[i] == '}' then i else Closing(s, i + 1)
  }

  /** Text that the pattern matches as a whole. */
  predicate IsPlaceholder(t: string) {
    |t| >= 3 && t[0] == '{' && t[|t| - 1] == '}' && forall j :: 1 <= j < |t| - 1 ==> t[j] != '}'
  }

  /** Where a placeholder that begins at i ends: an opening brace, at least one other character, and the
      first closing brace. */
  function PlaceholderEnd(s: string, i: nat): (end: Option<nat>)
    requires i < |s|
    ensures end.Some? ==> i + 3 <= end.value <= |s|
  {
    if s[i] != '{' then None
    else
      var k := Closing(s, i + 1);
      if k < |s| && k > i + 1 then Some(k + 1) else None
  }

  /** The pattern matches the text from i to k as a whole. */
  predicate PlaceholderAt(s: string, i: int, k: int) {
    0 <= i < k <= |s| && IsPlaceholder(s[i..k])
  }

  /** The pattern matches from i to k if and only if that is where the placeholder is taken to end. */
  lemma PlaceholderEndIs(s: string, i: nat, k: nat)
    requires i < |s|
    ensures PlaceholderAt(s, i, k) <==> PlaceholderEnd(s, i) == Some(k)
  {
    if i < k <= |s| {
      var t, c := s[i..k], Closing(s, i + 1);
      assert forall m :: 0 <= m < |t| ==> t[m] == s[i + m];
      if IsPlaceholder(t) {
        assert c < k ==> t[c - i] == '}';
        assert c == k - 1;
      }
    }
  }

  /** The leftmost position at or after `start` where a placeholder begins, or the end. */
  function NextPlaceholder(s: string, start: nat): (k: nat)
    requires start <= |s|
    ensures start <= k <= |s| && (k < |s| ==> PlaceholderEnd(s, k).Some?)
    ensures forall j :: start <= j < k ==> PlaceholderEnd(s, j).None?
    decreases |s| - start
  {
    if start == |s| || PlaceholderEnd(s, start).Some? then start else NextPlaceholder(s, start + 1)
  }

  /** The matches of the placeholder pattern, leftmost first and not overlapping. */
  function FindAll(s: string, start: nat): (ms: seq<(nat, nat)>)
    requires start <= |s|
    decreases |s| - start
  {
    var k := NextPlaceholder(s, start);
    if k == |s| then [] else [(k, PlaceholderEnd(s, k).value)] + FindAll(s, PlaceholderEnd(s, k).value)
  }

  /** parts is what the text splits into from position pos on: every part is non-empty and lies where the
      previous one ends, a placeholder is one, no placeholder begins inside a literal, and two literals
      never meet. */
  ghost predicate Splits(s: string, pos: nat, parts: seq<Part>)
    decreases |parts|
  {
    if parts == [] then pos == |s|
    else
      var v := parts[0].value;
      && v != "" && pos + |v| <= |s| && v == s[pos..pos + |v|]
      && (parts[0].Placeholder? ==> PlaceholderEnd(s, pos) == Some(pos + |v|))
      && (parts[0].Literal? ==> forall j :: pos <= j < pos + |v| ==> PlaceholderEnd(s, j).None?)
      && (parts[0].Literal? && |parts| > 1 ==> parts[1].Placeholder?)
      && Splits(s, pos + |v|, parts[1..])
  }

  function Join(parts: seq<Part>): string {
    if parts == [] then "" else parts[0].value + Join(parts[1..])
  }

  /** The parts of a split, put together, are the text. */
  lemma {:induction false} SplitJoins(s: string, pos: nat, parts: seq<Part>)
    requires pos <= |s| && Splits(s, pos, parts)
    ensures Join(parts) == s[pos..]
    decreases |parts|
  {
    if parts != [] {
      SplitJoins(s, pos + |parts[0].value|, parts[1..]);
    }
  }

  /** There is only one split. */
  lemma {:induction false} SplitIsUnique(s: string, pos: nat, a: seq<Part>, b: seq<Part>)
    requires pos <= |s| && Splits(s, pos, a) && Splits(s, pos, b)
    ensures a == b
    decreases |a|
  {
    if a != [] && b != [] {
      SameFirstPart(s, pos, a, b);
      SplitIsUnique(s, pos + |a[0].value|, a[1..], b[1..]);
    }
  }

  lemma SameFirstPart(s: string, pos: nat, a: seq<Part>, b: seq<Part>)
    requires pos <= |s| && Splits(s, pos, a) && Splits(s, pos, b) && a != [] && b != []
    ensures a[0] == b[0]
  {
    if a[0].Literal? && b[0].Literal? {
      AfterLiteral(s, pos, a);
      AfterLiteral(s, pos, b);
    }
  }

  /** A literal reaches to the next placeholder or to the end. */
  lemma AfterLiteral(s: string, pos: nat, parts: seq<Part>)
    requires pos <= |s| && Splits(s, pos, parts) && parts != [] && parts[0].Literal?
    ensures var m := pos + |parts[0].value|; m <= |s| && (m == |s| || PlaceholderEnd(s, m).Some?)
  {
    assert Splits(s, pos + |parts[0].value|, parts[1..]);
  }

  /** The split computed from left to right. */
  function PartsFrom(s: string, pos: nat): seq<Part>
    requires pos <= |s|
    decreases |s| - pos
  {
    var k := NextPlaceholder(s, pos);
    var literal := if k > pos then [Literal(s[pos..k])] else [];
    if k == |s| then literal
    else
      var end := PlaceholderEnd(s, k).value;
      literal + [Placeholder(s[k..end])] + PartsFrom(s, end)
  }

  lemma SplitsPrepend(s: string, pos: nat, p: Part, rest: seq<Part>)
    requires p.value != "" && pos + |p.value| <= |s| && p.value == s[pos..pos + |p.value|]
    requires p.Placeholder? ==> PlaceholderEnd(s, pos) == Some(pos + |p.value|)
    requires p.Literal? ==> forall j :: pos <= j < pos + |p.value| ==> PlaceholderEnd(s, j).None?
    requires p.Literal? && rest != [] ==> rest[0].Placeholder?
    requires Splits(s, pos + |p.value|, rest)
    ensures Splits(s, pos, [p] + rest)
  {
    assert ([p] + rest)[1..] == rest;
  }

  lemma {:induction false} PartsFromSplits(s: string, pos: nat)
    requires pos <= |s|
    ensures Splits(s, pos, PartsFrom(s, pos))
    decreases |s| - pos
  {
    hide Splits, PlaceholderEnd, NextPlaceholder;
    var k := NextPlaceholder(s, pos);
    var rest := [];
    if k < |s| {
      var end := PlaceholderEnd(s, k).value;
      PartsFromSplits(s, end);
      SplitsPrepend(s, k, Placeholder(s[k..end]), PartsFrom(s, end));
      rest := [Placeholder(s[k..end])] + PartsFrom(s, end);
    } else {
      NothingLeft(s);
    }
    if k > pos {
      SplitsPrepend(s, pos, Literal(s[pos..k]), rest);
      assert PartsFrom(s, pos) == [Literal(s[pos..k])] + rest;
    } else {
      assert PartsFrom(s, pos) == rest;
    }
  }

  lemma NothingLeft(s: string)
    ensures Splits(s, |s|, [])
  {
  }

  function LiteralBefore(s: string, pos: nat, k: nat): seq<Part>
    requires pos <= k <= |s|
  {
    if k > pos then [Literal(s[pos..k])] else []
  }

  lemma FindAllStep(s: string, pos: nat)
    requires pos <= |s|
    ensures var ms := FindAll(s, pos);
      if ms == [] then PartsFrom(s, pos) == LiteralBefore(s, pos, |s|)
      else
        && pos <= ms[0].0 < ms[0].1 <= |s| && ms[1..] == FindAll(s, ms[0].1)
        && PartsFrom(s, pos) == LiteralBefore(s, pos, ms[0].0)
          + [Placeholder(s[ms[0].0..ms[0].1])] + PartsFrom(s, ms[0].1)
  {
  }

  method ParseExpression(expr: string) returns (parts: seq<Part>)
    ensures Splits(expr, 0, parts)
  {
    hide PartsFrom, FindAll, Splits;
    var lastEnd: nat := 0;
    var matches := FindAll(expr, 0);
    parts := [];
    for i := 0 to |matches|
      invariant lastEnd <= |expr| && FindAll(expr, lastEnd) == matches[i..]
      invariant parts + PartsFrom(expr, lastEnd) == PartsFrom(expr, 0)
    {
      var m := matches[i];
      FindAllStep(expr, lastEnd);
      ghost var rest := [Placeholder(expr[m.0..m.1])] + PartsFrom(expr, m.1);
      assert parts + PartsFrom(expr, lastEnd) == parts + LiteralBefore(expr, lastEnd, m.0) + rest;
      if m.0 > lastEnd {
        parts := parts + [Literal(expr[lastEnd..m.0])];
      }
      parts := parts + [Placeholder(expr[m.0..m.1])];
      lastEnd := m.1;
    }
    FindAllStep(expr, lastEnd);
    assert expr[lastEnd..] == expr[lastEnd..|expr|] && matches[|matches|..] == [];
    if lastEnd < |expr| {
      parts := parts + [Literal(expr[lastEnd..])];
    }
    assert parts == PartsFrom(expr, 0);
    PartsFromSplits(expr, 0);
  }

  // ----- extracting a key

  datatype PlaceholderExtractor = PlaceholderExtractor(expression: string, parts: seq<Part>)

  /** What a part contributes to the key; None if its placeholder is undefined or empty. */
  function Resolve(part: Part, repl: Replacer): Option<string> {
    if part.Literal? then Some(part.value)
    else match repl(TrimBraces(part.value))
      case Some(v) => if v == "" then None else Some(v)
      case None => None
  }

  function Concatenated(parts: seq<Part>, repl: Replacer): string {
    if parts == [] then ""
    else
      var last := Resolve(parts[|parts| - 1], repl);
      Concatenated(parts[..|parts| - 1], repl) + if last.Some? then last.value else ""
  }

  method NewFromExpression(expr: string) returns (e: Option<PlaceholderExtractor>)
    ensures e.None? <==> expr == ""
    ensures e.Some? ==> e.value.expression == Expanded(expr) && Splits(Expanded(expr), 0, e.value.parts)
  {
    if expr == "" {
      return None;
    }
    var expanded := ExpandShortcuts(expr);
    var parts := ParseExpression(expanded);
    e := Some(PlaceholderExtractor(expanded, parts));
  }

  /** The key is every part resolved, in order, or nothing if any placeholder is missing or empty. */
  function Key(e: PlaceholderExtractor, repl: Option<Replacer>): string {
    if repl.None? || !(forall i :: 0 <= i < |e.parts| ==> Resolve(e.parts[i], repl.value).Some?) then ""
    else Concatenated(e.parts, repl.value)
  }

  lemma ConcatenatedLast(parts: seq<Part>, last: Part, repl: Replacer)
    ensures Concatenated([], repl) == ""
    ensures Concatenated(parts + [last], repl) ==
      Concatenated(parts, repl) + if Resolve(last, repl).Some? then Resolve(last, repl).value else ""
  {
    hide Resolve;
    assert (parts + [last])[..|parts|] == parts;
  }

  method Extract(e: PlaceholderExtractor, repl: Option<Replacer>) returns (key: string)
    ensures key == Key(e, repl)
  {
    hide Concatenated, TrimBraces;
    if repl.None? || |e.parts| == 0 {
      NoParts(e, repl);
      return "";
    }
    var result := "";
    ConcatenatedLast([], Literal(""), repl.value);
    for i := 0 to |e.parts|
      invariant result == Concatenated(e.parts[..i], repl.value)
      invariant forall j :: 0 <= j < i ==> Resolve(e.parts[j], repl.value).Some?
    {
      assert e.parts[..i + 1] == e.parts[..i] + [e.parts[i]];
      ConcatenatedLast(e.parts[..i], e.parts[i], repl.value);
      var part := e.parts[i];
      if part.Placeholder? {
        var val := repl.value(TrimBraces(part.value));
        if val.None? || val.value == "" {
          return "";
        }
        result := result + val.value;
      } else {
        result := result + part.value;
      }
    }
    assert e.parts[..|e.parts|] == e.parts;
    key := result;
  }

  lemma NoParts(e: PlaceholderExtractor, repl: Option<Replacer>)
    requires repl.None? || e.parts == []
    ensures Key(e, repl) == ""
  {
  }

  /** For an extractor made from an expression, no key means that a placeholder is missing or empty: what
      resolves is never empty. */
  lemma NoKeyIffUnresolved(e: PlaceholderExtractor, repl: Replacer)
    requires e.expression != "" && Splits(e.expression, 0, e.parts)
    ensures Key(e, Some(repl)) == "" <==> exists i :: 0 <= i < |e.parts| && Resolve(e.parts[i], repl).None?
  {
    if forall i :: 0 <= i < |e.parts| ==> Resolve(e.parts[i], repl).Some? {
      PartsNonEmpty(e.expression, 0, e.parts);
      ConcatenationNonEmpty(e.parts, repl);
    }
  }

  lemma {:induction false} PartsNonEmpty(s: string, pos: nat, parts: seq<Part>)
    requires Splits(s, pos, parts)
    ensures forall i :: 0 <= i < |parts| ==> parts[i].value != ""
    decreases |parts|
  {
    if parts != [] {
      PartsNonEmpty(s, pos + |parts[0].value|, parts[1..]);
      assert parts == [parts[0]] + parts[1..];
    }
  }

  lemma ConcatenationNonEmpty(parts: seq<Part>, repl: Replacer)
    requires parts != [] && parts[|parts| - 1].value != "" && Resolve(parts[|parts| - 1], repl).Some?
    ensures Concatenated(parts, repl) != ""
  {
  }

  // ----- what a key is

  lemma {:induction false} ConcatenatedAppend(a: seq<Part>, b: seq<Part>, repl: Replacer)
    ensures Concatenated(a + b, repl) == Concatenated(a, repl) + Concatenated(b, repl)
  {
    hide Resolve, Concatenated;
    if b == [] {
      assert a + b == a;
      ConcatenatedLast(a, Literal(""), repl);
    } else {
      var n := |b| - 1;
      assert a + b == (a + b[..n]) + [b[n]] && b == b[..n] + [b[n]];
      ConcatenatedAppend(a, b[..n], repl);
      ConcatenatedLast(a + b[..n], b[n], repl);
      ConcatenatedLast(b[..n], b[n], repl);
    }
  }

  ghost predicate AllResolve(parts: seq<Part>, repl: Replacer) {
    forall i :: 0 <= i < |parts| ==> Resolve(parts[i], repl).Some?
  }

  /** The key of an extractor with these parts. */
  function KeyOf(parts: seq<Part>, repl: Replacer): string {
    Key(PlaceholderExtractor("", parts), Some(repl))
  }

  /** The key of one part after the other is the key of the one followed by that of the other. */
  lemma KeyAppends(a: seq<Part>, b: seq<Part>, repl: Replacer)
    requires AllResolve(a, repl) && AllResolve(b, repl)
    ensures KeyOf(a + b, repl) == KeyOf(a, repl) + KeyOf(b, repl)
  {
    ConcatenatedAppend(a, b, repl);
    assert AllResolve(a + b, repl);
  }

  lemma KeyOfPart(part: Part, repl: Replacer)
    ensures KeyOf([part], repl) == if Resolve(part, repl).Some? then Resolve(part, repl).value else ""
  {
    hide Resolve;
    assert [part][..0] == [];
    assert Concatenated([part][..0], repl) == "";
  }

  /** One literal's key is its text; one placeholder's is the value of the name inside its braces, or nothing if
      that is not defined or empty. */
  lemma KeyOfOne(text: string, name: string, repl: Replacer)
    requires name != "" && !IsBrace(name[0]) && !IsBrace(name[|name| - 1])
    ensures KeyOf([Literal(text)], repl) == text
    ensures KeyOf([Placeholder("{" + name + "}")], repl) == if repl(name).Some? then repl(name).value else ""
  {
    hide TrimBraces, KeyOf;
    KeyOfPart(Literal(text), repl);
    KeyOfPart(Placeholder("{" + name + "}"), repl);
    PlaceholderName(name);
  }

  lemma {:induction false} ConcatenatedIsJoin(parts: seq<Part>, repl: Replacer)
    requires forall i :: 0 <= i < |parts| ==> Resolve(parts[i], repl) == Some(parts[i].value)
    ensures Concatenated(parts, repl) == Join(parts)
  {
    if parts != [] {
      assert parts == [parts[0]] + parts[1..] && [parts[0]][..0] == [];
      ConcatenatedAppend([parts[0]], parts[1..], repl);
      ConcatenatedIsJoin(parts[1..], repl);
    }
  }

  /** Where every placeholder resolves to its own text the key is the expression itself. */
  lemma KeyReadsBack(e: PlaceholderExtractor, repl: Replacer)
    requires Splits(e.expression, 0, e.parts)
    requires forall i :: 0 <= i < |e.parts| ==> Resolve(e.parts[i], repl) == Some(e.parts[i].value)
    ensures Key(e, Some(repl)) == e.expression
  {
    hide Splits, Resolve;
    ConcatenatedIsJoin(e.parts, repl);
    SplitJoins(e.expression, 0, e.parts);
    assert e.expression[0..] == e.expression;
  }

  // ----- what shortcuts stand for

  lemma ExpandedOfShortcut(p: string, rest: string)
    requires p in SHORTCUTS
    ensures Expanded(p + rest) == SHORTCUTS[p] + Expanded(rest)
  {
    hide SHORTCUTS;
    var s := p + rest;
    ShortcutsAreTokens();
    assert p <= s && s[|p|..] == rest;
    TokenUnique(SHORTCUTS.Keys, s, p, TokenAt(SHORTCUTS.Keys, s));
    ShortcutIsToken(p);
  }

  lemma {:induction false} ExpandedOfPlain(s: string)
    requires forall i :: 0 <= i < |s| ==> s[i] != '{'
    ensures Expanded(s) == s
  {
    hide SHORTCUTS;
    if s != "" {
      ShortcutsAreTokens();
      assert !Starts(SHORTCUTS.Keys, s);
      ExpandedOfPlain(s[1..]);
    }
  }

  /** Each shortcut's full form, whatever plain text follows. */
  lemma ShortcutsStandFor(rest: string)
    requires forall i :: 0 <= i < |rest| ==> rest[i] != '{'
    ensures Expanded("{header." + rest) == "{http.request.header." + rest
    ensures Expanded("{cookie." + rest) == "{http.request.cookie." + rest
    ensures Expanded("{query." + rest) == "{http.request.uri.query." + rest
    ensures Expanded("{path." + rest) == "{http.request.uri.path." + rest
    ensures Expanded("{path}" + rest) == "{http.request.uri.path}" + rest
    ensures Expanded("{host}" + rest) == "{http.request.host}" + rest
    ensures Expanded("{method}" + rest) == "{http.request.method}" + rest
    ensures Expanded("{remote}" + rest) == "{http.request.remote}" + rest
    ensures Expanded("{scheme}" + rest) == "{http.request.scheme}" + rest
  {
    hide OnePass, Expanded;
    ExpandedOfPlain(rest);
    forall p | p in SHORTCUTS ensures Expanded(p + rest) == SHORTCUTS[p] + rest {
      ExpandedOfShortcut(p, rest);
    }
    Meanings();
  }

  lemma Meanings()
    ensures "{header." in SHORTCUTS && SHORTCUTS["{header."] == "{http.request.header."
    ensures "{cookie." in SHORTCUTS && SHORTCUTS["{cookie."] == "{http.request.cookie."
    ensures "{query." in SHORTCUTS && SHORTCUTS["{query."] == "{http.request.uri.query."
    ensures "{path." in SHORTCUTS && SHORTCUTS["{path."] == "{http.request.uri.path."
    ensures "{path}" in SHORTCUTS && SHORTCUTS["{path}"] == "{http.request.uri.path}"
    ensures "{host}" in SHORTCUTS && SHORTCUTS["{host}"] == "{http.request.host}"
    ensures "{method}" in SHORTCUTS && SHORTCUTS["{method}"] == "{http.request.method}"
    ensures "{remote}" in SHORTCUTS && SHORTCUTS["{remote}"] == "{http.request.remote}"
    ensures "{scheme}" in SHORTCUTS && SHORTCUTS["{scheme}"] == "{http.request.scheme}"
  {
  }
}
