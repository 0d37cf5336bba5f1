/** Key templates whose placeholders may nest, with values free of braces: exactly which orders of replacement
    render the template, and that all of those render the same key. */
module Nesting {
  import opened Base
  import opened Text
  import opened Rewriting
  import opened KeyTemplate

  /** Variables whose names and values are free of braces. */
  type PlainVars = v: map<string, string> | forall k :: k in v ==> BraceFree(k) && BraceFree(v[k])

  // ----- reading a template from left to right, innermost groups first

  /** The text of an open group so far, and the names of the groups closed directly inside it. */
  datatype Frame = Frame(text: string, inner: set<string>)

  /** Open groups, outermost first; the names of all groups closed; which closed directly inside which; and
      whether every closing brace so far closed a group that names a variable. */
  datatype Reading = Reading(frames: seq<Frame>, names: set<string>, within: set<(string, string)>, ok: bool) {
    predicate Valid() {
      frames != []
    }

    function Top(): Frame
      requires Valid()
    {
      frames[|frames| - 1]
    }

    /** Text, and the names of groups, added to the innermost open group. */
    function Extended(text: string, inner: set<string>): (r: Reading)
      requires Valid()
      ensures r.Valid()
    {
      this.(frames := frames[..|frames| - 1] + [Frame(Top().text + text, Top().inner + inner)])
    }

    /** Every brace belongs to a group that names a variable. */
    predicate Complete() {
      ok && |frames| == 1
    }
  }

  const START := Reading([Frame("", {})], {}, {}, true)

  function Close(vars: map<string, string>, st: Reading): (r: Reading)
    requires st.Valid()
    ensures r.Valid()
  {
    var n, top := |st.frames| - 1, st.Top();
    if n == 0 || top.text !in vars then st.(ok := false)
    else
      Reading(st.frames[..n], st.names + {top.text}, st.within + (set v | v in top.inner :: (v, top.text)), true)
        .Extended(vars[top.text], {top.text})
  }

  function ReadChar(vars: map<string, string>, st: Reading, c: char): (r: Reading)
    requires st.Valid()
    ensures r.Valid()
  {
    if !st.ok then st
    else if c == '{' then st.(frames := st.frames + [Frame("", {})])
    else if c == '}' then Close(vars, st)
    else st.Extended([c], {})
  }

  function Read(vars: map<string, string>, st: Reading, s: string): (r: Reading)
    requires st.Valid()
    ensures r.Valid()
    decreases |s|
  {
    if s == "" then st else Read(vars, ReadChar(vars, st, s[0]), s[1..])
  }

  lemma {:induction false} ReadAppend(vars: map<string, string>, st: Reading, a: string, b: string)
    requires st.Valid()
    ensures Read(vars, st, a + b) == Read(vars, Read(vars, st, a), b)
    decreases |a|
  {
    hide ReadChar;
    if a == "" {
      assert a + b == b;
    } else {
      assert (a + b)[0] == a[0] && (a + b)[1..] == a[1..] + b;
      ReadAppend(vars, ReadChar(vars, st, a[0]), a[1..], b);
    }
  }

  lemma {:induction false} ReadPlain(vars: map<string, string>, st: Reading, s: string)
    requires st.Valid() && st.ok && BraceFree(s)
    ensures Read(vars, st, s) == st.Extended(s, {})
    decreases |s|
  {
    if s == "" {
      assert st.Top().text + "" == st.Top().text && st.Top().inner + {} == st.Top().inner;
      assert st.frames[..|st.frames| - 1] + [st.Top()] == st.frames;
    } else {
      var t := st.Extended([s[0]], {});
      assert ReadChar(vars, st, s[0]) == t by {
        assert !IsBrace(s[0]);
      }
      ReadPlain(vars, t, s[1..]);
      assert st.Top().text + [s[0]] + s[1..] == st.Top().text + s by {
        assert [s[0]] + s[1..] == s;
      }
      assert t.frames[..|t.frames| - 1] == st.frames[..|st.frames| - 1];
    }
  }

  lemma {:induction false} ReadBroken(vars: map<string, string>, st: Reading, s: string)
    requires st.Valid() && !st.ok
    ensures Read(vars, st, s) == st
    decreases |s|
  {
    if s != "" {
      ReadBroken(vars, st, s[1..]);
    }
  }

  /** A flat placeholder reads as its value, and leaves its name. */
  lemma ReadToken(vars: PlainVars, st: Reading, u: string)
    requires st.Valid() && st.ok && u in vars
    ensures Read(vars, st, Token(u)) == st.(names := st.names + {u}).Extended(vars[u], {u})
  {
    hide Read, ReadChar;
    var open := st.(frames := st.frames + [Frame("", {})]);
    var filled := open.Extended(u, {});
    OneChar(vars, st, '{');
    ReadPlain(vars, open, u);
    OneChar(vars, filled, '}');
    ReadAppend(vars, st, "{", u + "}");
    ReadAppend(vars, open, u, "}");
    assert Token(u) == "{" + (u + "}");
    assert "" + u == u && filled.Top() == Frame(u, {});
    assert filled.frames[..|filled.frames| - 1] == st.frames;
    assert ReadChar(vars, filled, '}') == Close(vars, filled) by {
      Closing(vars, filled);
    }
    assert ReadChar(vars, st, '{') == open by {
      Opening(vars, st);
    }
    assert filled.within + (set v | v in filled.Top().inner :: (v, u)) == st.within;
  }

  lemma OneChar(vars: map<string, string>, st: Reading, c: char)
    requires st.Valid()
    ensures Read(vars, st, [c]) == ReadChar(vars, st, c)
  {
    assert [c][1..] == "";
    assert Read(vars, ReadChar(vars, st, c), "") == ReadChar(vars, st, c);
  }

  lemma Opening(vars: map<string, string>, st: Reading)
    requires st.Valid() && st.ok
    ensures ReadChar(vars, st, '{') == st.(frames := st.frames + [Frame("", {})])
  {
  }

  lemma Closing(vars: map<string, string>, st: Reading)
    requires st.Valid() && st.ok
    ensures ReadChar(vars, st, '}') == Close(vars, st)
  {
  }

  // ----- replacing one name while reading

  /** The second reading is of the text in which the flat groups of u have become its value. */
  ghost predicate FrameLess(u: string, f: Frame, g: Frame) {
    f.text == g.text && f.inner - {u} <= g.inner <= f.inner
  }

  ghost predicate Less(u: string, st: Reading, st': Reading) {
    && st.ok == st'.ok
    && (st.ok ==>
          && |st.frames| == |st'.frames|
          && (forall i :: 0 <= i < |st.frames| ==> FrameLess(u, st.frames[i], st'.frames[i]))
          && st.names - {u} <= st'.names <= st.names
          && (forall e :: e in st.within && e.0 != u ==> e in st'.within)
          && st'.within <= st.within
          && (u in st'.names <==> exists e :: e in st.within && e.1 == u))
  }

  /** Groups closed inside open ones, and inside closed ones, have been closed. */
  ghost predicate Sound(st: Reading) {
    && (forall i :: 0 <= i < |st.frames| ==> st.frames[i].inner <= st.names)
    && (forall e :: e in st.within ==> e.0 in st.names && e.1 in st.names)
  }

  /** The innermost open group, if nothing was closed inside it, will not turn out to be a flat group of u. */
  ghost predicate NotFlat(u: string, st: Reading, s: string)
    requires st.Valid()
  {
    st.ok && |st.frames| > 1 && st.Top().inner == {} && st.Top().text <= u ==> !(u[|st.Top().text|..] + "}" <= s)
  }

  lemma SoundStep(vars: map<string, string>, st: Reading, c: char)
    requires st.Valid() && Sound(st)
    ensures Sound(ReadChar(vars, st, c))
  {
  }

  lemma LessOpen(u: string, st: Reading, st': Reading)
    requires st.Valid() && st'.Valid() && st.ok && Less(u, st, st')
    ensures Less(u, st.(frames := st.frames + [Frame("", {})]), st'.(frames := st'.frames + [Frame("", {})]))
  {
  }

  lemma LessText(u: string, st: Reading, st': Reading, text: string)
    requires st.Valid() && st'.Valid() && st.ok && Less(u, st, st')
    ensures Less(u, st.Extended(text, {}), st'.Extended(text, {}))
  {
  }

  lemma LessClose(vars: map<string, string>, u: string, st: Reading, st': Reading)
    requires st.Valid() && st'.Valid() && st.ok && Less(u, st, st')
    requires |st.frames| > 1 && st.Top().text == u ==> st.Top().inner != {}
    ensures Less(u, Close(vars, st), Close(vars, st'))
  {
    assert FrameLess(u, st.Top(), st'.Top());
  }

  lemma LessToken(vars: PlainVars, u: string, st: Reading, st': Reading)
    requires st.Valid() && st'.Valid() && st.ok && Less(u, st, st') && u in vars
    ensures Less(u, st.(names := st.names + {u}).Extended(vars[u], {u}), st'.Extended(vars[u], {}))
  {
  }

  lemma NotFlatStep(vars: map<string, string>, u: string, st: Reading, s: string)
    requires st.Valid() && st.ok && s != "" && NotFlat(u, st, s) && !(Token(u) <= s)
    ensures NotFlat(u, ReadChar(vars, st, s[0]), s[1..])
    ensures s[0] == '}' && |st.frames| > 1 && st.Top().text == u ==> st.Top().inner != {}
  {
    var c, next := s[0], ReadChar(vars, st, s[0]);
    assert s == [c] + s[1..];
    if c == '{' {
      assert next.Top() == Frame("", {});
      assert Token(u) == [c] + (u + "}");
      assert u[0..] == u;
    } else if c == '}' {
      if next.ok {
        assert st.Top().text in next.Top().inner;
      }
      assert u[|u|..] == "";
    } else {
      var text := st.Top().text;
      assert next.Top() == Frame(text + [c], st.Top().inner + {});
      if text + [c] <= u && u[|text| + 1..] + "}" <= s[1..] {
        assert u[|text|..] == [c] + u[|text| + 1..];
        assert text <= u;
      }
    }
  }

  lemma LessStep(vars: map<string, string>, u: string, st: Reading, st': Reading, s: string)
    requires st.Valid() && st'.Valid() && st.ok && Less(u, st, st')
    requires s != "" && NotFlat(u, st, s) && !(Token(u) <= s)
    ensures NotFlat(u, ReadChar(vars, st, s[0]), s[1..])
    ensures Less(u, ReadChar(vars, st, s[0]), ReadChar(vars, st', s[0]))
  {
    hide Less, Close, NotFlat;
    assert st'.ok by {
      LessKeepsOk(u, st, st');
    }
    NotFlatStep(vars, u, st, s);
    if s[0] == '{' {
      LessOpen(u, st, st');
    } else if s[0] == '}' {
      LessClose(vars, u, st, st');
    } else {
      LessText(u, st, st', [s[0]]);
    }
  }

  lemma LessKeepsOk(u: string, st: Reading, st': Reading)
    requires Less(u, st, st')
    ensures st.ok == st'.ok
    ensures !st.ok ==> forall t: Reading, t': Reading :: !t.ok && !t'.ok ==> Less(u, t, t')
  {
  }

  /** Reading on with the flat groups of u replaced keeps the two readings alike. */
  lemma {:induction false} ReplacedReadsAlike(vars: PlainVars, u: string, st: Reading, st': Reading, s: string)
    requires st.Valid() && st'.Valid() && u in vars && Less(u, st, st') && NotFlat(u, st, s)
    ensures Less(u, Read(vars, st, s), Read(vars, st', ReplaceAll(s, Token(u), vars[u])))
    decreases |s|
  {
    hide Less, NotFlat, ReadChar, Token;
    var t, value := Token(u), vars[u];
    LessKeepsOk(u, st, st');
    if !st.ok {
      ReadBroken(vars, st, s);
      ReadBroken(vars, st', ReplaceAll(s, t, value));
    } else if s == "" {
    } else if t <= s {
      var m := s[|t|..];
      var next := st.(names := st.names + {u}).Extended(value, {u});
      assert s == t + m;
      ReadAppend(vars, st, t, m);
      ReadToken(vars, st, u);
      ReadAppend(vars, st', value, ReplaceAll(m, t, value));
      ReadPlain(vars, st', value);
      LessToken(vars, u, st, st');
      assert NotFlat(u, next, m) by {
        Filled(u, next, m);
      }
      ReplacedReadsAlike(vars, u, next, st'.Extended(value, {}), m);
    } else {
      var rest := ReplaceAll(s[1..], t, value);
      LessStep(vars, u, st, st', s);
      assert ([s[0]] + rest)[1..] == rest;
      ReplacedReadsAlike(vars, u, ReadChar(vars, st, s[0]), ReadChar(vars, st', s[0]), s[1..]);
    }
  }

  lemma Filled(u: string, st: Reading, s: string)
    requires st.Valid() && u in st.Top().inner
    ensures NotFlat(u, st, s)
  {
  }

  // ----- facts about a whole reading

  lemma {:induction false} ReadSound(vars: map<string, string>, st: Reading, s: string)
    requires st.Valid() && Sound(st)
    ensures Sound(Read(vars, st, s))
    decreases |s|
  {
    hide ReadChar, Sound;
    if s != "" {
      SoundStep(vars, st, s[0]);
      ReadSound(vars, ReadChar(vars, st, s[0]), s[1..]);
    }
  }

  lemma {:induction false} NamesGrow(vars: map<string, string>, st: Reading, s: string)
    requires st.Valid()
    ensures st.names <= Read(vars, st, s).names
    ensures st.names <= vars.Keys ==> Read(vars, st, s).names <= vars.Keys
    decreases |s|
  {
    if s != "" {
      NamesGrow(vars, ReadChar(vars, st, s[0]), s[1..]);
    }
  }

  /** A text in which no group is closed and none left open has no brace. */
  lemma {:induction false} NoGroupsNoBraces(vars: map<string, string>, st: Reading, s: string)
    requires st.Valid() && Read(vars, st, s).ok && Read(vars, st, s).names == {}
    ensures |st.frames| <= |Read(vars, st, s).frames|
    ensures |st.frames| == |Read(vars, st, s).frames| ==> BraceFree(s)
    decreases |s|
  {
    if s != "" {
      var next := ReadChar(vars, st, s[0]);
      if !next.ok {
        ReadBroken(vars, next, s[1..]);
      }
      NamesGrow(vars, next, s[1..]);
      NoGroupsNoBraces(vars, next, s[1..]);
      if |st.frames| == |Read(vars, st, s).frames| {
        assert !IsBrace(s[0]) && s == [s[0]] + s[1..];
      }
    }
  }

  // ----- which orders succeed

  ghost predicate Before(order: seq<string>, a: string, b: string) {
    exists i, j :: 0 <= i < j < |order| && order[i] == a && order[j] == b
  }

  /** Every name comes before the names of the groups it is nested in. */
  ghost predicate Respects(order: seq<string>, within: set<(string, string)>) {
    forall e :: e in within ==> Before(order, e.0, e.1)
  }

  ghost predicate Succeeds(order: seq<string>, r: Reading) {
    r.Complete() && (forall k :: k in r.names ==> k in order) && Respects(order, r.within)
  }

  lemma {:induction false} FirstThenRest(vars: map<string, string>, u: string, rest: seq<string>, s: string)
    requires u in vars && forall i :: 0 <= i < |rest| ==> rest[i] in vars
    ensures ReplaceEach(vars, [u] + rest, s) == ReplaceEach(vars, rest, ReplaceAll(s, Token(u), vars[u]))
  {
    hide ReplaceAll, Token;
    var order := [u] + rest;
    if rest == [] {
      assert order == [u] && order[..0] == [];
    } else {
      var n := |rest| - 1;
      assert order[..|order| - 1] == [u] + rest[..n];
      FirstThenRest(vars, u, rest[..n], s);
    }
  }

  lemma BeforeRest(u: string, rest: seq<string>, a: string, b: string)
    requires EachOnce([u] + rest)
    ensures a != u ==> (Before([u] + rest, a, b) <==> Before(rest, a, b))
    ensures Before([u] + rest, u, b) <==> b in rest
    ensures !Before([u] + rest, a, u)
  {
    hide EachOnce;
    if Before([u] + rest, a, b) {
      BeforeLater(u, rest, a, b);
    }
    if Before([u] + rest, u, b) {
      BeforeLater(u, rest, u, b);
    }
    if Before([u] + rest, a, u) {
      BeforeLater(u, rest, a, u);
    }
    if Before(rest, a, b) {
      var i, j :| 0 <= i < j < |rest| && rest[i] == a && rest[j] == b;
      assert ([u] + rest)[i + 1] == a && ([u] + rest)[j + 1] == b;
    }
    if b in rest {
      var j :| 0 <= j < |rest| && rest[j] == b;
      assert ([u] + rest)[0] == u && ([u] + rest)[j + 1] == b;
    }
  }

  lemma BeforeLater(u: string, rest: seq<string>, a: string, b: string)
    requires EachOnce([u] + rest) && Before([u] + rest, a, b)
    ensures b in rest && b != u && (a != u ==> Before(rest, a, b))
  {
    var order := [u] + rest;
    var i, j :| 0 <= i < j < |order| && order[i] == a && order[j] == b;
    assert order[0] == u && order[j] == rest[j - 1];
    if a != u {
      assert rest[i - 1] == a && rest[j - 1] == b;
    }
  }

  /** Replacing u first leaves a text that the rest of the order renders exactly if the whole order renders this. */
  lemma SucceedsStep(u: string, rest: seq<string>, r: Reading, r': Reading)
    requires EachOnce([u] + rest) && Less(u, r, r') && Sound(r) && Sound(r')
    ensures Succeeds([u] + rest, r) <==> Succeeds(rest, r')
  {
    hide Before, FrameLess;
    var order := [u] + rest;
    assert forall j :: 0 <= j < |rest| ==> order[j + 1] == rest[j];
    assert order[0] == u && u !in rest;
    assert forall k :: k in order <==> k == u || k in rest;
    forall a, b
      ensures a != u ==> (Before(order, a, b) <==> Before(rest, a, b))
      ensures (Before(order, u, b) <==> b in rest) && !Before(order, a, u)
    {
      BeforeRest(u, rest, a, b);
    }
  }

  /** What an order of distinct names makes of a text is free of braces exactly if every group of the text is
      complete, named in the order, and after those nested in it; and then it is what reading the text gives. */
  lemma {:induction false} EachSucceedsIff(vars: PlainVars, order: seq<string>, s: string)
    requires EachOnce(order) && forall i :: 0 <= i < |order| ==> order[i] in vars
    ensures BraceFree(ReplaceEach(vars, order, s)) <==> Succeeds(order, Read(vars, START, s))
    ensures Succeeds(order, Read(vars, START, s)) ==>
      ReplaceEach(vars, order, s) == Read(vars, START, s).frames[0].text
    decreases |order|
  {
    hide Less, Succeeds, ReadChar, Token, ReplaceAll, BraceFree, Sound;
    if order == [] {
      NothingReplacedIff(vars, s);
    } else {
      var u, rest := order[0], order[1..];
      var s' := ReplaceAll(s, Token(u), vars[u]);
      assert order == [u] + rest;
      FirstThenRest(vars, u, rest, s);
      StartIsLike(u, s);
      ReplacedReadsAlike(vars, u, START, START, s);
      ReadSound(vars, START, s);
      ReadSound(vars, START, s');
      SucceedsStep(u, rest, Read(vars, START, s), Read(vars, START, s'));
      EachSucceedsIff(vars, rest, s');
      if Succeeds(order, Read(vars, START, s)) {
        SameText(u, order, Read(vars, START, s), Read(vars, START, s'));
      }
    }
  }

  lemma NothingReplacedIff(vars: PlainVars, s: string)
    ensures BraceFree(s) <==> Succeeds([], Read(vars, START, s))
    ensures Succeeds([], Read(vars, START, s)) ==> s == Read(vars, START, s).frames[0].text
  {
    hide Read, ReadChar;
    if BraceFree(s) {
      ReadPlain(vars, START, s);
      assert "" + s == s;
    }
    if Succeeds([], Read(vars, START, s)) {
      var names := Read(vars, START, s).names;
      assert names == {};
      NoGroupsNoBraces(vars, START, s);
    }
  }

  lemma StartIsLike(u: string, s: string)
    ensures Less(u, START, START) && NotFlat(u, START, s) && Sound(START)
  {
  }

  lemma SameText(u: string, order: seq<string>, r: Reading, r': Reading)
    requires Less(u, r, r') && Succeeds(order, r)
    ensures r'.Complete() && r.frames[0].text == r'.frames[0].text
  {
    assert FrameLess(u, r.frames[0], r'.frames[0]);
  }

  // ----- rendering

  /** An order in which the map may be walked. */
  ghost predicate IsWalk(order: seq<string>, vars: map<string, string>) {
    IsOrderOf(order, vars.Keys) && EachOnce(order)
  }

  /** What each walk renders: the template's reading if the template is not blank, all its groups are complete,
      and every name comes before the names of the groups it is nested in; an error otherwise. */
  lemma RenderIs(vars: PlainVars, tmpl: string, order: seq<string>)
    requires IsWalk(order, vars)
    ensures var r := Read(vars, START, tmpl);
      Render(vars, tmpl, order) ==
        if !Blank(tmpl) && r.Complete() && Respects(order, r.within) then Rendered(r.frames[0].text) else Error
  {
    hide Read, ReplaceEach, Respects, BraceFree, Blank;
    var r := Read(vars, START, tmpl);
    EachSucceedsIff(vars, order, tmpl);
    NamesGrow(vars, START, tmpl);
    assert forall k :: k in r.names ==> k in ToSet(order);
  }

  /** Two walks that both render a template render the same key: with values free of braces the order of the map
      can make rendering fail, but never change the key. */
  lemma SuccessesAgree(vars: PlainVars, tmpl: string, a: seq<string>, b: seq<string>)
    requires IsWalk(a, vars) && IsWalk(b, vars)
    ensures Render(vars, tmpl, a).Rendered? && Render(vars, tmpl, b).Rendered? ==>
      Render(vars, tmpl, a) == Render(vars, tmpl, b)
  {
    hide IsWalk, Render, Read, Respects;
    RenderIs(vars, tmpl, a);
    RenderIs(vars, tmpl, b);
  }

  /** Among any names there is one in which none of them is nested. */
  ghost predicate Acyclic(keys: set<string>, within: set<(string, string)>) {
    forall some: set<string> :: some <= keys && some != {} ==> HasInnermost(some, within)
  }

  ghost predicate HasInnermost(some: set<string>, within: set<(string, string)>) {
    exists t :: t in some && forall v :: v in some ==> (v, t) !in within
  }

  lemma NoKeysInOrder()
    ensures IsOrderOf([], {}) && EachOnce([])
  {
  }

  lemma OneMoreInFront(t: string, rest: seq<string>, keys: set<string>)
    requires t in keys && IsOrderOf(rest, keys - {t}) && EachOnce(rest)
    ensures IsOrderOf([t] + rest, keys) && EachOnce([t] + rest)
    ensures forall k :: k in keys ==> k == t || k in rest
  {
    hide ToSet;
    var order := [t] + rest;
    assert forall k :: k in order <==> k == t || k in rest;
    assert forall k :: k in ToSet(rest) <==> k in keys - {t};
    assert ToSet(order) == keys;
  }

  /** Nothing of the set comes before the first of its names. */
  lemma NothingBeforeFirst(order: seq<string>, some: set<string>, i: nat, v: string)
    requires EachOnce(order) && i < |order| && forall j :: 0 <= j < i ==> order[j] !in some
    requires v in some
    ensures !Before(order, v, order[i])
  {
    assert forall b :: 0 <= b < |order| && order[b] == order[i] ==> b == i;
  }

  lemma NotBothWays(order: seq<string>, a: string, b: string)
    requires EachOnce(order) && Before(order, a, b)
    ensures !Before(order, b, a)
  {
    var i, j :| 0 <= i < j < |order| && order[i] == a && order[j] == b;
    assert forall p :: 0 <= p < |order| && order[p] == b ==> p == j;
    assert forall p :: 0 <= p < |order| && order[p] == a ==> p == i;
  }

  lemma {:induction false} InnermostFirst(keys: set<string>, within: set<(string, string)>) returns (order: seq<string>)
    requires Acyclic(keys, within)
    ensures IsOrderOf(order, keys) && EachOnce(order)
    ensures forall e :: e in within && e.0 in keys && e.1 in keys ==> Before(order, e.0, e.1)
    decreases |keys|
  {
    hide Before, IsOrderOf, EachOnce;
    if keys == {} {
      order := [];
      NoKeysInOrder();
      return;
    }
    assert HasInnermost(keys, within);
    var t :| t in keys && forall v :: v in keys ==> (v, t) !in within;
    assert Acyclic(keys - {t}, within);
    var rest := InnermostFirst(keys - {t}, within);
    order := [t] + rest;
    OneMoreInFront(t, rest, keys);
    forall e | e in within && e.0 in keys && e.1 in keys ensures Before(order, e.0, e.1) {
      BeforeRest(t, rest, e.0, e.1);
    }
  }

  /** The name of the set that comes first in the order. */
  lemma {:induction false} FirstOf(order: seq<string>, some: set<string>) returns (i: nat)
    requires some != {} && forall k :: k in some ==> k in order
    ensures i < |order| && order[i] in some && forall j :: 0 <= j < i ==> order[j] !in some
  {
    var k :| k in some;
    i := 0;
    while order[i] !in some
      invariant i < |order| && forall j :: 0 <= j < i ==> order[j] !in some
      invariant exists j :: i <= j < |order| && order[j] in some
      decreases |order| - i
    {
      i := i + 1;
    }
  }

  lemma RespectedIsAcyclic(order: seq<string>, keys: set<string>, within: set<(string, string)>)
    requires IsOrderOf(order, keys) && EachOnce(order) && Respects(order, within)
    ensures Acyclic(keys, within)
  {
    assert forall k :: k in keys ==> k in ToSet(order);
    hide EachOnce, IsOrderOf, ToSet;
    forall some: set<string> | some <= keys && some != {} ensures HasInnermost(some, within) {
      var i := FirstOf(order, some);
      forall v | v in some ensures (v, order[i]) !in within {
        NothingBeforeFirst(order, some, i, v);
        var e := (v, order[i]);
        assert e in within ==> Before(order, e.0, e.1);
      }
    }
  }

  /** Some walk renders the template if and only if it is not blank, its groups are complete, and their names
      are not nested in one another in a circle. */
  lemma SomeOrderSucceedsIff(vars: PlainVars, tmpl: string)
    ensures (exists order :: IsWalk(order, vars) && Render(vars, tmpl, order).Rendered?)
      <==> var r := Read(vars, START, tmpl); !Blank(tmpl) && r.Complete() && Acyclic(vars.Keys, r.within)
  {
    hide Read, Render, Respects, Acyclic, Blank, IsOrderOf, EachOnce;
    var r := Read(vars, START, tmpl);
    if order :| IsWalk(order, vars) && Render(vars, tmpl, order).Rendered? {
      RenderIs(vars, tmpl, order);
      RespectedIsAcyclic(order, vars.Keys, r.within);
    }
    if !Blank(tmpl) && r.Complete() && Acyclic(vars.Keys, r.within) {
      var order := InnermostFirst(vars.Keys, r.within);
      NestedNamesKnown(vars, tmpl);
      assert Respects(order, r.within) by {
        AllRespected(order, r.within);
      }
      RenderIs(vars, tmpl, order);
    }
  }

  lemma AllRespected(order: seq<string>, within: set<(string, string)>)
    requires forall e :: e in within ==> Before(order, e.0, e.1)
    ensures Respects(order, within)
  {
  }

  lemma NestedNamesKnown(vars: map<string, string>, tmpl: string)
    ensures forall e :: e in Read(vars, START, tmpl).within ==> e.0 in vars && e.1 in vars
  {
    hide Read;
    ReadSound(vars, START, tmpl);
    NamesGrow(vars, START, tmpl);
  }

  /** The order of the map does not matter if and only if the template is blank, or has an incomplete group, or
      nests no group in another, or nests names in a circle; in the third case every order renders it, in the
      others none does. */
  lemma OrderIndependentIff(vars: PlainVars, tmpl: string)
    ensures (forall a, b :: IsWalk(a, vars) && IsWalk(b, vars) ==> Render(vars, tmpl, a) == Render(vars, tmpl, b))
      <==> var r := Read(vars, START, tmpl);
        Blank(tmpl) || !r.Complete() || r.within == {} || !Acyclic(vars.Keys, r.within)
  {
    hide Read, Render, Acyclic, Blank, IsOrderOf, EachOnce, Respects;
    var r := Read(vars, START, tmpl);
    forall order | IsWalk(order, vars)
      ensures Render(vars, tmpl, order) ==
        if !Blank(tmpl) && r.Complete() && Respects(order, r.within) then Rendered(r.frames[0].text) else Error
      ensures Respects(order, r.within) ==> Acyclic(vars.Keys, r.within)
      ensures r.within == {} ==> Respects(order, r.within)
    {
      RenderIs(vars, tmpl, order);
      if Respects(order, r.within) {
        RespectedIsAcyclic(order, vars.Keys, r.within);
      }
      NothingToRespect(order);
    }
    if !Blank(tmpl) && r.Complete() && r.within != {} && Acyclic(vars.Keys, r.within) {
      NestedNamesKnown(vars, tmpl);
      var order := InnermostFirst(vars.Keys, r.within);
      AllRespected(order, r.within);
      ReversedDoesNot(order, vars.Keys, r.within);
      assert IsWalk(order, vars) && IsWalk(Reversed(order), vars);
    }
  }

  lemma NothingToRespect(order: seq<string>)
    ensures Respects(order, {})
  {
  }

  function Reversed(order: seq<string>): (r: seq<string>)
    ensures |r| == |order| && forall i :: 0 <= i < |r| ==> r[i] == order[|r| - 1 - i]
  {
    seq(|order|, i requires 0 <= i < |order| => order[|order| - 1 - i])
  }

  lemma ReversedDoesNot(order: seq<string>, keys: set<string>, within: set<(string, string)>)
    requires IsOrderOf(order, keys) && EachOnce(order) && Respects(order, within) && within != {}
    ensures IsOrderOf(Reversed(order), keys) && EachOnce(Reversed(order)) && !Respects(Reversed(order), within)
  {
    hide Before;
    ReversedIsOrder(order, keys);
    var e :| e in within;
    NotBothWays(order, e.0, e.1);
    ReversedBefore(order, e.0, e.1);
  }

  lemma ReversedBefore(order: seq<string>, a: string, b: string)
    ensures Before(Reversed(order), a, b) ==> Before(order, b, a)
  {
    var r, n := Reversed(order), |order| - 1;
    if i, j :| 0 <= i < j < |r| && r[i] == a && r[j] == b {
      assert order[n - j] == b && order[n - i] == a;
    }
  }

  lemma ReversedIsOrder(order: seq<string>, keys: set<string>)
    requires IsOrderOf(order, keys) && EachOnce(order)
    ensures IsOrderOf(Reversed(order), keys) && EachOnce(Reversed(order))
  {
    hide ToSet;
    var r, n := Reversed(order), |order| - 1;
    forall k ensures k in ToSet(r) <==> k in ToSet(order) {
      if i :| 0 <= i < |order| && order[i] == k {
        assert r[n - i] == k;
      }
    }
    assert ToSet(r) == keys;
  }
}
