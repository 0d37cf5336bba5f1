/** Rendering a key template: known placeholders are replaced one after the other, in the order a map
    happens to yield them, and anything left with a brace is an error. */
module KeyTemplate {
  import opened Base
  import opened Rewriting
  import opened Text

  datatype Rendered = Rendered(key: string) | Error

  predicate BraceFree(s: string) {
    forall i :: 0 <= i < |s| ==> !IsBrace(s[i])
  }

  /** Variables whose names are free of braces, as those of every caller are. */
  type Vars = v: map<string, string> | forall k :: k in v ==> BraceFree(k)

  function Token(name: string): (t: string)
    ensures t != ""
  {
    "{" + name + "}"
  }

  function NameOf(token: string): string
    requires |token| >= 2
  {
    token[1..|token| - 1]
  }

  lemma TokenShape(k: string)
    requires BraceFree(k)
    ensures IsToken(Token(k)) && NameOf(Token(k)) == k
    ensures forall i :: 0 <= i < |Token(k)| ==> (Token(k)[i] == '}' <==> i == |Token(k)| - 1)
  {
  }

  ghost function TokenSet(vars: Vars): (ts: set<string>)
    ensures forall t :: t in ts <==> exists k :: k in vars && t == Token(k)
  {
    set k | k in vars :: Token(k)
  }

  lemma TokenSetIsTokens(vars: Vars)
    ensures Tokens(TokenSet(vars))
    ensures forall t :: t in TokenSet(vars) ==> |t| >= 2 && NameOf(t) in vars && t == Token(NameOf(t))
  {
    forall t | t in TokenSet(vars) ensures IsToken(t) && |t| >= 2 && NameOf(t) in vars && t == Token(NameOf(t)) {
      var k :| k in vars && t == Token(k);
      TokenShape(k);
    }
    forall t, u | t in TokenSet(vars) && u in TokenSet(vars) && t <= u ensures t == u {
      TokenShape(NameOf(t));
      TokenShape(NameOf(u));
      assert u[|t| - 1] == t[|t| - 1];
    }
  }

  /** Each placeholder stands for the value of its variable. */
  ghost function RulesOf(vars: Vars): (r: Rules)
    ensures r.Keys == TokenSet(vars)
    ensures forall k :: k in vars ==> Token(k) in r && r[Token(k)] == vars[k]
    ensures forall t :: t in r ==> |t| >= 2 && NameOf(t) in vars && t == Token(NameOf(t)) && r[t] == vars[NameOf(t)]
  {
    TokenSetIsTokens(vars);
    assert forall k :: k in vars ==> NameOf(Token(k)) == k by {
      forall k | k in vars ensures NameOf(Token(k)) == k {
        TokenShape(k);
      }
    }
    map t | t in TokenSet(vars) :: vars[NameOf(t)]
  }

  /** The simultaneous substitution. */
  ghost function Substituted(vars: Vars, tmpl: string): string {
    OnePass(RulesOf(vars), TokenSet(vars), tmpl)
  }

  // ----- rendering, whatever the names and values

  /** The placeholders of the given names replaced one after the other. */
  function ReplaceEach(vars: map<string, string>, order: seq<string>, tmpl: string): string
    requires forall i :: 0 <= i < |order| ==> order[i] in vars
  {
    if order == [] then tmpl
    else
      var k := order[|order| - 1];
      ReplaceAll(ReplaceEach(vars, order[..|order| - 1], tmpl), Token(k), vars[k])
  }

  /** What rendering gives when the placeholders are replaced in the given order of the names. */
  ghost function Render(vars: map<string, string>, tmpl: string, order: seq<string>): Rendered
    requires IsOrderOf(order, vars.Keys)
  {
    if Blank(tmpl) then Error
    else
      var out := ReplaceEach(vars, order, tmpl);
      if BraceFree(out) then Rendered(out) else Error
  }

  /** The loop over the variables, in whatever order they come. */
  method ReplacePlaceholders(tmpl: string, vars: map<string, string>) returns (out: string, ghost order: seq<string>)
    ensures IsOrderOf(order, vars.Keys) && EachOnce(order) && out == ReplaceEach(vars, order, tmpl)
  {
    hide ReplaceAll, Token;
    order := [];
    out := tmpl;
    var pending := vars.Keys;
    while pending != {}
      invariant pending <= vars.Keys && ToSet(order) == vars.Keys - pending
      invariant (forall i :: 0 <= i < |order| ==> order[i] in vars) && EachOnce(order)
      invariant out == ReplaceEach(vars, order, tmpl)
    {
      var k :| k in pending;
      pending := pending - {k};
      out := ReplaceAll(out, Token(k), vars[k]);
      assert (order + [k])[..|order|] == order;
      order := order + [k];
    }
  }

  method RenderKeyTemplate(tmpl: string, vars: map<string, string>) returns (r: Rendered)
    ensures exists order :: IsOrderOf(order, vars.Keys) && EachOnce(order) && r == Render(vars, tmpl, order)
  {
    if Blank(tmpl) {
      assert IsOrderOf(SomeOrder(vars.Keys), vars.Keys) && Render(vars, tmpl, SomeOrder(vars.Keys)) == Error;
      return Error;
    }
    ghost var order;
    var out: string;
    out, order := ReplacePlaceholders(tmpl, vars);
    r := if BraceFree(out) then Rendered(out) else Error;
    assert r == Render(vars, tmpl, order);
  }

  // ----- the tokens of brace-free names

  ghost function TokensOf(order: seq<string>): (ts: seq<string>)
    ensures |ts| == |order| && forall i :: 0 <= i < |ts| ==> ts[i] == Token(order[i])
  {
    seq(|order|, i requires 0 <= i < |order| => Token(order[i]))
  }

  lemma EachStep(vars: map<string, string>, order: seq<string>, tmpl: string)
    requires forall i :: 0 <= i < |order| ==> order[i] in vars
    ensures ReplaceEach(vars, [], tmpl) == tmpl
    ensures order != [] ==> var n := |order| - 1;
      ReplaceEach(vars, order, tmpl) == ReplaceAll(ReplaceEach(vars, order[..n], tmpl), Token(order[n]), vars[order[n]])
  {
    hide ReplaceAll, Token;
  }

  lemma {:induction false} EachIsInOrder(vars: Vars, order: seq<string>, tmpl: string)
    requires forall i :: 0 <= i < |order| ==> order[i] in vars
    ensures forall i :: 0 <= i < |order| ==> TokensOf(order)[i] in RulesOf(vars)
    ensures ReplaceEach(vars, order, tmpl) == InOrder(RulesOf(vars), TokensOf(order), tmpl)
  {
    hide ReplaceAll, Token, IsToken, RulesOf, TokenSet, InOrder, ReplaceEach, NameOf;
    EachStep(vars, order, tmpl);
    if order == [] {
      NothingInOrder(RulesOf(vars), tmpl);
    } else {
      var n := |order| - 1;
      EachIsInOrder(vars, order[..n], tmpl);
      InOrderAppend(RulesOf(vars), TokensOf(order[..n]), Token(order[n]), tmpl);
      assert TokensOf(order) == TokensOf(order[..n]) + [Token(order[n])];
    }
  }

  lemma TokensInOrder(vars: Vars, order: seq<string>)
    requires IsOrderOf(order, vars.Keys)
    ensures IsOrderOf(TokensOf(order), TokenSet(vars))
  {
    hide Token;
    forall t ensures t in TokenSet(vars) <==> t in TokensOf(order) {
      if t in TokenSet(vars) {
        var k :| k in vars && t == Token(k);
        assert k in ToSet(order);
        var i :| 0 <= i < |order| && order[i] == k;
        assert TokensOf(order)[i] == t;
      }
    }
  }

  // ----- when the order does not matter

  /** After an opening brace no other comes before a closing one. */
  ghost predicate NoNesting(s: string) {
    forall i, j :: 0 <= i < j < |s| && s[i] == '{' && s[j] == '{' ==> exists m :: i < m < j && s[m] == '}'
  }

  /** The values of the placeholders in the template are free of braces. */
  ghost predicate ValuesBraceFree(vars: Vars, tmpl: string) {
    forall t, i :: t in RulesOf(vars) && 0 <= i <= |tmpl| && t <= tmpl[i..] ==> BraceFree(RulesOf(vars)[t])
  }

  lemma BraceFreeIsInert(value: string, q: string)
    requires BraceFree(value) && IsToken(q)
    ensures Inert(value, q)
  {
    forall m, i | 0 <= i < |value| ensures !(q <= (value + m)[i..]) {
      assert (value + m)[i..][0] == value[i];
    }
  }

  /** Up to the first closing brace there is no opening one. */
  ghost predicate Inside(s: string) {
    forall j :: 0 <= j < |s| && s[j] == '{' ==> exists m :: 0 <= m < j && s[m] == '}'
  }

  lemma NoTokenInside(vars: Vars, ts: set<string>, s: string)
    requires ts <= TokenSet(vars) && Inside(s)
    ensures !Starts(ts, s)
  {
    TokenSetIsTokens(vars);
    forall t | t in ts && s != "" ensures !(t <= s) {
      assert IsToken(t) && s[0] != '{';
    }
  }

  lemma {:induction false} InsideTextWasThere(vars: Vars, ts: set<string>, t: string, s: string)
    requires ts <= TokenSet(vars) && Inside(s) && t <= OnePass(RulesOf(vars), ts, s)
    requires forall i :: 0 <= i < |t| ==> t[i] != '{' && (t[i] == '}' <==> i == |t| - 1)
    ensures t <= s
    decreases |t|
  {
    if t != "" {
      var rules := RulesOf(vars);
      var r := OnePass(rules, ts, s);
      NoTokenInside(vars, ts, s);
      assert r[0] == t[0] == s[0];
      assert t[1..] <= r[1..] == OnePass(rules, ts, s[1..]);
      if |t| > 1 {
        forall j | 0 <= j < |s[1..]| && s[1..][j] == '{' ensures exists m :: 0 <= m < j && s[1..][m] == '}' {
          var m :| 0 <= m < j + 1 && s[m] == '}';
          assert s[1..][m - 1] == '}';
        }
        InsideTextWasThere(vars, ts, t[1..], s[1..]);
      }
      assert t == [t[0]] + t[1..] && s == [s[0]] + s[1..];
    }
  }

  lemma TemplateIsIndependent(vars: Vars, tmpl: string)
    requires NoNesting(tmpl) && ValuesBraceFree(vars, tmpl)
    ensures Independent(RulesOf(vars), tmpl)
  {
    var rules := RulesOf(vars);
    forall p, q, i | p in rules && q in rules && 0 <= i <= |tmpl| && p <= tmpl[i..] ensures Inert(rules[p], q) {
      BraceFreeIsInert(rules[p], q);
    }
    forall ts: set<string>, q, i | ts <= rules.Keys && q in rules && 0 <= i <= |tmpl|
      ensures NothingForms(rules, ts, q, tmpl[i..])
    {
      NothingFormsInside(vars, ts, q, tmpl, i);
    }
  }

  lemma InsideAfterBrace(tmpl: string, i: nat)
    requires NoNesting(tmpl) && i < |tmpl| && tmpl[i] == '{'
    ensures Inside(tmpl[i + 1..])
  {
    var s := tmpl[i + 1..];
    forall j | 0 <= j < |s| && s[j] == '{' ensures exists m :: 0 <= m < j && s[m] == '}' {
      var m :| i < m < i + 1 + j && tmpl[m] == '}';
      assert s[m - i - 1] == '}';
    }
  }

  lemma NothingFormsInside(vars: Vars, ts: set<string>, q: string, tmpl: string, i: nat)
    requires NoNesting(tmpl) && ts <= TokenSet(vars) && q in TokenSet(vars) && i <= |tmpl|
    ensures NothingForms(RulesOf(vars), ts, q, tmpl[i..])
  {
    hide Token, NoNesting, Inside, OnePass;
    var s := tmpl[i..];
    var rules := RulesOf(vars);
    if s != "" && s[0] == '{' && q <= [s[0]] + OnePass(rules, ts, s[1..]) {
      InsideAfterBrace(tmpl, i);
      assert s[1..] == tmpl[i + 1..];
      TokenShape(NameOf(q));
      assert q[1..] <= ([s[0]] + OnePass(rules, ts, s[1..]))[1..] == OnePass(rules, ts, s[1..]);
      InsideTextWasThere(vars, ts, q[1..], s[1..]);
      assert q == ['{'] + q[1..] && s == ['{'] + s[1..];
    }
  }

  // ----- when rendering succeeds

  /** Every brace of the template belongs to a known placeholder, and its value has none. */
  ghost predicate Clean(vars: Vars, s: string)
    decreases |s|
  {
    s == "" ||
    if Starts(TokenSet(vars), s) then
      var t := TokenAt(TokenSet(vars), s);
      assert t in RulesOf(vars);
      BraceFree(RulesOf(vars)[t]) && Clean(vars, s[|t|..])
    else !IsBrace(s[0]) && Clean(vars, s[1..])
  }

  lemma {:induction false} CleanIffNoBraceLeft(vars: Vars, s: string)
    ensures Clean(vars, s) <==> BraceFree(Substituted(vars, s))
    decreases |s|
  {
    var ts, r := TokenSet(vars), Substituted(vars, s);
    if s == "" {
    } else if Starts(ts, s) {
      var t := TokenAt(ts, s);
      assert t in RulesOf(vars);
      CleanIffNoBraceLeft(vars, s[|t|..]);
      BraceFreeAppend(RulesOf(vars)[t], Substituted(vars, s[|t|..]));
    } else {
      CleanIffNoBraceLeft(vars, s[1..]);
      assert [s[0]][0] == s[0];
      BraceFreeAppend([s[0]], Substituted(vars, s[1..]));
    }
  }

  lemma BraceFreeAppend(a: string, b: string)
    ensures BraceFree(a + b) <==> BraceFree(a) && BraceFree(b)
  {
    if BraceFree(a + b) {
      forall i | 0 <= i < |a| ensures !IsBrace(a[i]) {
        assert (a + b)[i] == a[i];
      }
      forall i | 0 <= i < |b| ensures !IsBrace(b[i]) {
        assert (a + b)[|a| + i] == b[i];
      }
    }
  }

  /** With brace-free values and no nested braces every order renders the simultaneous substitution, and
      rendering fails exactly when the template is blank or has a brace outside a known placeholder. */
  lemma EveryOrderRendersTheSame(vars: Vars, tmpl: string, order: seq<string>)
    requires NoNesting(tmpl) && ValuesBraceFree(vars, tmpl) && IsOrderOf(order, vars.Keys)
    ensures Render(vars, tmpl, order) ==
      if Blank(tmpl) || !Clean(vars, tmpl) then Error else Rendered(Substituted(vars, tmpl))
  {
    TemplateIsIndependent(vars, tmpl);
    EachIsInOrder(vars, order, tmpl);
    TokensInOrder(vars, order);
    OrderDoesNotMatter(RulesOf(vars), TokensOf(order), tmpl);
    CleanIffNoBraceLeft(vars, tmpl);
  }

  lemma TokenInText(vars: Vars, s: string)
    requires Starts(TokenSet(vars), s)
    ensures var t := TokenAt(TokenSet(vars), s);
      2 <= |t| <= |s| && s[0] == '{' && s[|t| - 1] == '}' && forall k :: 1 <= k < |t| ==> s[k] != '{'
  {
    var t := TokenAt(TokenSet(vars), s);
    TokenSetIsTokens(vars);
    TokenShape(NameOf(t));
    assert forall k :: 0 <= k < |t| ==> s[k] == t[k];
  }

  /** How far the first step of a pass over clean text goes. */
  ghost function FirstStep(vars: Vars, s: string): (n: nat)
    requires s != "" && Clean(vars, s)
    ensures 1 <= n <= |s| && Clean(vars, s[n..])
    ensures s[0] == '{' ==> s[n - 1] == '}'
    ensures forall k :: 1 <= k < n ==> s[k] != '{'
  {
    if Starts(TokenSet(vars), s) then TokenInText(vars, s); |TokenAt(TokenSet(vars), s)| else 1
  }

  lemma {:induction false} CleanIsNotNested(vars: Vars, s: string, i: nat, j: nat)
    requires Clean(vars, s) && i < j < |s| && s[i] == '{' && s[j] == '{'
    ensures exists m :: i < m < j && s[m] == '}'
    decreases |s|
  {
    hide Clean;
    var n := FirstStep(vars, s);
    if i == 0 {
      assert s[n - 1] == '}';
    } else {
      CleanIsNotNested(vars, s[n..], i - n, j - n);
      var m :| i - n < m < j - n && s[n..][m] == '}';
      assert s[m + n] == '}';
    }
  }

  lemma TokenBegins(vars: Vars, t: string)
    requires t in TokenSet(vars)
    ensures t != "" && t[0] == '{'
  {
    TokenSetIsTokens(vars);
    assert IsToken(t);
  }

  lemma {:induction false} CleanValues(vars: Vars, s: string, t: string, i: nat)
    requires Clean(vars, s) && t in TokenSet(vars) && i <= |s| && t <= s[i..]
    ensures BraceFree(RulesOf(vars)[t])
    decreases |s|
  {
    TokenBegins(vars, t);
    assert s[i..][0] == s[i] == '{';
    if i == 0 {
      assert s[0..] == s;
      TokenSetIsTokens(vars);
      TokenUnique(TokenSet(vars), s, t, TokenAt(TokenSet(vars), s));
    } else {
      hide Clean, TokenSet, RulesOf, BraceFree;
      var n := FirstStep(vars, s);
      assert s[n..][i - n..] == s[i..];
      CleanValues(vars, s[n..], t, i - n);
    }
  }

  /** Every order renders the simultaneous substitution if and only if the template is not blank and is
      clean; no assumption about the other variables' values is needed. */
  lemma EveryOrderSucceedsIff(vars: Vars, tmpl: string)
    ensures (forall order ::
        IsOrderOf(order, vars.Keys) ==> Render(vars, tmpl, order) == Rendered(Substituted(vars, tmpl)))
      <==> !Blank(tmpl) && Clean(vars, tmpl)
  {
    hide InOrder, OnePass, Clean;
    CleanIffNoBraceLeft(vars, tmpl);
    if !Blank(tmpl) && Clean(vars, tmpl) {
      forall i, j | 0 <= i < j < |tmpl| && tmpl[i] == '{' && tmpl[j] == '{'
        ensures exists m :: i < m < j && tmpl[m] == '}' {
        CleanIsNotNested(vars, tmpl, i, j);
      }
      forall t, i | t in RulesOf(vars) && 0 <= i <= |tmpl| && t <= tmpl[i..] ensures BraceFree(RulesOf(vars)[t]) {
        CleanValues(vars, tmpl, t, i);
      }
      forall order | IsOrderOf(order, vars.Keys)
        ensures Render(vars, tmpl, order) == Rendered(Substituted(vars, tmpl)) {
        EveryOrderRendersTheSame(vars, tmpl, order);
      }
    }
    var order := SomeOrder(vars.Keys);
    assert IsOrderOf(order, vars.Keys);
  }

  /** A value with braces makes the outcome depend on the order: if the value of a is the placeholder of b, the
      template "{a}" renders the value of b if a is replaced first, and fails if b is. */
  lemma BracedValueDependsOnOrder(a: string, b: string, value: string)
    requires a != b && BraceFree(a) && BraceFree(b) && BraceFree(value)
    ensures var vars := map[a := Token(b), b := value];
      && IsOrderOf([a, b], vars.Keys) && Render(vars, Token(a), [a, b]) == Rendered(value)
      && IsOrderOf([b, a], vars.Keys) && Render(vars, Token(a), [b, a]) == Error
  {
    hide ReplaceAll, IsOrderOf, Token, Blank, BraceFree;
    var vars := map[a := Token(b), b := value];
    assert vars.Keys == {a, b} && vars[a] == Token(b) && vars[b] == value;
    TwoNames(a, b);
    TwoReplacements(vars, a, b, Token(a));
    TwoReplacements(vars, b, a, Token(a));
    ReplacesItself(Token(a), Token(b));
    ReplacesItself(Token(b), value);
    OtherTokenStays(a, b, value);
    TokenIsBraced(a);
    TokenIsBraced(b);
  }

  lemma TwoNames(a: string, b: string)
    ensures IsOrderOf([a, b], {a, b}) && IsOrderOf([b, a], {a, b})
  {
    forall t ensures t in {a, b} <==> t in ToSet([a, b]) {
      assert t in [a, b] <==> t == a || t == b;
    }
    forall t ensures t in {a, b} <==> t in ToSet([b, a]) {
      assert t in [b, a] <==> t == a || t == b;
    }
  }

  lemma TwoReplacements(vars: map<string, string>, a: string, b: string, s: string)
    requires a in vars && b in vars
    ensures ReplaceEach(vars, [a, b], s) == ReplaceAll(ReplaceAll(s, Token(a), vars[a]), Token(b), vars[b])
  {
    hide ReplaceAll, Token, ReplaceEach;
    EachStep(vars, [a, b], s);
    EachStep(vars, [a], s);
    assert [a, b][..1] == [a] && [a][..0] == [];
  }

  lemma ReplacesItself(t: string, full: string)
    requires t != ""
    ensures ReplaceAll(t, t, full) == full
  {
    assert t[|t|..] == "";
  }

  lemma NotAPrefix(a: string, b: string)
    requires a != b && BraceFree(a) && BraceFree(b)
    ensures !(Token(b) <= Token(a))
  {
    var t, q := Token(a), Token(b);
    TokenShape(a);
    TokenShape(b);
    assert |q| <= |t| && q == t[..|q|] ==> t[|q| - 1] == '}';
    assert |q| == |t| ==> NameOf(t) != NameOf(q);
  }

  lemma OtherTokenStays(a: string, b: string, full: string)
    requires a != b && BraceFree(a) && BraceFree(b)
    ensures ReplaceAll(Token(a), Token(b), full) == Token(a)
  {
    hide Token, ReplaceAll;
    var t, q := Token(a), Token(b);
    TokenShape(a);
    TokenShape(b);
    NotAPrefix(a, b);
    forall i | 0 <= i < |t| ensures !(q <= (t + "")[i..]) {
      assert t + "" == t && t[0..] == t && t[i..][0] == t[i];
    }
    ReplaceSkips(t, "", q, full);
    NothingReplaced(q, full);
    assert t + "" == t;
  }

  lemma NothingReplaced(token: string, full: string)
    requires token != ""
    ensures ReplaceAll("", token, full) == ""
  {
  }

  lemma TokenIsBraced(k: string)
    ensures !Blank(Token(k)) && !BraceFree(Token(k))
  {
    var t := Token(k);
    assert !IsSpace(t[0]) && IsBrace(t[0]);
  }
}
