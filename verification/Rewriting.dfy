/** Replacing several tokens in a string one after the other, in an order nobody chose: when that is the
    same as replacing them all in one pass. */
module Rewriting {
  import opened Base

  /** strings.ReplaceAll: non-overlapping occurrences, from the left. */
  function ReplaceAll(s: string, token: string, full: string): string
    requires token != ""
  {
    if s == "" then ""
    else if token <= s then full + ReplaceAll(s[|token|..], token, full)
    else [s[0]] + ReplaceAll(s[1..], token, full)
  }

  /** An opening brace followed by none. */
  predicate IsToken(t: string) {
    t != "" && t[0] == '{' && forall i :: 1 <= i < |t| ==> t[i] != '{'
  }

  /** Tokens of which none is a prefix of another. */
  ghost predicate Tokens(ts: set<string>) {
    (forall t :: t in ts ==> IsToken(t)) && (forall t, u :: t in ts && u in ts && t <= u ==> t == u)
  }

  type Rules = r: map<string, string> | Tokens(r.Keys)

  ghost predicate Starts(ts: set<string>, s: string) {
    exists t :: t in ts && t <= s
  }

  /** The token of the set that the string starts with. */
  ghost function TokenAt(ts: set<string>, s: string): (t: string)
    requires Starts(ts, s)
    ensures t in ts && t <= s
  {
    var t :| t in ts && t <= s; t
  }

  lemma TokenUnique(ts: set<string>, s: string, t: string, u: string)
    requires Tokens(ts) && t in ts && u in ts && t <= s && u <= s
    ensures t == u
  {
    if |t| <= |u| {
      ShorterPrefix(t, u, s);
    } else {
      ShorterPrefix(u, t, s);
    }
  }

  lemma ShorterPrefix(t: string, u: string, s: string)
    requires t <= s && u <= s && |t| <= |u|
    ensures t <= u
  {
    assert t == s[..|t|] == u[..|t|];
  }

  /** One pass from left to right that replaces every token of the set. */
  ghost function OnePass(rules: Rules, ts: set<string>, s: string): string
    requires ts <= rules.Keys
    decreases |s|
  {
    if s == "" then ""
    else if Starts(ts, s) then
      var t := TokenAt(ts, s);
      assert IsToken(t);
      rules[t] + OnePass(rules, ts, s[|t|..])
    else [s[0]] + OnePass(rules, ts, s[1..])
  }

  lemma {:induction false} NothingToReplace(rules: Rules, s: string)
    ensures OnePass(rules, {}, s) == s
    decreases |s|
  {
    if s != "" {
      NothingToReplace(rules, s[1..]);
    }
  }

  /** Text in which no token of the set begins passes through unchanged. */
  lemma {:induction false} PassesThrough(rules: Rules, ts: set<string>, t: string, s: string)
    requires ts <= rules.Keys && t <= s
    requires forall i :: 0 <= i < |t| ==> !Starts(ts, s[i..])
    ensures OnePass(rules, ts, s) == t + OnePass(rules, ts, s[|t|..])
  {
    if t != "" {
      assert s[0..] == s;
      forall i | 0 <= i < |t[1..]| ensures !Starts(ts, s[1..][i..]) {
        assert s[1..][i..] == s[i + 1..];
      }
      PassesThrough(rules, ts, t[1..], s[1..]);
      assert s[1..][|t[1..]|..] == s[|t|..];
      assert t == [s[0]] + t[1..];
    } else {
      assert s[0..] == s;
    }
  }

  /** Text in which the token does not begin is copied. */
  lemma {:induction false} ReplaceSkips(t: string, m: string, token: string, full: string)
    requires token != "" && forall i :: 0 <= i < |t| ==> !(token <= (t + m)[i..])
    ensures ReplaceAll(t + m, token, full) == t + ReplaceAll(m, token, full)
  {
    if t == "" {
      assert t + m == m;
    } else {
      assert (t + m)[0..] == t + m && (t + m)[1..] == t[1..] + m;
      forall i | 0 <= i < |t[1..]| ensures !(token <= (t[1..] + m)[i..]) {
        assert (t[1..] + m)[i..] == (t + m)[i + 1..];
      }
      ReplaceSkips(t[1..], m, token, full);
      assert t == [t[0]] + t[1..];
    }
  }

  /** Whatever follows it, the replacement of a token contains no beginning of the token q. */
  ghost predicate Inert(full: string, q: string) {
    forall m, i :: 0 <= i < |full| ==> !(q <= (full + m)[i..])
  }

  /** Replacing the tokens of the set behind an opening brace does not make q out of what was not q. */
  ghost predicate NothingForms(rules: Rules, ts: set<string>, q: string, s: string)
    requires ts <= rules.Keys
  {
    s != "" && s[0] == '{' && q <= [s[0]] + OnePass(rules, ts, s[1..]) ==> q <= s || Starts(ts, s)
  }

  /** The rules do not interfere with one another on the string. */
  ghost predicate Independent(rules: Rules, s: string) {
    && (forall p, q, i :: p in rules && q in rules && 0 <= i <= |s| && p <= s[i..] ==> Inert(rules[p], q))
    && (forall ts: set<string>, q, i ::
         ts <= rules.Keys && q in rules && 0 <= i <= |s| ==> NothingForms(rules, ts, q, s[i..]))
  }

  lemma IndependentSuffix(rules: Rules, s: string, k: nat)
    requires Independent(rules, s) && k <= |s|
    ensures Independent(rules, s[k..])
  {
    forall p, q, i | p in rules && q in rules && 0 <= i <= |s[k..]| && p <= s[k..][i..] ensures Inert(rules[p], q) {
      assert s[k..][i..] == s[k + i..];
    }
    forall ts: set<string>, q, i | ts <= rules.Keys && q in rules && 0 <= i <= |s[k..]|
      ensures NothingForms(rules, ts, q, s[k..][i..])
    {
      assert s[k..][i..] == s[k + i..];
    }
  }

  /** Replacing q after the tokens of the set is replacing q with them. */
  lemma {:induction false} OneMoreToken(rules: Rules, ts: set<string>, q: string, s: string)
    requires ts <= rules.Keys && q in rules && Independent(rules, s)
    ensures ReplaceAll(OnePass(rules, ts, s), q, rules[q]) == OnePass(rules, ts + {q}, s)
    decreases |s|
  {
    var all := ts + {q};
    assert s[0..] == s;
    if s == "" {
    } else if Starts(ts, s) {
      var t := TokenAt(ts, s);
      assert IsToken(t) && t in all && Starts(all, s);
      TokenUnique(rules.Keys, s, t, TokenAt(all, s));
      var m := OnePass(rules, ts, s[|t|..]);
      assert t <= s[0..] && Inert(rules[t], q);
      ReplaceSkips(rules[t], m, q, rules[q]);
      IndependentSuffix(rules, s, |t|);
      OneMoreToken(rules, ts, q, s[|t|..]);
    } else if q <= s {
      assert IsToken(q) && q in all && Starts(all, s);
      TokenUnique(rules.Keys, s, q, TokenAt(all, s));
      TokenIsKept(rules, ts, q, s);
      var m := OnePass(rules, ts, s[|q|..]);
      assert q <= q + m && (q + m)[|q|..] == m;
      IndependentSuffix(rules, s, |q|);
      OneMoreToken(rules, ts, q, s[|q|..]);
    } else {
      assert !Starts(all, s);
      assert NothingForms(rules, ts, q, s[0..]);
      assert IsToken(q);
      var m := OnePass(rules, ts, s[1..]);
      TokenNeedsBrace(q, s[0], m);
      assert ([s[0]] + m)[1..] == m;
      IndependentSuffix(rules, s, 1);
      OneMoreToken(rules, ts, q, s[1..]);
    }
  }

  lemma TokenNeedsBrace(q: string, c: char, m: string)
    requires IsToken(q)
    ensures q <= [c] + m ==> c == '{'
  {
  }

  lemma TokenIsKept(rules: Rules, ts: set<string>, q: string, s: string)
    requires ts <= rules.Keys && q in rules && q <= s && !Starts(ts, s)
    ensures OnePass(rules, ts, s) == q + OnePass(rules, ts, s[|q|..])
  {
    forall i | 0 <= i < |q| ensures !Starts(ts, s[i..]) {
      if i == 0 {
        assert s[0..] == s;
      } else {
        assert IsToken(q) && s[i] == q[i];
        assert forall t :: t in ts ==> IsToken(t);
      }
    }
    PassesThrough(rules, ts, q, s);
  }

  // ----- sequential replacement in some order

  /** Replace the tokens of the order one after the other. */
  function InOrder(rules: Rules, order: seq<string>, s: string): string
    requires forall i :: 0 <= i < |order| ==> order[i] in rules
  {
    if order == [] then s
    else
      var q := order[|order| - 1];
      assert IsToken(q);
      ReplaceAll(InOrder(rules, order[..|order| - 1], s), q, rules[q])
  }

  lemma NothingInOrder(rules: Rules, s: string)
    ensures InOrder(rules, [], s) == s
  {
  }

  lemma InOrderAppend(rules: Rules, order: seq<string>, q: string, s: string)
    requires (forall i :: 0 <= i < |order| ==> order[i] in rules) && q in rules
    ensures q != ""
    ensures InOrder(rules, order + [q], s) == ReplaceAll(InOrder(rules, order, s), q, rules[q])
  {
    assert IsToken(q);
    assert (order + [q])[..|order|] == order;
  }

  ghost function ToSet(order: seq<string>): (r: set<string>)
    ensures forall t :: t in r <==> t in order
  {
    if order == [] then {} else ToSet(order[..|order| - 1]) + {order[|order| - 1]}
  }

  lemma {:induction false} InOrderIsOnePass(rules: Rules, order: seq<string>, s: string)
    requires forall i :: 0 <= i < |order| ==> order[i] in rules
    requires Independent(rules, s)
    ensures InOrder(rules, order, s) == OnePass(rules, ToSet(order), s)
  {
    hide OnePass, Independent, ReplaceAll;
    if order == [] {
      NothingToReplace(rules, s);
    } else {
      var n := |order| - 1;
      InOrderIsOnePass(rules, order[..n], s);
      assert order[n] in rules;
      OneMoreToken(rules, ToSet(order[..n]), order[n], s);
    }
  }

  /** An order in which a map's keys may come; nothing below depends on each coming only once. */
  ghost predicate IsOrderOf(order: seq<string>, keys: set<string>) {
    (forall i :: 0 <= i < |order| ==> order[i] in keys) && ToSet(order) == keys
  }

  predicate EachOnce(order: seq<string>) {
    forall i, j :: 0 <= i < j < |order| ==> order[i] != order[j]
  }

  ghost function SomeOrder(keys: set<string>): (order: seq<string>)
    ensures IsOrderOf(order, keys) && EachOnce(order)
  {
    if keys == {} then []
    else
      var k :| k in keys;
      var rest := SomeOrder(keys - {k});
      assert (rest + [k])[..|rest|] == rest;
      rest + [k]
  }

  /** Independent rules give, in every order, what a single left-to-right pass gives. */
  lemma OrderDoesNotMatter(rules: Rules, order: seq<string>, s: string)
    requires IsOrderOf(order, rules.Keys) && Independent(rules, s)
    ensures InOrder(rules, order, s) == OnePass(rules, rules.Keys, s)
  {
    InOrderIsOnePass(rules, order, s);
  }

  /** Once everything is replaced, replacing again in any order changes nothing. */
  lemma {:induction false} AgainChangesNothing(rules: Rules, order: seq<string>, s: string)
    requires forall i :: 0 <= i < |order| ==> order[i] in rules
    requires Independent(rules, s)
    ensures InOrder(rules, order, OnePass(rules, rules.Keys, s)) == OnePass(rules, rules.Keys, s)
  {
    hide OnePass, Independent, ReplaceAll;
    if order != [] {
      var n := |order| - 1;
      AgainChangesNothing(rules, order[..n], s);
      assert order[n] in rules;
      OneMoreToken(rules, rules.Keys, order[n], s);
      assert rules.Keys + {order[n]} == rules.Keys;
    }
  }
}
