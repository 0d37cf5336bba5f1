/** Trimming strings as Go's strings package does. */
module Text {

  predicate IsBrace(c: char) {
    c == '{' || c == '}'
  }

  /** Unicode's white space. */
  predicate IsSpace(c: char) {
    || '\t' <= c <= '\r' || c == ' ' || c == '\U{0085}' || c == '\U{00A0}' || c == '\U{1680}'
    || '\U{2000}' <= c <= '\U{200A}' || c == '\U{2028}' || c == '\U{2029}'
    || c == '\U{202F}' || c == '\U{205F}' || c == '\U{3000}'
  }

  predicate Blank(s: string) {
    forall i :: 0 <= i < |s| ==> IsSpace(s[i])
  }

  /** The text without the characters of the cutset at either end. */
  function Trim(s: string, cutset: char -> bool): (r: string)
    ensures r != "" ==> !cutset(r[0]) && !cutset(r[|r| - 1])
    ensures r == "" <==> forall i :: 0 <= i < |s| ==> cutset(s[i])
  {
    if s == "" then s
    else if cutset(s[0]) then Trim(s[1..], cutset)
    else if cutset(s[|s| - 1]) then Trim(s[..|s| - 1], cutset)
    else s
  }

  /** strings.Trim with the cutset of both braces. */
  function TrimBraces(s: string): string {
    Trim(s, c => IsBrace(c))
  }

  function TrimSpace(s: string): (r: string)
    ensures r == "" <==> Blank(s)
    ensures r != "" ==> !IsSpace(r[0]) && !IsSpace(r[|r| - 1])
  {
    Trim(s, c => IsSpace(c))
  }

  /** The middle of the text, around which there is nothing but characters of the cutset. */
  ghost predicate Middle(s: string, r: string, cutset: char -> bool) {
    exists i, j :: 0 <= i <= j <= |s| && IsMiddle(s, r, cutset, i, j)
  }

  ghost predicate IsMiddle(s: string, r: string, cutset: char -> bool, i: int, j: int)
    requires 0 <= i <= j <= |s|
  {
    r == s[i..j] && forall k :: 0 <= k < |s| && (k < i || j <= k) ==> cutset(s[k])
  }

  lemma MiddleBehind(s: string, r: string, cutset: char -> bool)
    requires s != "" && cutset(s[0]) && Middle(s[1..], r, cutset)
    ensures Middle(s, r, cutset)
  {
    var i, j :| 0 <= i <= j <= |s[1..]| && IsMiddle(s[1..], r, cutset, i, j);
    assert s[1..][i..j] == s[i + 1..j + 1];
    assert forall k :: 1 <= k < |s| ==> s[k] == s[1..][k - 1];
    assert IsMiddle(s, r, cutset, i + 1, j + 1);
  }

  lemma MiddleBefore(s: string, r: string, cutset: char -> bool)
    requires s != "" && cutset(s[|s| - 1]) && Middle(s[..|s| - 1], r, cutset)
    ensures Middle(s, r, cutset)
  {
    var n := |s| - 1;
    var i, j :| 0 <= i <= j <= n && IsMiddle(s[..n], r, cutset, i, j);
    assert s[..n][i..j] == s[i..j];
    assert forall k :: 0 <= k < n ==> s[k] == s[..n][k];
    assert IsMiddle(s, r, cutset, i, j);
  }

  lemma {:induction false} TrimLeavesTheMiddle(s: string, cutset: char -> bool)
    ensures Middle(s, Trim(s, cutset), cutset)
    decreases |s|
  {
    hide Middle;
    if s != "" && cutset(s[0]) {
      TrimLeavesTheMiddle(s[1..], cutset);
      MiddleBehind(s, Trim(s, cutset), cutset);
    } else if s != "" && cutset(s[|s| - 1]) {
      TrimLeavesTheMiddle(s[..|s| - 1], cutset);
      MiddleBefore(s, Trim(s, cutset), cutset);
    } else {
      ItsOwnMiddle(s, cutset);
    }
  }

  lemma ItsOwnMiddle(s: string, cutset: char -> bool)
    ensures Middle(s, s, cutset)
  {
    assert IsMiddle(s, s, cutset, 0, |s|);
  }

  /** What is left of a text is its middle, around which there was only white space, or only braces. */
  lemma TrimmedAway(s: string)
    ensures Middle(s, TrimSpace(s), c => IsSpace(c)) && Middle(s, TrimBraces(s), c => IsBrace(c))
    ensures TrimBraces(s) != "" ==> !IsBrace(TrimBraces(s)[0]) && !IsBrace(TrimBraces(s)[|TrimBraces(s)| - 1])
  {
    TrimLeavesTheMiddle(s, c => IsSpace(c));
    TrimLeavesTheMiddle(s, c => IsBrace(c));
  }

  lemma ThreeParts(s: string, i: nat, j: nat)
    requires i <= j <= |s|
    ensures s == s[..i] + s[i..j] + s[j..]
  {
  }

  lemma MiddleIsBetween(s: string, r: string, i: nat, j: nat)
    requires i <= j <= |s| && IsMiddle(s, r, c => IsSpace(c), i, j)
    ensures Blank(s[..i]) && Blank(s[j..])
  {
    hide IsSpace;
    assert forall k :: 0 <= k < |s| - j ==> s[j..][k] == s[j + k];
  }

  /** The text with its white space before and behind. */
  lemma SpaceAround(s: string)
    ensures exists a, b :: s == a + TrimSpace(s) + b && Blank(a) && Blank(b)
  {
    TrimmedAway(s);
    hide IsMiddle, Trim, TrimSpace, Blank, IsSpace;
    var r := TrimSpace(s);
    var i: nat, j: nat :| i <= j <= |s| && IsMiddle(s, r, c => IsSpace(c), i, j);
    MiddleIsBetween(s, r, i, j);
    ThreeParts(s, i, j);
    assert r == s[i..j] by {
      MiddleText(s, r, i, j);
    }
  }

  lemma MiddleText(s: string, r: string, i: nat, j: nat)
    requires i <= j <= |s| && IsMiddle(s, r, c => IsSpace(c), i, j)
    ensures r == s[i..j]
  {
  }

  /** The name inside a placeholder is what trimming leaves of it. */
  lemma PlaceholderName(name: string)
    requires name != "" && !IsBrace(name[0]) && !IsBrace(name[|name| - 1])
    ensures TrimBraces("{" + name + "}") == name
  {
    var s := "{" + name + "}";
    assert s[1..] == name + "}" && (name + "}")[..|name|] == name;
    var cutset := c => IsBrace(c);
    assert Trim(name, cutset) == name;
    assert Trim(name + "}", cutset) == name;
    assert Trim(s, cutset) == name;
  }

  /** The code points that are white space. */
  lemma SpaceCodes(c: char)
    ensures IsSpace(c) <==> c as int in {
      9, 10, 11, 12, 13, 32, 0x85, 0xA0, 0x1680, 0x2000, 0x2001, 0x2002, 0x2003, 0x2004, 0x2005, 0x2006, 0x2007,
      0x2008, 0x2009, 0x200A, 0x2028, 0x2029, 0x202F, 0x205F, 0x3000}
  {
  }
}
