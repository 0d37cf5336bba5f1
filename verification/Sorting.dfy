/** Go's sort.Slice as its documentation describes it: a permutation in order; the order of ties is left open. */
module Sorting {

  ghost predicate StrictWeakOrder<T(!new)>(less: (T, T) -> bool) {
    && (forall x, y :: less(x, y) ==> !less(y, x))
    && (forall x, y, z :: !less(x, y) && !less(y, z) ==> !less(x, z))
  }

  ghost predicate SortedBy<T>(s: seq<T>, less: (T, T) -> bool) {
    forall i, j :: 0 <= i < j < |s| ==> !less(s[j], s[i])
  }

  /** x goes after everything it is not less than and before everything it is less than. */
  lemma InsertKeepsOrder<T(!new)>(s: seq<T>, x: T, i: nat, r: seq<T>, less: (T, T) -> bool)
    requires StrictWeakOrder(less) && SortedBy(s, less) && i <= |s|
    requires i > 0 ==> !less(x, s[i - 1])
    requires forall j :: i <= j < |s| ==> less(x, s[j])
    requires r == s[..i] + [x] + s[i..]
    ensures SortedBy(r, less)
  {
    forall j, k | 0 <= j < k < |r| ensures !less(r[k], r[j]) {
      if k == i {
        assert r[j] == s[j];
        if j < i - 1 {
          assert !less(s[i - 1], s[j]);
        }
      } else if j == i {
        assert r[k] == s[k - 1];
      } else {
        var j', k' := if j < i then j else j - 1, if k < i then k else k - 1;
        assert r[j] == s[j'] && r[k] == s[k'];
      }
    }
  }

  method Insert<T(!new)>(s: seq<T>, x: T, less: (T, T) -> bool) returns (r: seq<T>)
    requires StrictWeakOrder(less) && SortedBy(s, less)
    ensures SortedBy(r, less) && multiset(r) == multiset(s) + multiset{x}
  {
    var i := |s|;
    while i > 0 && less(x, s[i - 1])
      invariant 0 <= i <= |s|
      invariant forall j :: i <= j < |s| ==> less(x, s[j])
    {
      i := i - 1;
    }
    r := s[..i] + [x] + s[i..];
    InsertKeepsOrder(s, x, i, r, less);
    assert s == s[..i] + s[i..];
  }

  method SortSlice<T(!new)>(s: seq<T>, less: (T, T) -> bool) returns (r: seq<T>)
    requires StrictWeakOrder(less)
    ensures SortedBy(r, less) && multiset(r) == multiset(s)
  {
    r := [];
    for i := 0 to |s|
      invariant SortedBy(r, less) && multiset(r) == multiset(s[..i])
    {
      r := Insert(r, s[i], less);
      assert s[..i + 1] == s[..i] + [s[i]];
    }
    assert s[..|s|] == s;
  }
}
