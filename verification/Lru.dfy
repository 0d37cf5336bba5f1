/** hashicorp's least-recently-used cache as a sequence of entries, most recently used first. */
module Lru {
  import opened Base

  datatype Entry<+V> = Entry(key: string, value: V)

  function Find<V>(l: seq<Entry<V>>, key: string): (r: Option<V>)
    ensures r.None? <==> forall i :: 0 <= i < |l| ==> l[i].key != key
    ensures r.Some? ==> exists i :: 0 <= i < |l| && l[i] == Entry(key, r.value)
  {
    if l == [] then None
    else if l[0].key == key then Some(l[0].value)
    else Find(l[1..], key)
  }

  function Without<V>(l: seq<Entry<V>>, key: string): (r: seq<Entry<V>>)
    ensures |r| <= |l|
    ensures forall i :: 0 <= i < |r| ==> r[i] in l && r[i].key != key
    ensures forall i :: 0 <= i < |l| && l[i].key != key ==> l[i] in r
  {
    if l == [] then []
    else if l[0].key == key then Without(l[1..], key)
    else [l[0]] + Without(l[1..], key)
  }

  /** Put a value in front; if that is one too many, the oldest entry goes. */
  function Add<V>(l: seq<Entry<V>>, size: nat, key: string, value: V): (r: seq<Entry<V>>)
    ensures size > 0 ==> r != [] && r[0] == Entry(key, value)
    ensures forall i :: 0 <= i < |r| ==> r[i] == Entry(key, value) || r[i] in l
  {
    var r := [Entry(key, value)] + Without(l, key);
    if |r| > size then r[..|r| - 1] else r
  }

  /** A lookup that hits moves its entry to the front. */
  function Touch<V>(l: seq<Entry<V>>, key: string): (r: seq<Entry<V>>)
    ensures forall i :: 0 <= i < |r| ==> r[i] in l
    ensures Find(l, key).Some? ==> r != [] && r[0] == Entry(key, Find(l, key).value)
  {
    match Find(l, key)
    case Some(v) => [Entry(key, v)] + Without(l, key)
    case None => l
  }

  ghost predicate Distinct<V>(l: seq<Entry<V>>) {
    forall i, j :: 0 <= i < j < |l| ==> l[i].key != l[j].key
  }

  lemma {:induction false} WithoutDistinct<V>(l: seq<Entry<V>>, key: string)
    requires Distinct(l)
    ensures Distinct(Without(l, key))
  {
    if l != [] {
      WithoutDistinct(l[1..], key);
    }
  }

  lemma {:induction false} WithoutSize<V>(l: seq<Entry<V>>, key: string)
    requires Distinct(l)
    ensures if Find(l, key).Some? then |Without(l, key)| == |l| - 1 else Without(l, key) == l
  {
    if l != [] {
      WithoutSize(l[1..], key);
      if l[0].key == key {
        assert forall i :: 0 <= i < |l[1..]| ==> l[1..][i].key != key;
      }
    }
  }

  lemma AddKeepsShape<V>(l: seq<Entry<V>>, size: nat, key: string, value: V)
    requires Distinct(l) && |l| <= size && size > 0
    ensures Distinct(Add(l, size, key, value)) && |Add(l, size, key, value)| <= size
  {
    WithoutDistinct(l, key);
  }

  lemma TouchKeepsShape<V>(l: seq<Entry<V>>, key: string)
    requires Distinct(l)
    ensures Distinct(Touch(l, key)) && |Touch(l, key)| == |l|
  {
    WithoutDistinct(l, key);
    WithoutSize(l, key);
  }

  lemma {:induction false} FindIn<V>(l: seq<Entry<V>>, key: string, i: nat)
    requires Distinct(l) && i < |l| && l[i].key == key
    ensures Find(l, key) == Some(l[i].value)
  {
    if i > 0 {
      FindIn(l[1..], key, i - 1);
    }
  }

  /** What is found depends only on the set of entries. */
  lemma SameEntriesSameFind<V>(a: seq<Entry<V>>, b: seq<Entry<V>>, key: string)
    requires Distinct(a) && Distinct(b)
    requires forall i :: 0 <= i < |a| && a[i].key == key ==> a[i] in b
    requires forall i :: 0 <= i < |b| && b[i].key == key ==> b[i] in a
    ensures Find(a, key) == Find(b, key)
  {
    if Find(a, key).Some? {
      var i :| 0 <= i < |a| && a[i] == Entry(key, Find(a, key).value);
      var j :| 0 <= j < |b| && b[j] == a[i];
      FindIn(b, key, j);
    }
  }

  lemma FindAfterTouch<V>(l: seq<Entry<V>>, key: string, other: string)
    requires Distinct(l)
    ensures Find(Touch(l, key), other) == Find(l, other)
  {
    TouchKeepsShape(l, key);
    forall i | 0 <= i < |l| && l[i].key == other ensures l[i] in Touch(l, key) {
      FindIn(l, other, i);
    }
    SameEntriesSameFind(Touch(l, key), l, other);
  }

  lemma FindAfterRemove<V>(l: seq<Entry<V>>, key: string, other: string)
    requires Distinct(l)
    ensures Find(Without(l, key), other) == if other == key then None else Find(l, other)
  {
    WithoutDistinct(l, key);
    if other != key {
      SameEntriesSameFind(Without(l, key), l, other);
    }
  }

  /** Adding never changes what another key finds, except that the oldest entry may go. */
  lemma FindAfterAdd<V>(l: seq<Entry<V>>, size: nat, key: string, value: V, other: string)
    requires Distinct(l) && |l| <= size && size > 0
    ensures Find(Add(l, size, key, value), key) == Some(value)
    ensures other != key ==> Find(Add(l, size, key, value), other) in {None, Find(l, other)}
    ensures other != key && |Add(l, size, key, value)| == |Without(l, key)| + 1
      ==> Find(Add(l, size, key, value), other) == Find(l, other)
  {
    AddKeepsShape(l, size, key, value);
    var r := Add(l, size, key, value);
    FindIn(r, key, 0);
    var full := [Entry(key, value)] + Without(l, key);
    if other != key {
      if Find(r, other).Some? {
        var i :| 0 <= i < |r| && r[i] == Entry(other, Find(r, other).value);
        assert full[i] == r[i];
        assert r[i] in Without(l, key);
        var j :| 0 <= j < |l| && l[j] == r[i];
        FindIn(l, other, j);
      }
      if |r| == |full| {
        SameEntriesSameFind(r, l, other);
      }
    }
  }

  /** Entries with distinct keys from a set are no more than the set's size. */
  lemma {:induction false} DistinctKeysFit<V>(l: seq<Entry<V>>, n: nat, keys: set<string>)
    requires Distinct(l) && n <= |l| && forall k :: 0 <= k < n ==> l[k].key in keys
    ensures n <= |keys|
  {
    if n > 0 {
      DistinctKeysFit(l, n - 1, keys - {l[n - 1].key});
    }
  }
}
