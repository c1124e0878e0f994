/** Facts about sequences and sets used by the launch filters and the statistics. */
module Collections {

  /** `sub` is obtained from `s` by deleting elements, the rest keeping their order. */
  predicate IsSubsequence<T(==)>(sub: seq<T>, s: seq<T>)
    decreases |s|
  {
    if sub == [] then true
    else if s == [] then false
    else (sub[|sub| - 1] == s[|s| - 1] && IsSubsequence(sub[..|sub| - 1], s[..|s| - 1]))
         || IsSubsequence(sub, s[..|s| - 1])
  }

  predicate StrictlyIncreasing(s: seq<int>) {
    forall i, j :: 0 <= i < j < |s| ==> s[i] < s[j]
  }

  /** No two elements of `s` have the same key. */
  predicate DistinctKeys<T>(s: seq<T>, key: T -> int) {
    forall i, j :: 0 <= i < j < |s| ==> key(s[i]) != key(s[j])
  }

  /** The keys of `s` never decrease from left to right. */
  predicate SortedBy<T>(s: seq<T>, key: T -> int) {
    forall i, j :: 0 <= i < j < |s| ==> key(s[i]) <= key(s[j])
  }

  /** The keys of `s` increase strictly from left to right. */
  predicate StrictlySortedBy<T>(s: seq<T>, key: T -> int) {
    forall i, j :: 0 <= i < j < |s| ==> key(s[i]) < key(s[j])
  }

  /** `x` placed into `s` before the first element whose key is not smaller. */
  function InsertBy<T>(s: seq<T>, x: T, key: T -> int): (r: seq<T>)
    ensures multiset(r) == multiset(s) + multiset{x}
  {
    if s == [] || key(x) <= key(s[0]) then [x] + s
    else
      assert s == [s[0]] + s[1..];
      [s[0]] + InsertBy(s[1..], x, key)
  }

  /** Every element of an insertion result is the inserted one or one of the old ones. */
  lemma InsertByMembers<T>(s: seq<T>, x: T, key: T -> int)
    ensures forall y :: y in InsertBy(s, x, key) ==> y == x || y in s
  {
    var r := InsertBy(s, x, key);
    forall y | y in r
      ensures y == x || y in s
    {
      assert y in multiset(r);
    }
  }

  /** Prepending an element whose key is at most every key of a sorted sequence keeps
      it sorted. */
  lemma ConsSorted<T>(h: T, rest: seq<T>, key: T -> int)
    requires SortedBy(rest, key)
    requires forall y :: y in rest ==> key(h) <= key(y)
    ensures SortedBy([h] + rest, key)
  {
    var r := [h] + rest;
    forall i, j | 0 <= i < j < |r|
      ensures key(r[i]) <= key(r[j])
    {
      assert r[j] == rest[j - 1] && r[j] in rest;
      if i > 0 {
        assert r[i] == rest[i - 1];
      }
    }
  }

  /** Prepending an element whose key is below every key of a strictly sorted sequence
      keeps it strictly sorted. */
  lemma ConsStrict<T>(h: T, rest: seq<T>, key: T -> int)
    requires StrictlySortedBy(rest, key)
    requires forall y :: y in rest ==> key(h) < key(y)
    ensures StrictlySortedBy([h] + rest, key)
  {
    var r := [h] + rest;
    forall i, j | 0 <= i < j < |r|
      ensures key(r[i]) < key(r[j])
    {
      assert r[j] == rest[j - 1] && r[j] in rest;
      if i > 0 {
        assert r[i] == rest[i - 1];
      }
    }
  }

  /** Inserting into a sorted sequence keeps it sorted. */
  lemma {:induction false} InsertBySorted<T>(s: seq<T>, x: T, key: T -> int)
    requires SortedBy(s, key)
    ensures SortedBy(InsertBy(s, x, key), key)
  {
    if s == [] {
      ConsSorted(x, s, key);
    } else if key(x) <= key(s[0]) {
      forall y | y in s
        ensures key(x) <= key(y)
      {
        var k :| 0 <= k < |s| && s[k] == y;
      }
      ConsSorted(x, s, key);
    } else {
      var rest := InsertBy(s[1..], x, key);
      InsertBySorted(s[1..], x, key);
      InsertByMembers(s[1..], x, key);
      forall y | y in rest
        ensures key(s[0]) <= key(y)
      {
        if y != x {
          var k :| 0 <= k < |s[1..]| && s[1..][k] == y;
          assert s[k + 1] == y;
        }
      }
      ConsSorted(s[0], rest, key);
    }
  }

  /** Inserting a new key into a strictly sorted sequence keeps it strictly sorted. */
  lemma {:induction false} InsertByStrict<T>(s: seq<T>, x: T, key: T -> int)
    requires StrictlySortedBy(s, key)
    requires forall y :: y in s ==> key(y) != key(x)
    ensures StrictlySortedBy(InsertBy(s, x, key), key)
  {
    if s == [] {
      ConsStrict(x, s, key);
    } else if key(x) <= key(s[0]) {
      assert s[0] in s;
      forall y | y in s
        ensures key(x) < key(y)
      {
        var k :| 0 <= k < |s| && s[k] == y;
      }
      ConsStrict(x, s, key);
    } else {
      var rest := InsertBy(s[1..], x, key);
      InsertByStrict(s[1..], x, key);
      InsertByMembers(s[1..], x, key);
      forall y | y in rest
        ensures key(s[0]) < key(y)
      {
        if y != x {
          var k :| 0 <= k < |s[1..]| && s[1..][k] == y;
          assert s[k + 1] == y;
        }
      }
      ConsStrict(s[0], rest, key);
    }
  }

  /** Stable insertion sort by key: what `Array.prototype.sort` computes with the
      comparator `(a, b) => key(a) - key(b)`. */
  function SortBy<T>(s: seq<T>, key: T -> int): (r: seq<T>)
    ensures multiset(r) == multiset(s)
  {
    if s == [] then []
    else
      assert s == [s[0]] + s[1..];
      InsertBy(SortBy(s[1..], key), s[0], key)
  }

  /** The sorted sequence is ordered by key, strictly so when the keys are distinct. */
  lemma {:induction false} SortBySorted<T>(s: seq<T>, key: T -> int)
    ensures SortedBy(SortBy(s, key), key)
    ensures DistinctKeys(s, key) ==> StrictlySortedBy(SortBy(s, key), key)
  {
    if s != [] {
      var sorted := SortBy(s[1..], key);
      SortBySorted(s[1..], key);
      forall y | y in sorted
        ensures y in s[1..]
      {
        assert y in multiset(sorted);
      }
      InsertBySorted(sorted, s[0], key);
      if DistinctKeys(s, key) {
        assert DistinctKeys(s[1..], key);
        forall y | y in sorted
          ensures key(y) != key(s[0])
        {
          var k :| 0 <= k < |s[1..]| && s[1..][k] == y;
          assert s[k + 1] == y;
        }
        InsertByStrict(sorted, s[0], key);
      }
    }
  }

  /** Sorting keeps the length and exactly the elements it was given. */
  lemma SortByMembers<T>(s: seq<T>, key: T -> int)
    ensures |SortBy(s, key)| == |s|
    ensures forall x :: x in SortBy(s, key) <==> x in s
  {
    var r := SortBy(s, key);
    assert |r| == |multiset(r)| == |multiset(s)| == |s|;
    forall x
      ensures x in r <==> x in s
    {
      assert x in r <==> x in multiset(r);
      assert x in s <==> x in multiset(s);
    }
  }

  /** A non-empty sequence holds its first element. */
  lemma HeadIn<T>(s: seq<T>)
    ensures s != [] ==> s[0] in s
  {
  }

  /** A strictly increasing sequence is determined by the elements it holds. */
  lemma {:induction false} StrictlyIncreasingUnique(a: seq<int>, b: seq<int>)
    requires StrictlyIncreasing(a) && StrictlyIncreasing(b)
    requires forall x :: x in a <==> x in b
    ensures a == b
    decreases |a|
  {
    if a == [] {
      HeadIn(b);
    } else {
      assert a[0] in a;
      assert a[0] in b;
      assert b[0] in b;
      assert b[0] in a;
      assert a[0] == b[0];
      forall x
        ensures x in a[1..] <==> x in b[1..]
      {
        if x in a[1..] {
          assert x in b && x != b[0];
        }
        if x in b[1..] {
          assert x in a && x != a[0];
        }
      }
      StrictlyIncreasingUnique(a[1..], b[1..]);
      assert a == [a[0]] + a[1..] && b == [b[0]] + b[1..];
    }
  }
}
