/**
 * Python's ordering of `str` values (code point by code point, a proper
 * prefix first) and `sorted` over it, as used to order the credentials
 * report.
 */
module Ordering {

  /** `a < b` on Python strings. */
  predicate Less(a: string, b: string)
    decreases |a|
  {
    |b| > 0 && (|a| == 0 || a[0] < b[0] || (a[0] == b[0] && Less(a[1..], b[1..])))
  }

  lemma {:induction false} LessIrreflexive(a: string)
    ensures !Less(a, a)
    decreases |a|
  {
    if |a| > 0 {
      LessIrreflexive(a[1..]);
    }
  }

  lemma {:induction false} LessTransitive(a: string, b: string, c: string)
    requires Less(a, b) && Less(b, c)
    ensures Less(a, c)
    decreases |a|
  {
    if |a| > 0 && a[0] == b[0] && b[0] == c[0] {
      LessTransitive(a[1..], b[1..], c[1..]);
    }
  }

  lemma {:induction false} LessTotal(a: string, b: string)
    ensures a == b || Less(a, b) || Less(b, a)
    decreases |a|
  {
    if |a| > 0 && |b| > 0 && a[0] == b[0] {
      LessTotal(a[1..], b[1..]);
      if a[1..] == b[1..] {
        assert a == [a[0]] + a[1..] && b == [b[0]] + b[1..];
      }
    }
  }

  lemma LessAsymmetric(a: string, b: string)
    requires Less(a, b)
    ensures !Less(b, a)
  {
    if Less(b, a) {
      LessTransitive(a, b, a);
      LessIrreflexive(a);
    }
  }

  /** `xs` is in ascending order of `key`, as `sorted(xs, key=key)` leaves it. */
  ghost predicate SortedBy<T>(xs: seq<T>, key: T -> string) {
    forall i, j :: 0 <= i < j < |xs| ==> !Less(key(xs[j]), key(xs[i]))
  }

  /** No two elements share a key. */
  ghost predicate DistinctKeys<T>(xs: seq<T>, key: T -> string) {
    forall i, j :: 0 <= i < j < |xs| ==> key(xs[i]) != key(xs[j])
  }

  /** Strictly ascending order of `key`. */
  ghost predicate StrictlySortedBy<T>(xs: seq<T>, key: T -> string) {
    forall i, j :: 0 <= i < j < |xs| ==> Less(key(xs[i]), key(xs[j]))
  }

  /** Places `x` in front of the first element whose key is not smaller. */
  function Insert<T>(x: T, xs: seq<T>, key: T -> string): (r: seq<T>)
    requires SortedBy(xs, key)
    ensures multiset(r) == multiset(xs) + multiset{x}
    ensures SortedBy(r, key)
  {
    if xs == [] then [x]
    else if !Less(key(xs[0]), key(x)) then
      InsertFront(x, xs, key);
      [x] + xs
    else
      var rest := Insert(x, xs[1..], key);
      assert xs == [xs[0]] + xs[1..];
      InsertBehind(x, xs, rest, key);
      [xs[0]] + rest
  }

  lemma InsertFront<T>(x: T, xs: seq<T>, key: T -> string)
    requires SortedBy(xs, key) && |xs| > 0 && !Less(key(xs[0]), key(x))
    ensures SortedBy([x] + xs, key)
  {
    forall j | 0 <= j < |xs|
      ensures !Less(key(xs[j]), key(x))
    {
      if Less(key(xs[j]), key(x)) && j > 0 {
        LessTotal(key(xs[0]), key(xs[j]));
        if Less(key(xs[0]), key(xs[j])) {
          LessTransitive(key(xs[0]), key(xs[j]), key(x));
        }
      }
    }
    assert forall i, j :: 0 <= i < j < |[x] + xs| ==> 
      (i == 0 && ([x] + xs)[j] == xs[j - 1]) || (([x] + xs)[i] == xs[i - 1] && ([x] + xs)[j] == xs[j - 1]);
  }

  lemma InsertBehind<T>(x: T, xs: seq<T>, rest: seq<T>, key: T -> string)
    requires SortedBy(xs, key) && |xs| > 0 && Less(key(xs[0]), key(x))
    requires multiset(rest) == multiset(xs[1..]) + multiset{x} && SortedBy(rest, key)
    ensures SortedBy([xs[0]] + rest, key)
  {
    forall j | 0 <= j < |rest|
      ensures !Less(key(rest[j]), key(xs[0]))
    {
      var y := rest[j];
      assert y in multiset(rest);
      if y == x {
        LessAsymmetric(key(xs[0]), key(x));
      } else {
        assert y in multiset(xs[1..]);
        var k :| 0 <= k < |xs[1..]| && xs[1..][k] == y;
        assert xs[k + 1] == y;
      }
    }
    assert forall i, j :: 0 <= i < j < |[xs[0]] + rest| ==>
      (i == 0 && ([xs[0]] + rest)[j] == rest[j - 1]) || (([xs[0]] + rest)[i] == rest[i - 1] && ([xs[0]] + rest)[j] == rest[j - 1]);
  }

  /** `sorted(xs, key=key)`: a stable insertion sort. */
  function SortBy<T>(xs: seq<T>, key: T -> string): (r: seq<T>)
    ensures multiset(r) == multiset(xs)
    ensures |r| == |xs|
    ensures SortedBy(r, key)
  {
    if xs == [] then []
    else
      assert xs == [xs[0]] + xs[1..];
      Insert(xs[0], SortBy(xs[1..], key), key)
  }

  /** With distinct keys the sorted order is strict. */
  lemma SortedDistinctIsStrict<T>(xs: seq<T>, key: T -> string)
    requires SortedBy(xs, key) && DistinctKeys(xs, key)
    ensures StrictlySortedBy(xs, key)
  {
    forall i, j | 0 <= i < j < |xs|
      ensures Less(key(xs[i]), key(xs[j]))
    {
      LessTotal(key(xs[i]), key(xs[j]));
    }
  }

  /** Sorting a sequence whose keys are distinct yields strictly ascending keys. */
  lemma SortByStrict<T>(xs: seq<T>, key: T -> string)
    requires DistinctKeys(xs, key)
    ensures StrictlySortedBy(SortBy(xs, key), key)
  {
    var r := SortBy(xs, key);
    PermutationKeepsDistinctKeys(xs, r, key);
    SortedDistinctIsStrict(r, key);
  }

  /** A permutation of a sequence with distinct keys has distinct keys. */
  lemma PermutationKeepsDistinctKeys<T>(xs: seq<T>, r: seq<T>, key: T -> string)
    requires DistinctKeys(xs, key) && multiset(r) == multiset(xs)
    ensures DistinctKeys(r, key)
  {
    forall i, j | 0 <= i < j < |r|
      ensures key(r[i]) != key(r[j])
    {
      assert r[i] in multiset(xs) && r[j] in multiset(xs);
      var a :| 0 <= a < |xs| && xs[a] == r[i];
      var b :| 0 <= b < |xs| && xs[b] == r[j];
      if a != b {
        assert key(xs[a]) != key(xs[b]);
      } else {
        TwoOccurrences(r, i, j);
        MultisetCountDistinct(xs, key, a);
        assert false;
      }
    }
  }

  /** An element at two positions occurs at least twice. */
  lemma TwoOccurrences<T>(r: seq<T>, i: nat, j: nat)
    requires i < j < |r| && r[i] == r[j]
    ensures multiset(r)[r[i]] >= 2
  {
    assert r == r[..i] + [r[i]] + r[i + 1..j] + [r[j]] + r[j + 1..];
  }

  /** In a sequence with distinct keys every element occurs once. */
  lemma MultisetCountDistinct<T>(xs: seq<T>, key: T -> string, a: nat)
    requires DistinctKeys(xs, key) && a < |xs|
    ensures multiset(xs)[xs[a]] == 1
  {
    assert xs == xs[..a] + [xs[a]] + xs[a + 1..];
    forall k | 0 <= k < |xs| && k != a
      ensures xs[k] != xs[a]
    {
      assert key(xs[k]) != key(xs[a]);
    }
    assert xs[a] !in xs[..a];
    assert xs[a] !in xs[a + 1..];
  }
}
