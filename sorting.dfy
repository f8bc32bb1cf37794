/**
 * A stable insertion sort by a numeric key. It stands for the orderings the
 * document store applies to query results (events by id, registrations by
 * time, groups by count); the store leaves the order of equal keys open, and
 * nothing proved elsewhere depends on how ties are broken.
 */
module Sorting {

  /** `s` is in ascending key order. */
  ghost predicate SortedBy<T>(s: seq<T>, key: T -> real) {
    forall i, j :: 0 <= i < j < |s| ==> key(s[i]) <= key(s[j])
  }

  /** Inserts `x` before the first element whose key is not smaller. */
  function InsertBy<T>(x: T, s: seq<T>, key: T -> real): (r: seq<T>)
    ensures multiset(r) == multiset(s) + multiset{x}
    ensures |r| == |s| + 1
  {
    if s == [] || key(x) <= key(s[0]) then [x] + s
    else
      assert s == [s[0]] + s[1..];
      [s[0]] + InsertBy(x, s[1..], key)
  }

  /** Insertion into a sorted sequence keeps it sorted. */
  lemma {:induction false} InsertKeepsSorted<T>(x: T, s: seq<T>, key: T -> real)
    requires SortedBy(s, key)
    ensures SortedBy(InsertBy(x, s, key), key)
  {
    if s != [] && key(x) > key(s[0]) {
      InsertKeepsSorted(x, s[1..], key);
      var tail := InsertBy(x, s[1..], key);
      forall k | 0 <= k < |tail| ensures key(s[0]) <= key(tail[k]) {
        assert tail[k] in multiset(tail);
        if tail[k] != x {
          assert tail[k] in multiset(s[1..]);
        }
      }
    }
  }

  /** `s` in ascending key order: a sorted permutation. */
  function SortBy<T>(s: seq<T>, key: T -> real): (r: seq<T>)
    ensures SortedBy(r, key)
    ensures multiset(r) == multiset(s)
    ensures |r| == |s|
  {
    if s == [] then []
    else
      assert s == [s[0]] + s[1..];
      var rest := SortBy(s[1..], key);
      InsertKeepsSorted(s[0], rest, key);
      InsertBy(s[0], rest, key)
  }

  /** Sorting keeps exactly the elements it was given. */
  lemma SortKeepsElements<T>(s: seq<T>, key: T -> real)
    ensures forall x :: x in SortBy(s, key) <==> x in s
  {
    var r := SortBy(s, key);
    forall x ensures x in r <==> x in s {
      assert x in r <==> x in multiset(r);
      assert x in s <==> x in multiset(s);
    }
  }
}
