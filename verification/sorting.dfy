/**
 * Ordering a result list by a numeric sort key, as a database `sort` does: the result is a
 * rearrangement of its input in ascending order of the key.
 */
module Sorting {

  /** `s` is in ascending order of `rank`. */
  predicate SortedBy<T>(rank: T -> int, s: seq<T>) {
    forall i, j :: 0 <= i < j < |s| ==> rank(s[i]) <= rank(s[j])
  }

  /** Every element of `s` ranks at least `lo`. */
  predicate RanksAtLeast<T>(rank: T -> int, lo: int, s: seq<T>) {
    forall i :: 0 <= i < |s| ==> lo <= rank(s[i])
  }

  /** `x` placed into `s` ahead of the first element that does not rank below it. */
  function Insert<T>(rank: T -> int, x: T, s: seq<T>): (r: seq<T>)
    ensures |r| == |s| + 1
    ensures multiset(r) == multiset(s) + multiset{x}
  {
    if s == [] || rank(x) <= rank(s[0]) then [x] + s
    else
      var rest := Insert(rank, x, s[1..]);
      assert s == [s[0]] + s[1..];
      [s[0]] + rest
  }

  /** A rearrangement of `s` in ascending order of `rank`; elements of equal rank keep their order. */
  function SortBy<T>(rank: T -> int, s: seq<T>): (r: seq<T>)
    ensures |r| == |s|
    ensures multiset(r) == multiset(s)
    ensures SortedBy(rank, r)
  {
    if s == [] then []
    else
      var rest := SortBy(rank, s[1..]);
      InsertSorted(rank, s[0], rest);
      assert s == [s[0]] + s[1..];
      Insert(rank, s[0], rest)
  }

  /** Inserting into a sorted list keeps it sorted. */
  lemma {:induction false} InsertSorted<T>(rank: T -> int, x: T, s: seq<T>)
    requires SortedBy(rank, s)
    ensures SortedBy(rank, Insert(rank, x, s))
  {
    if s == [] || rank(x) <= rank(s[0]) {
      var r := [x] + s;
      forall i, j | 0 <= i < j < |r| ensures rank(r[i]) <= rank(r[j]) {
        if i == 0 && j > 1 {
          assert rank(s[0]) <= rank(s[j - 1]);
        }
      }
    } else {
      var tail := s[1..];
      assert SortedBy(rank, tail) by {
        forall i, j | 0 <= i < j < |tail| ensures rank(tail[i]) <= rank(tail[j]) {
          assert tail[i] == s[i + 1] && tail[j] == s[j + 1];
        }
      }
      InsertSorted(rank, x, tail);
      assert RanksAtLeast(rank, rank(s[0]), tail) by {
        forall i | 0 <= i < |tail| ensures rank(s[0]) <= rank(tail[i]) {
          assert tail[i] == s[i + 1];
        }
      }
      InsertRanksAtLeast(rank, x, tail, rank(s[0]));
    }
  }

  /** Inserting an element that ranks at least `lo` keeps every element at least `lo`. */
  lemma {:induction false} InsertRanksAtLeast<T>(rank: T -> int, x: T, s: seq<T>, lo: int)
    requires RanksAtLeast(rank, lo, s) && lo <= rank(x)
    ensures RanksAtLeast(rank, lo, Insert(rank, x, s))
  {
    if s != [] && rank(s[0]) < rank(x) {
      var tail := s[1..];
      assert RanksAtLeast(rank, lo, tail) by {
        forall i | 0 <= i < |tail| ensures lo <= rank(tail[i]) {
          assert tail[i] == s[i + 1];
        }
      }
      InsertRanksAtLeast(rank, x, tail, lo);
    }
  }

  /** An element of the sorted list is an element of the input, and the other way round. */
  lemma SortByMembers<T>(rank: T -> int, s: seq<T>, x: T)
    ensures x in SortBy(rank, s) <==> x in s
  {
    var r := SortBy(rank, s);
    assert x in r <==> x in multiset(r);
    assert x in s <==> x in multiset(s);
  }
}
