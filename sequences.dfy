/** Sequence helpers shared by the queries: the `WHERE` filter, the
    `ORDER BY ... DESC` sort and the uniqueness constraints of the tables. */
module Sequences {

  /** `s` is in non-increasing order of `key`. */
  ghost predicate SortedDesc<T>(s: seq<T>, key: T -> int) {
    forall i, j :: 0 <= i < j < |s| ==> key(s[i]) >= key(s[j])
  }

  /** Inserts `x` into the sorted `s`, before the first element whose key is
      not larger than `x`'s. */
  function InsertDesc<T(==)>(x: T, s: seq<T>, key: T -> int): (r: seq<T>)
    requires SortedDesc(s, key)
    ensures SortedDesc(r, key)
    ensures multiset(r) == multiset(s) + multiset{x}
  {
    if |s| == 0 then [x]
    else if key(x) >= key(s[0]) then
      ConsSorted(x, s, key);
      [x] + s
    else
      var t := InsertDesc(x, s[1..], key);
      assert s == [s[0]] + s[1..];
      BoundedByHead(s, x, t, key);
      ConsSorted(s[0], t, key);
      [s[0]] + t
  }

  /** Putting `h` in front of a sorted sequence keeps it sorted when `h`'s key
      bounds every key of the sequence (it suffices that it bounds the first). */
  lemma ConsSorted<T>(h: T, t: seq<T>, key: T -> int)
    requires SortedDesc(t, key)
    requires |t| > 0 ==> key(h) >= key(t[0])
    ensures SortedDesc([h] + t, key)
  {
    forall i, j | 0 <= i < j < |[h] + t| ensures key(([h] + t)[i]) >= key(([h] + t)[j]) {
      if i == 0 && j > 1 {
        assert key(t[0]) >= key(t[j - 1]);
      }
    }
  }

  /** Every element of `t`, taken from the tail of `s` or equal to `x`, has a key
      the head of `s` bounds, so `t` can start with that bound. */
  lemma BoundedByHead<T>(s: seq<T>, x: T, t: seq<T>, key: T -> int)
    requires |s| > 0 && SortedDesc(s, key) && key(x) < key(s[0])
    requires multiset(t) == multiset(s[1..]) + multiset{x}
    requires SortedDesc(t, key)
    ensures |t| > 0 ==> key(s[0]) >= key(t[0])
  {
    if |t| > 0 {
      assert t[0] in multiset(t);
      if t[0] != x {
        assert t[0] in s[1..];
        var k :| 1 <= k < |s| && s[k] == t[0];
      }
    }
  }

  /** The rows of `s` in non-increasing order of `key` (insertion sort; the
      order among equal keys is the one thing the database leaves open). */
  function SortDesc<T(==)>(s: seq<T>, key: T -> int): (r: seq<T>)
    ensures SortedDesc(r, key)
    ensures multiset(r) == multiset(s)
  {
    if |s| == 0 then []
    else
      assert s == [s[0]] + s[1..];
      InsertDesc(s[0], SortDesc(s[1..], key), key)
  }

  /** The elements of `s` that satisfy `p`, in their original order. */
  function Filter<T(==,!new)>(s: seq<T>, p: T -> bool): (r: seq<T>)
    ensures forall x :: multiset(r)[x] == if p(x) then multiset(s)[x] else 0
    ensures forall x :: x in r <==> x in s && p(x)
    ensures |r| <= |s|
  {
    if |s| == 0 then []
    else
      assert s == [s[0]] + s[1..];
      var rest := Filter(s[1..], p);
      assert forall x :: x in rest <==> x in multiset(rest);
      if p(s[0]) then [s[0]] + rest else rest
  }

  /** No two positions of `s` share a key: the shape of a primary key or a
      unique constraint. */
  ghost predicate Distinct<T, K>(s: seq<T>, key: T -> K) {
    forall i, j :: 0 <= i < j < |s| ==> key(s[i]) != key(s[j])
  }

  lemma {:induction false} FilterKeepsDistinct<T(!new), K>(s: seq<T>, p: T -> bool, key: T -> K)
    requires Distinct(s, key)
    ensures Distinct(Filter(s, p), key)
  {
    if |s| > 0 {
      FilterKeepsDistinct(s[1..], p, key);
      var rest := Filter(s[1..], p);
      assert forall x :: x in rest ==> key(x) != key(s[0]) by {
        forall x | x in rest ensures key(x) != key(s[0]) {
          var k :| 1 <= k < |s| && s[k] == x;
        }
      }
    }
  }

  /** Appending an element whose key is new keeps the keys distinct. */
  lemma AppendKeepsDistinct<T, K>(s: seq<T>, x: T, key: T -> K)
    requires Distinct(s, key)
    requires forall y :: y in s ==> key(y) != key(x)
    ensures Distinct(s + [x], key)
  {
    forall i, j | 0 <= i < j < |s + [x]| ensures key((s + [x])[i]) != key((s + [x])[j]) {
      assert (s + [x])[i] == s[i];
      if j == |s| {
        assert s[i] in s;
      }
    }
  }
}
