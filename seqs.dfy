/** The query building blocks behind Spring Data's derived finders:
    a filtering `WHERE`, a first-match lookup, and `ORDER BY ... DESC`. */
module Seqs {
  import opened Common

  /** The rows of `s` that satisfy `p`, in table order. */
  function Filter<T(!new)>(s: seq<T>, p: T -> bool): (r: seq<T>)
    ensures |r| <= |s|
    ensures forall x :: x in r <==> x in s && p(x)
    ensures forall i :: 0 <= i < |r| ==> p(r[i])
  {
    if s == [] then []
    else
      assert s == [s[0]] + s[1..];
      (if p(s[0]) then [s[0]] else []) + Filter(s[1..], p)
  }

  /** Filtering a table with one more row at the end. */
  lemma {:induction false} FilterSnoc<T(!new)>(s: seq<T>, x: T, p: T -> bool)
    ensures Filter(s + [x], p) == Filter(s, p) + (if p(x) then [x] else [])
  {
    if s == [] {
      assert [] + [x] == [x];
      assert Filter([x], p) == (if p(x) then [x] else []) + Filter([], p);
    } else {
      var head: seq<T> := if p(s[0]) then [s[0]] else [];
      assert (s + [x])[0] == s[0];
      assert (s + [x])[1..] == s[1..] + [x];
      assert Filter(s + [x], p) == head + Filter(s[1..] + [x], p);
      FilterSnoc(s[1..], x, p);
      assert Filter(s, p) == head + Filter(s[1..], p);
    }
  }

  /** The position of the first row of `s` that satisfies `p`, if any. */
  function FirstIndex<T(!new)>(s: seq<T>, p: T -> bool): (r: Option<nat>)
    ensures r.Some? ==> r.value < |s| && p(s[r.value])
    ensures r.Some? ==> forall j :: 0 <= j < r.value ==> !p(s[j])
    ensures r.None? <==> forall j :: 0 <= j < |s| ==> !p(s[j])
  {
    if s == [] then None
    else if p(s[0]) then Some(0)
    else
      match FirstIndex(s[1..], p)
      case None => None
      case Some(k) => Some(k + 1)
  }

  /** The first `n` rows of `s` (SQL `LIMIT n`). */
  function Take<T(!new)>(s: seq<T>, n: nat): (r: seq<T>)
    ensures |r| == if |s| < n then |s| else n
    ensures r <= s
  {
    if |s| <= n then s else s[..n]
  }

  /** `s` is ordered by `key` from the largest to the smallest. */
  predicate SortedDesc<T(!new)>(s: seq<T>, key: T -> int) {
    forall i, j :: 0 <= i < j < |s| ==> key(s[i]) >= key(s[j])
  }

  /** Inserts `x` into the descending `s` before the first row whose key is
      not larger than `x`'s, so that `x` precedes the rows it ties with. */
  function InsertDesc<T(!new)>(x: T, s: seq<T>, key: T -> int): (r: seq<T>)
    requires SortedDesc(s, key)
    ensures SortedDesc(r, key)
    ensures multiset(r) == multiset(s) + multiset{x}
    ensures |r| == |s| + 1
    ensures forall y :: y in r <==> y in s || y == x
  {
    if s == [] || key(s[0]) <= key(x) then [x] + s
    else
      var t := InsertDesc(x, s[1..], key);
      assert s == [s[0]] + s[1..];
      assert forall j :: 0 <= j < |t| ==> key(s[0]) >= key(t[j]) by {
        forall j | 0 <= j < |t| ensures key(s[0]) >= key(t[j]) {
          assert t[j] in t;
        }
      }
      [s[0]] + t
  }

  /** `ORDER BY key DESC` as a stable insertion sort: rows with equal keys
      keep their table order. */
  function SortDesc<T(!new)>(s: seq<T>, key: T -> int): (r: seq<T>)
    ensures SortedDesc(r, key)
    ensures multiset(r) == multiset(s)
    ensures |r| == |s|
    ensures forall y :: y in r <==> y in s
  {
    if s == [] then []
    else
      assert s == [s[0]] + s[1..];
      InsertDesc(s[0], SortDesc(s[1..], key), key)
  }

  /** In a descending sequence the first row has the largest key. */
  lemma HeadIsMaximal<T(!new)>(s: seq<T>, key: T -> int)
    requires SortedDesc(s, key) && s != []
    ensures forall y :: y in s ==> key(y) <= key(s[0])
  {
    forall y | y in s ensures key(y) <= key(s[0]) {
      var j :| 0 <= j < |s| && s[j] == y;
      if j > 0 { assert key(s[0]) >= key(s[j]); }
    }
  }
}
