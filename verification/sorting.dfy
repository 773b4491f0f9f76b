/** `Array.prototype.sort` with a comparator. ECMAScript requires the sort to
    be stable (section 23.1.3.30 of ECMA-262, 2019 edition onwards), so for a
    consistent comparator its result is the stable sorted order, which
    insertion sort computes: each element goes in front of the first
    element it is not greater than, i.e. ahead of every later equal one. */
module Sorting {

  /** `le(a, b)` is "the comparator of `a` and `b` is not positive". */
  ghost predicate TotalPreorder<T(!new)>(le: (T, T) -> bool)
  {
    && (forall a, b :: le(a, b) || le(b, a))
    && (forall a, b, c :: le(a, b) && le(b, c) ==> le(a, c))
  }

  predicate SortedBy<T>(s: seq<T>, le: (T, T) -> bool)
  {
    forall i, j :: 0 <= i < j < |s| ==> le(s[i], s[j])
  }

  function Insert<T>(x: T, s: seq<T>, le: (T, T) -> bool): (r: seq<T>)
    ensures |r| == |s| + 1
    ensures multiset(r) == multiset(s) + multiset{x}
    decreases |s|
  {
    if |s| == 0 then [x]
    else if le(x, s[0]) then [x] + s
    else
      assert s == [s[0]] + s[1..];
      [s[0]] + Insert(x, s[1..], le)
  }

  function SortBy<T(!new)>(s: seq<T>, le: (T, T) -> bool): (r: seq<T>)
    ensures |r| == |s|
    ensures multiset(r) == multiset(s)
    ensures TotalPreorder(le) ==> SortedBy(r, le)
    decreases |s|
  {
    if |s| == 0 then []
    else
      var rest := SortBy(s[1..], le);
      assert s == [s[0]] + s[1..];
      InsertSorted(s[0], rest, le);
      Insert(s[0], rest, le)
  }

  lemma {:induction false} InsertSorted<T(!new)>(x: T, s: seq<T>, le: (T, T) -> bool)
    ensures TotalPreorder(le) && SortedBy(s, le) ==> SortedBy(Insert(x, s, le), le)
    decreases |s|
  {
    if TotalPreorder(le) && SortedBy(s, le) && |s| > 0 && !le(x, s[0]) {
      var rest := Insert(x, s[1..], le);
      InsertSorted(x, s[1..], le);
      forall j | 0 <= j < |rest|
        ensures le(s[0], rest[j])
      {
        assert rest[j] in multiset(rest);
        if rest[j] != x {
          assert rest[j] in multiset(s[1..]);
          var k :| 0 <= k < |s[1..]| && s[1..][k] == rest[j];
          assert s[k + 1] == rest[j];
        }
      }
    }
  }
}
