/**
 * Stable insertion sort by a caller-supplied total preorder. It stands for
 * Python's `sorted` (over field names) and for SQL `ORDER BY` inside
 * `ARRAY_AGG` (over dates).
 */
module Sorting {

  ghost predicate IsTotalPreorder<T(!new)>(le: (T, T) -> bool) {
    && (forall a, b :: le(a, b) || le(b, a))
    && (forall a, b, c :: le(a, b) && le(b, c) ==> le(a, c))
  }

  predicate SortedBy<T>(s: seq<T>, le: (T, T) -> bool) {
    forall i, j :: 0 <= i < j < |s| ==> le(s[i], s[j])
  }

  /** Inserts x in front of the first element it is not above. */
  function Insert<T(!new)>(x: T, s: seq<T>, le: (T, T) -> bool): (r: seq<T>)
    requires IsTotalPreorder(le)
    requires SortedBy(s, le)
    ensures SortedBy(r, le)
    ensures multiset(r) == multiset(s) + multiset{x}
  {
    if s == [] then [x]
    else if le(x, s[0]) then [x] + s
    else
      var rest := Insert(x, s[1..], le);
      assert s == [s[0]] + s[1..];
      assert forall k :: 0 <= k < |rest| ==> le(s[0], rest[k]) by {
        forall k | 0 <= k < |rest| ensures le(s[0], rest[k]) {
          assert rest[k] in multiset(rest);
          if rest[k] != x {
            assert rest[k] in multiset(s[1..]);
            var j :| 0 <= j < |s[1..]| && s[1..][j] == rest[k];
            assert s[j + 1] == rest[k];
          }
        }
      }
      [s[0]] + rest
  }

  function Sort<T(!new)>(s: seq<T>, le: (T, T) -> bool): (r: seq<T>)
    requires IsTotalPreorder(le)
    ensures SortedBy(r, le)
    ensures multiset(r) == multiset(s)
  {
    if s == [] then []
    else
      assert s == [s[0]] + s[1..];
      Insert(s[0], Sort(s[1..], le), le)
  }

  /** The natural order on integers, as SQL orders dates. */
  predicate IntLe(a: int, b: int) {
    a <= b
  }

  lemma IntLeIsTotalPreorder()
    ensures IsTotalPreorder(IntLe)
  {
  }

  /**
   * The last element of a sorted permutation of s is the maximum of s.
   */
  lemma {:induction false} SortedLastIsMax(sorted: seq<int>, s: seq<int>, m: int)
    requires SortedBy(sorted, IntLe)
    requires multiset(sorted) == multiset(s)
    requires m in s && forall x :: x in s ==> x <= m
    ensures |sorted| > 0 && sorted[|sorted| - 1] == m
  {
    assert m in multiset(sorted);
    var i :| 0 <= i < |sorted| && sorted[i] == m;
    var last := sorted[|sorted| - 1];
    assert last in multiset(s);
    assert last in s;
    if i < |sorted| - 1 {
      assert IntLe(sorted[i], last);
    }
  }
}
