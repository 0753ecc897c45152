/** The `ORDER BY <date column> [DESC]` of the repository queries: a sort of rows by a date key.
    Rows with equal keys may come back in any order from the database; the model fixes one. */
module Sorting {
  import opened Calendar

  /** `a` may come before `b` in ascending, or in descending, order. */
  predicate InOrder(a: Date, b: Date, descending: bool) {
    if descending then DateLe(b, a) else DateLe(a, b)
  }

  ghost predicate SortedBy<T>(s: seq<T>, key: T -> Date, descending: bool) {
    forall i, j :: 0 <= i < j < |s| ==> InOrder(key(s[i]), key(s[j]), descending)
  }

  /** `s` with `x` inserted at its place in a sorted sequence. */
  function Insert<T>(x: T, s: seq<T>, key: T -> Date, descending: bool): (r: seq<T>)
    requires SortedBy(s, key, descending)
    ensures SortedBy(r, key, descending)
    ensures multiset(r) == multiset(s) + multiset{x}
    decreases |s|
  {
    if s == [] then [x]
    else if InOrder(key(x), key(s[0]), descending) then
      assert forall k :: 0 <= k < |s| ==> InOrder(key(x), key(s[k]), descending) by {
        forall k | 0 <= k < |s| ensures InOrder(key(x), key(s[k]), descending) {
          DateLeTotalOrder(key(x), key(s[0]), key(s[k]));
          DateLeTotalOrder(key(s[k]), key(s[0]), key(x));
        }
      }
      [x] + s
    else
      var tail := Insert(x, s[1..], key, descending);
      assert s == [s[0]] + s[1..];
      DateLeTotalOrder(key(x), key(s[0]), key(x));
      assert forall k :: 0 <= k < |tail| ==> InOrder(key(s[0]), key(tail[k]), descending) by {
        forall k | 0 <= k < |tail| ensures InOrder(key(s[0]), key(tail[k]), descending) {
          assert tail[k] in multiset(tail);
          if tail[k] != x {
            assert tail[k] in multiset(s[1..]);
            var j :| 0 <= j < |s[1..]| && s[1..][j] == tail[k];
            assert s[j + 1] == tail[k];
          }
        }
      }
      [s[0]] + tail
  }

  /** The rows of `s` ordered by `key`, ascending or descending. */
  function SortBy<T>(s: seq<T>, key: T -> Date, descending: bool): (r: seq<T>)
    ensures SortedBy(r, key, descending)
    ensures multiset(r) == multiset(s)
    decreases |s|
  {
    if s == [] then []
    else
      assert s == [s[0]] + s[1..];
      Insert(s[0], SortBy(s[1..], key, descending), key, descending)
  }

  lemma SortedMembers<T>(s: seq<T>, key: T -> Date, descending: bool, x: T)
    ensures x in SortBy(s, key, descending) <==> x in s
  {
    var r := SortBy(s, key, descending);
    assert x in r <==> x in multiset(r);
    assert x in s <==> x in multiset(s);
  }
}
