/** A stable insertion sort and what it guarantees. */
module Sorting {

  /** Put `x` behind everything that is not greater. */
  function Insert<T>(s: seq<T>, x: T, le: (T, T) -> bool): seq<T> {
    if s == [] then [x]
    else if le(s[|s| - 1], x) then s + [x]
    else Insert(s[..|s| - 1], x, le) + [s[|s| - 1]]
  }

  function Sort<T>(s: seq<T>, le: (T, T) -> bool): seq<T> {
    if s == [] then [] else Insert(Sort(s[..|s| - 1], le), s[|s| - 1], le)
  }

  ghost predicate IsOrder<T(!new)>(le: (T, T) -> bool) {
    && (forall a, b :: le(a, b) || le(b, a))
    && forall a, b, c :: le(a, b) && le(b, c) ==> le(a, c)
  }

  predicate Ordered<T>(s: seq<T>, le: (T, T) -> bool) {
    forall i, j :: 0 <= i < j < |s| ==> le(s[i], s[j])
  }

  lemma {:induction false} InsertKeeps<T>(s: seq<T>, x: T, le: (T, T) -> bool)
    ensures multiset(Insert(s, x, le)) == multiset(s) + multiset{x}
  {
    if s != [] {
      assert s == s[..|s| - 1] + [s[|s| - 1]];
      if !le(s[|s| - 1], x) { InsertKeeps(s[..|s| - 1], x, le); }
    }
  }

  /** Sorting permutes. */
  lemma {:induction false} SortKeeps<T>(s: seq<T>, le: (T, T) -> bool)
    ensures multiset(Sort(s, le)) == multiset(s)
  {
    if s != [] {
      assert s == s[..|s| - 1] + [s[|s| - 1]];
      SortKeeps(s[..|s| - 1], le);
      InsertKeeps(Sort(s[..|s| - 1], le), s[|s| - 1], le);
    }
  }

  lemma {:induction false} InsertOrdered<T(!new)>(s: seq<T>, x: T, le: (T, T) -> bool)
    requires IsOrder(le) && Ordered(s, le)
    ensures Ordered(Insert(s, x, le), le)
  {
    if s != [] {
      var rest, last := s[..|s| - 1], s[|s| - 1];
      if le(last, x) {
        forall i | 0 <= i < |s| ensures le(s[i], x) { assert i < |s| - 1 ==> le(s[i], last); }
      } else {
        InsertOrdered(rest, x, le);
        InsertKeeps(rest, x, le);
        forall y | y in Insert(rest, x, le) ensures le(y, last) {
          assert y in multiset(Insert(rest, x, le));
          assert y in rest || y == x;
        }
      }
    }
  }

  lemma {:induction false} SortOrders<T(!new)>(s: seq<T>, le: (T, T) -> bool)
    requires IsOrder(le)
    ensures Ordered(Sort(s, le), le)
  {
    if s != [] {
      SortOrders(s[..|s| - 1], le);
      InsertOrdered(Sort(s[..|s| - 1], le), s[|s| - 1], le);
    }
  }
}
