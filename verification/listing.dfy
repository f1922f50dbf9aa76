/** Ordered listings. The database sorts a query's rows by one column; rows
    with equal keys come back in an order the services do not control, so the
    model only promises the rows and their order by key. */
module Listing {

  /** `s` is in ascending order of `key`. */
  ghost predicate SortedBy<T>(s: seq<T>, key: T -> int) {
    forall i, j :: 0 <= i < j < |s| ==> key(s[i]) <= key(s[j])
  }

  /** No element of `s` occurs twice. */
  ghost predicate Distinct<T>(s: seq<T>) {
    forall i, j :: 0 <= i < j < |s| ==> s[i] != s[j]
  }

  /** Inserts `x` into an ascending sequence, after every element whose key is
      smaller than its own. */
  function Insert<T>(s: seq<T>, x: T, key: T -> int): (r: seq<T>)
    requires SortedBy(s, key)
    ensures SortedBy(r, key)
    ensures multiset(r) == multiset(s) + multiset{x}
    ensures |r| == |s| + 1
    ensures key(r[0]) == key(x) || (|s| > 0 && key(r[0]) == key(s[0]))
  {
    if |s| == 0 then [x]
    else if key(x) <= key(s[0]) then [x] + s
    else
      assert s == [s[0]] + s[1..];
      [s[0]] + Insert(s[1..], x, key)
  }

  /** Inserting a new element into a sequence without repetitions gives
      one without repetitions. */
  lemma {:induction false} InsertKeepsDistinct<T>(s: seq<T>, x: T, key: T -> int)
    requires SortedBy(s, key) && Distinct(s) && x !in s
    ensures Distinct(Insert(s, x, key))
    decreases |s|
  {
    if |s| > 0 && key(x) > key(s[0]) {
      assert s == [s[0]] + s[1..];
      var tail := Insert(s[1..], x, key);
      assert Distinct(s[1..]);
      InsertKeepsDistinct(s[1..], x, key);
      assert s[0] !in s[1..];
      assert s[0] !in multiset(tail);
      assert Insert(s, x, key) == [s[0]] + tail;
    }
  }

  /** Lists a finite set of rows in ascending order of `key`: every row once
      and nothing else. */
  method SortByKey<T(==)>(items: set<T>, key: T -> int) returns (r: seq<T>)
    ensures SortedBy(r, key)
    ensures forall x :: x in r <==> x in items
    ensures |r| == |items|
    ensures Distinct(r)
  {
    r := [];
    var rest := items;
    while rest != {}
      invariant rest <= items
      invariant SortedBy(r, key)
      invariant forall x :: x in r <==> x in items && x !in rest
      invariant |r| + |rest| == |items|
      invariant Distinct(r)
      decreases |rest|
    {
      var x :| x in rest;
      var r' := Insert(r, x, key);
      InsertKeepsDistinct(r, x, key);
      assert forall y :: y in r' <==> y in r || y == x by {
        forall y ensures y in r' <==> y in multiset(r) || y == x {
          assert y in r' <==> y in multiset(r');
        }
      }
      r := r';
      rest := rest - {x};
    }
  }
}
