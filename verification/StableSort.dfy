/** Python's `list.sort(key=...)`: stable, by an integer key. */
module StableSort {
  ghost predicate Sorted<T>(s: seq<T>, key: T -> int) {
    forall i, j | 0 <= i < j < |s| :: key(s[i]) <= key(s[j])
  }

  /** Puts `x` after every element whose key is not larger. */
  function Insert<T>(s: seq<T>, x: T, key: T -> int): (r: seq<T>)
    requires Sorted(s, key)
    ensures multiset(r) == multiset(s) + multiset{x}
  {
    if s == [] then [x]
    else
      var n := |s| - 1;
      assert s == s[..n] + [s[n]];
      if key(s[n]) <= key(x) then s + [x] else Insert(s[..n], x, key) + [s[n]]
  }

  lemma InsertIsSorted<T>(s: seq<T>, x: T, key: T -> int)
    requires Sorted(s, key)
    ensures Sorted(Insert(s, x, key), key)
  {
    if s != [] && key(s[|s| - 1]) > key(x) {
      var front, last := s[..|s| - 1], s[|s| - 1];
      InsertIsSorted(front, x, key);
      forall y | y in Insert(front, x, key)
        ensures key(y) <= key(last)
      {
        InsertKeepsElements(front, x, key, y);
      }
      AppendLargest(Insert(front, x, key), last, key);
    }
  }

  lemma InsertKeepsElements<T>(s: seq<T>, x: T, key: T -> int, y: T)
    requires Sorted(s, key) && y in Insert(s, x, key)
    ensures y == x || y in s
  {
    assert y in multiset(Insert(s, x, key));
    assert y in multiset(s) || y == x;
  }

  lemma AppendLargest<T>(r: seq<T>, last: T, key: T -> int)
    requires Sorted(r, key) && forall y | y in r :: key(y) <= key(last)
    ensures Sorted(r + [last], key)
  {
    assert forall i | 0 <= i < |r| :: r[i] in r;
  }

  function Sort<T>(s: seq<T>, key: T -> int): (r: seq<T>)
    ensures Sorted(r, key) && multiset(r) == multiset(s)
  {
    if s == [] then []
    else
      var n := |s| - 1;
      assert s == s[..n] + [s[n]];
      InsertIsSorted(Sort(s[..n], key), s[n], key);
      Insert(Sort(s[..n], key), s[n], key)
  }

  lemma SortKeepsElements<T>(s: seq<T>, key: T -> int, x: T)
    ensures |Sort(s, key)| == |s|
    ensures x in Sort(s, key) <==> x in s
  {
    var r := Sort(s, key);
    assert |multiset(r)| == |r| && |multiset(s)| == |s|;
    assert x in multiset(r) <==> x in r;
    assert x in multiset(s) <==> x in s;
  }

  ghost predicate Distinct<T>(s: seq<T>) {
    forall i, j | 0 <= i < j < |s| :: s[i] != s[j]
  }

  lemma {:induction false} DistinctCounts<T>(s: seq<T>)
    ensures Distinct(s) <==> forall x :: multiset(s)[x] <= 1
  {
    if s != [] {
      var n := |s| - 1;
      assert s == s[..n] + [s[n]];
      DistinctCounts(s[..n]);
      if Distinct(s) {
        assert s[n] !in s[..n];
        assert s[n] !in multiset(s[..n]);
      } else if Distinct(s[..n]) {
        var i :| 0 <= i < n && s[i] == s[n];
        assert s[..n][i] in multiset(s[..n]);
        assert multiset(s)[s[n]] >= 2;
      } else {
        var x :| multiset(s[..n])[x] > 1;
        assert multiset(s)[x] >= multiset(s[..n])[x];
      }
    }
  }

  lemma SortKeepsDistinct<T>(s: seq<T>, key: T -> int)
    requires Distinct(s)
    ensures Distinct(Sort(s, key))
  {
    DistinctCounts(s);
    DistinctCounts(Sort(s, key));
  }
}
