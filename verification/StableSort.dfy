/** `Array.prototype.sort`: a stable sort by a comparator, given here as "comes before". */
module StableSort {

  function Insert<T>(before: (T, T) -> bool, x: T, s: seq<T>): seq<T> {
    if s != [] && before(x, s[|s| - 1]) then Insert(before, x, s[..|s| - 1]) + [s[|s| - 1]] else s + [x]
  }

  function SortBy<T>(before: (T, T) -> bool, s: seq<T>): seq<T> {
    if s == [] then [] else Insert(before, s[|s| - 1], SortBy(before, s[..|s| - 1]))
  }

  lemma {:induction false} InsertPermutes<T>(before: (T, T) -> bool, x: T, s: seq<T>)
    ensures multiset(Insert(before, x, s)) == multiset(s) + multiset{x}
  {
    if s != [] && before(x, s[|s| - 1]) {
      InsertPermutes(before, x, s[..|s| - 1]);
      assert s == s[..|s| - 1] + [s[|s| - 1]];
    }
  }

  lemma {:induction false} SortPermutes<T>(before: (T, T) -> bool, s: seq<T>)
    ensures multiset(SortBy(before, s)) == multiset(s)
    ensures |SortBy(before, s)| == |s|
  {
    if s != [] {
      var front, last := s[..|s| - 1], s[|s| - 1];
      SortPermutes(before, front);
      assert s == front + [last];
      SortedSnoc(before, front, last);
    }
  }

  lemma SortedSnoc<T>(before: (T, T) -> bool, front: seq<T>, last: T)
    requires multiset(SortBy(before, front)) == multiset(front) && |SortBy(before, front)| == |front|
    ensures multiset(Insert(before, last, SortBy(before, front))) == multiset(front + [last])
    ensures |Insert(before, last, SortBy(before, front))| == |front| + 1
  {
    InsertPermutes(before, last, SortBy(before, front));
    InsertLength(before, last, SortBy(before, front));
    Appended(front, last);
  }

  lemma Appended<T>(front: seq<T>, last: T)
    ensures multiset(front + [last]) == multiset(front) + multiset{last}
  {
  }

  lemma {:induction false} InsertLength<T>(before: (T, T) -> bool, x: T, s: seq<T>)
    ensures |Insert(before, x, s)| == |s| + 1
  {
    if s != [] && before(x, s[|s| - 1]) { InsertLength(before, x, s[..|s| - 1]); }
  }

  /** Never an element after one it comes before. */
  ghost predicate Ordered<T>(before: (T, T) -> bool, s: seq<T>) {
    forall i, j :: 0 <= i < j < |s| ==> !before(s[j], s[i])
  }

  /** What a usable comparator provides on the elements of s. */
  ghost predicate Consistent<T(!new)>(before: (T, T) -> bool, s: set<T>) {
    && (forall x, y :: x in s && y in s && before(x, y) ==> !before(y, x))
    && (forall x, y, z :: x in s && y in s && z in s && !before(x, y) && !before(y, z) ==> !before(x, z))
  }

  lemma {:induction false} InsertOrdered<T(!new)>(before: (T, T) -> bool, x: T, s: seq<T>, u: set<T>)
    requires Ordered(before, s) && Consistent(before, u) && x in u && forall y :: y in s ==> y in u
    ensures Ordered(before, Insert(before, x, s))
  {
    if s != [] {
      var front, last := s[..|s| - 1], s[|s| - 1];
      if before(x, last) {
        InsertOrdered(before, x, front, u);
        InsertPermutes(before, x, front);
        var r := Insert(before, x, front);
        forall i | 0 <= i < |r| ensures !before(last, r[i]) {
          assert r[i] in multiset(r);
          if r[i] != x {
            assert r[i] in multiset(front);
            var k :| 0 <= k < |front| && front[k] == r[i];
            assert s[k] == r[i];
          }
        }
      } else {
        forall i | 0 <= i < |s| ensures !before(x, s[i]) {
          assert s[i] in u;
        }
      }
    }
  }

  lemma {:induction false} SortOrdered<T(!new)>(before: (T, T) -> bool, s: seq<T>, u: set<T>)
    requires Consistent(before, u) && forall y :: y in s ==> y in u
    ensures Ordered(before, SortBy(before, s))
  {
    if s != [] {
      var front := s[..|s| - 1];
      SortOrdered(before, front, u);
      SortPermutes(before, front);
      forall y | y in SortBy(before, front) ensures y in u {
        assert y in multiset(SortBy(before, front));
        assert y in multiset(front);
      }
      InsertOrdered(before, s[|s| - 1], SortBy(before, front), u);
    }
  }
}
