/** A stand-in for the C library's `qsort`, which is not part of the repository. */
module Sorting {
  /** The comparison function orders every two values, consistently. */
  ghost predicate Preorder<T(!new)>(cmp: (T, T) -> int) {
    && (forall a, b :: cmp(a, b) <= 0 || cmp(b, a) <= 0)
    && (forall a, b, c :: cmp(a, b) <= 0 && cmp(b, c) <= 0 ==> cmp(a, c) <= 0)
  }

  /** x comes before everything in s. */
  ghost predicate Precedes<T>(x: T, s: seq<T>, cmp: (T, T) -> int) {
    forall i :: 0 <= i < |s| ==> cmp(x, s[i]) <= 0
  }

  ghost predicate Sorted<T>(s: seq<T>, cmp: (T, T) -> int) {
    forall i :: 0 <= i < |s| ==> Precedes(s[i], s[i + 1..], cmp)
  }

  lemma SortedCons<T>(x: T, s: seq<T>, cmp: (T, T) -> int)
    requires Sorted(s, cmp) && Precedes(x, s, cmp)
    ensures Sorted([x] + s, cmp)
  {
    forall i | 0 <= i < |[x] + s| ensures Precedes(([x] + s)[i], ([x] + s)[i + 1..], cmp) {
      if i == 0 {
        assert ([x] + s)[1..] == s;
      } else {
        assert ([x] + s)[i + 1..] == s[i..];
      }
    }
  }

  lemma SortedTail<T>(s: seq<T>, cmp: (T, T) -> int)
    requires Sorted(s, cmp) && s != []
    ensures Sorted(s[1..], cmp) && Precedes(s[0], s[1..], cmp)
  {
    forall i | 0 <= i < |s[1..]| ensures Precedes(s[1..][i], s[1..][i + 1..], cmp) {
      assert s[1..][i] == s[i + 1] && s[1..][i + 1..] == s[i + 2..];
    }
  }

  lemma PrecedesStep<T(!new)>(x: T, s: seq<T>, cmp: (T, T) -> int)
    requires Preorder(cmp) && Sorted(s, cmp) && s != [] && cmp(x, s[0]) <= 0
    ensures Precedes(x, s, cmp)
  {
    SortedTail(s, cmp);
    forall i | 0 < i < |s| ensures cmp(x, s[i]) <= 0 {
      assert s[i] == s[1..][i - 1];
    }
  }

  lemma PrecedesMultiset<T>(x: T, s: seq<T>, y: T, r: seq<T>, cmp: (T, T) -> int)
    requires Precedes(x, s, cmp) && cmp(x, y) <= 0
    requires multiset(r) == multiset(s) + multiset{y}
    ensures Precedes(x, r, cmp)
  {
    forall i | 0 <= i < |r| ensures cmp(x, r[i]) <= 0 {
      assert r[i] in multiset(r);
      if r[i] != y {
        assert r[i] in multiset(s);
        assert r[i] in s;
      }
    }
  }

  function Insert<T>(x: T, s: seq<T>, cmp: (T, T) -> int): (r: seq<T>)
    ensures |r| == |s| + 1
  {
    if s == [] then [x]
    else if cmp(x, s[0]) <= 0 then [x] + s
    else [s[0]] + Insert(x, s[1..], cmp)
  }

  lemma {:induction false} InsertPermutes<T>(x: T, s: seq<T>, cmp: (T, T) -> int)
    ensures multiset(Insert(x, s, cmp)) == multiset(s) + multiset{x}
  {
    if s != [] {
      assert s == [s[0]] + s[1..];
      InsertPermutes(x, s[1..], cmp);
    }
  }

  lemma {:induction false} InsertSorted<T(!new)>(x: T, s: seq<T>, cmp: (T, T) -> int)
    requires Preorder(cmp) && Sorted(s, cmp)
    ensures Sorted(Insert(x, s, cmp), cmp)
  {
    if s == [] {
    } else if cmp(x, s[0]) <= 0 {
      PrecedesStep(x, s, cmp);
      SortedCons(x, s, cmp);
    } else {
      SortedTail(s, cmp);
      InsertSorted(x, s[1..], cmp);
      InsertPermutes(x, s[1..], cmp);
      PrecedesMultiset(s[0], s[1..], x, Insert(x, s[1..], cmp), cmp);
      SortedCons(s[0], Insert(x, s[1..], cmp), cmp);
    }
  }

  function Qsort<T>(s: seq<T>, cmp: (T, T) -> int): (r: seq<T>)
    ensures |r| == |s|
  {
    if s == [] then [] else Insert(s[0], Qsort(s[1..], cmp), cmp)
  }

  lemma {:induction false} QsortPermutes<T>(s: seq<T>, cmp: (T, T) -> int)
    ensures multiset(Qsort(s, cmp)) == multiset(s)
  {
    if s != [] {
      QsortPermutes(s[1..], cmp);
      InsertPermutes(s[0], Qsort(s[1..], cmp), cmp);
      assert s == [s[0]] + s[1..];
    }
  }

  lemma {:induction false} QsortSorts<T(!new)>(s: seq<T>, cmp: (T, T) -> int)
    requires Preorder(cmp)
    ensures Sorted(Qsort(s, cmp), cmp)
  {
    if s != [] {
      QsortSorts(s[1..], cmp);
      InsertSorted(s[0], Qsort(s[1..], cmp), cmp);
    }
  }

  lemma SortedAt<T>(s: seq<T>, cmp: (T, T) -> int, i: nat, j: nat)
    requires Sorted(s, cmp) && i < j < |s|
    ensures cmp(s[i], s[j]) <= 0
  {
    assert s[i + 1..][j - i - 1] == s[j];
  }
}
