/** Sorting by an integer key. Where keys are distinct the result does not depend on the algorithm (`SortedUnique`). */
module Sorting {

  ghost predicate SortedBy<T>(key: T -> int, s: seq<T>) {
    forall i, j :: 0 <= i < j < |s| ==> key(s[i]) <= key(s[j])
  }

  ghost predicate DistinctBy<T, K>(key: T -> K, s: seq<T>) {
    forall i, j :: 0 <= i < j < |s| ==> key(s[i]) != key(s[j])
  }

  /** Put `x` after all elements whose key is not larger. */
  function InsertBy<T>(key: T -> int, x: T, s: seq<T>): (r: seq<T>)
    ensures |r| == |s| + 1
  {
    if s == [] then [x]
    else
      var n := |s| - 1;
      if key(s[n]) <= key(x) then s + [x] else InsertBy(key, x, s[..n]) + [s[n]]
  }

  function SortBy<T>(key: T -> int, s: seq<T>): (r: seq<T>)
    ensures |r| == |s|
  {
    if s == [] then [] else InsertBy(key, s[|s| - 1], SortBy(key, s[..|s| - 1]))
  }

  lemma {:induction false} InsertPermutes<T>(key: T -> int, x: T, s: seq<T>)
    ensures multiset(InsertBy(key, x, s)) == multiset(s) + multiset{x}
  {
    if s != [] {
      InsertPermutes(key, x, s[..|s| - 1]);
      assert s == s[..|s| - 1] + [s[|s| - 1]];
    }
  }

  lemma {:induction false} InsertSorts<T>(key: T -> int, x: T, s: seq<T>)
    requires SortedBy(key, s)
    ensures SortedBy(key, InsertBy(key, x, s))
  {
    if s != [] {
      var n := |s| - 1;
      if key(s[n]) > key(x) {
        InsertSorts(key, x, s[..n]);
        InsertPermutes(key, x, s[..n]);
        var r := InsertBy(key, x, s[..n]);
        forall i | 0 <= i < |r| ensures key(r[i]) <= key(s[n]) {
          assert r[i] in multiset(r);
        }
      }
    }
  }

  lemma {:induction false} SortPermutes<T>(key: T -> int, s: seq<T>)
    ensures multiset(SortBy(key, s)) == multiset(s)
  {
    if s != [] {
      var n := |s| - 1;
      SortPermutes(key, s[..n]);
      InsertPermutes(key, s[n], SortBy(key, s[..n]));
      assert s == s[..n] + [s[n]];
    }
  }

  lemma {:induction false} SortSorts<T>(key: T -> int, s: seq<T>)
    ensures SortedBy(key, SortBy(key, s))
  {
    if s != [] {
      var n := |s| - 1;
      SortSorts(key, s[..n]);
      InsertSorts(key, s[n], SortBy(key, s[..n]));
    }
  }

  lemma {:induction false} SortOfSorted<T>(key: T -> int, s: seq<T>)
    requires SortedBy(key, s)
    ensures SortBy(key, s) == s
  {
    if s != [] {
      var n := |s| - 1;
      SortOfSorted(key, s[..n]);
      assert s == s[..n] + [s[n]];
      assert n > 0 ==> key(s[n - 1]) <= key(s[n]);
    }
  }

  lemma SameElements<T>(a: seq<T>, b: seq<T>)
    requires multiset(a) == multiset(b)
    ensures |a| == |b| && forall x :: x in a <==> x in b
  {
    assert |multiset(a)| == |a| && |multiset(b)| == |b|;
    forall x ensures x in a <==> x in b {
      assert x in a <==> x in multiset(a);
      assert x in b <==> x in multiset(b);
    }
  }

  /** The first of a sorted sequence is the first of any sorted permutation, if the keys are distinct. */
  lemma SameFirst<T>(key: T -> int, a: seq<T>, b: seq<T>)
    requires SortedBy(key, a) && SortedBy(key, b) && DistinctBy(key, a) && multiset(a) == multiset(b) && a != []
    ensures b != [] && a[0] == b[0]
  {
    SameElements(a, b);
    assert a[0] in b && b[0] in a;
    var i :| 0 <= i < |b| && b[i] == a[0];
    var j :| 0 <= j < |a| && a[j] == b[0];
    assert key(b[0]) <= key(b[i]) && key(a[0]) <= key(a[j]);
  }

  lemma TailMultiset<T>(s: seq<T>)
    requires s != []
    ensures multiset(s[1..]) == multiset(s) - multiset{s[0]}
  {
    assert s == [s[0]] + s[1..];
  }

  /** There is only one sorted permutation of elements with distinct keys. */
  lemma {:induction false} SortedUnique<T>(key: T -> int, a: seq<T>, b: seq<T>)
    requires SortedBy(key, a) && SortedBy(key, b) && DistinctBy(key, a) && multiset(a) == multiset(b)
    ensures a == b
  {
    if a == [] {
      SameElements(a, b);
    } else {
      SameFirst(key, a, b);
      TailMultiset(a);
      TailMultiset(b);
      SortedUnique(key, a[1..], b[1..]);
      assert a == [a[0]] + a[1..] && b == [b[0]] + b[1..];
    }
  }

  lemma {:induction false} DistinctPermuted<T, K>(key: T -> K, a: seq<T>, b: seq<T>)
    requires DistinctBy(key, a) && multiset(a) == multiset(b)
    ensures DistinctBy(key, b)
  {
    SameElements(a, b);
    forall i, j | 0 <= i < j < |b| ensures key(b[i]) != key(b[j]) {
      if key(b[i]) == key(b[j]) {
        assert b[i] in a && b[j] in a;
        assert b[i] == b[j];
        TwiceIn(b, i, j);
        OnceIn(key, a, b[i]);
      }
    }
  }

  lemma TwiceIn<T>(s: seq<T>, i: nat, j: nat)
    requires i < j < |s| && s[i] == s[j]
    ensures multiset(s)[s[i]] >= 2
  {
    assert s == s[..i] + [s[i]] + s[i + 1..j] + [s[j]] + s[j + 1..];
  }

  lemma {:induction false} OnceIn<T, K>(key: T -> K, s: seq<T>, x: T)
    requires DistinctBy(key, s)
    ensures multiset(s)[x] <= 1
  {
    if s != [] {
      var n := |s| - 1;
      OnceIn(key, s[..n], x);
      assert s == s[..n] + [s[n]];
      if s[n] == x {
        assert x !in s[..n];
      }
    }
  }
}
