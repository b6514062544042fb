/**
 * The array primitives the hook applies to its list of row ids: `findIndex` with `===`,
 * `filter` with `!==`, and the destructuring swap of two positions.
 */
module RowList {
  import opened Splice

  /** No id occurs twice. The hook does not enforce this; some properties need it. */
  predicate Distinct<T(==)>(s: seq<T>) {
    forall i, j :: 0 <= i < j < |s| ==> s[i] != s[j]
  }

  /** `s.findIndex(item => item === x)`: the first index holding `x`, or -1. */
  function IndexOf<T(==)>(s: seq<T>, x: T): (i: int)
    ensures -1 <= i < |s|
    ensures i == -1 <==> x !in s
    ensures 0 <= i ==> s[i] == x && forall k :: 0 <= k < i ==> s[k] != x
  {
    if |s| == 0 then -1
    else if s[0] == x then 0
    else
      var j := IndexOf(s[1..], x);
      if j == -1 then -1 else j + 1
  }

  /** In a list without duplicates the element at `k` is found at `k`. */
  lemma IndexOfDistinct<T>(s: seq<T>, k: nat)
    requires Distinct(s) && k < |s|
    ensures IndexOf(s, s[k]) == k
  {
  }

  /** `s.filter(item => item !== x)`: every occurrence of `x` dropped. */
  function Without<T(==)>(s: seq<T>, x: T): (r: seq<T>)
    ensures x !in r
    ensures multiset(r) == multiset(s)[x := 0]
    ensures |r| == |s| - multiset(s)[x]
  {
    if |s| == 0 then []
    else
      assert s == [s[0]] + s[1..];
      if s[0] == x then Without(s[1..], x)
      else [s[0]] + Without(s[1..], x)
  }

  /** `a` is `b` with some elements deleted and the rest kept in order. */
  ghost predicate Subsequence<T>(a: seq<T>, b: seq<T>)
    decreases |b|
  {
    if |a| == 0 then true
    else if |b| == 0 then false
    else if a[0] == b[0] then Subsequence(a[1..], b[1..])
    else Subsequence(a, b[1..])
  }

  /** `filter` keeps the survivors in their original relative order. */
  lemma {:induction false} WithoutSubsequence<T>(s: seq<T>, x: T)
    ensures Subsequence(Without(s, x), s)
  {
    if |s| > 0 {
      WithoutSubsequence(s[1..], x);
      var r := Without(s, x);
      if s[0] != x {
        assert r[1..] == Without(s[1..], x);
      }
    }
  }

  /** Filtering distributes over concatenation. */
  lemma {:induction false} WithoutAppend<T>(a: seq<T>, b: seq<T>, x: T)
    ensures Without(a + b, x) == Without(a, x) + Without(b, x)
  {
    if |a| > 0 {
      var ab := a + b;
      assert ab[0] == a[0] && ab[1..] == a[1..] + b;
      WithoutAppend(a[1..], b, x);
      if a[0] == x {
        assert Without(ab, x) == Without(a[1..] + b, x);
        assert Without(a, x) == Without(a[1..], x);
      } else {
        assert Without(ab, x) == [a[0]] + Without(a[1..] + b, x);
        assert Without(a, x) == [a[0]] + Without(a[1..], x);
      }
    } else {
      assert a + b == b;
    }
  }

  /** Filtering changes nothing exactly when the id is absent. */
  lemma {:induction false} WithoutUnchanged<T>(s: seq<T>, x: T)
    ensures Without(s, x) == s <==> x !in s
  {
    if |s| > 0 {
      WithoutUnchanged(s[1..], x);
      if x !in s {
        assert x !in s[1..];
      }
    }
  }

  /** Filtering twice is filtering once. */
  lemma WithoutIdempotent<T>(s: seq<T>, x: T)
    ensures Without(Without(s, x), x) == Without(s, x)
  {
    WithoutUnchanged(Without(s, x), x);
  }

  /** Filtering out a freshly inserted id undoes the insertion. */
  lemma WithoutInsertAt<T>(s: seq<T>, k: nat, x: T)
    requires k <= |s| && x !in s
    ensures Without(InsertAt(s, k, x), x) == s
  {
    var a, b := s[..k], s[k..];
    assert s == a + b;
    assert InsertAt(s, k, x) == (a + [x]) + b;
    WithoutAppend(a + [x], b, x);
    WithoutAppend(a, [x], x);
    WithoutUnchanged(a, x);
    WithoutUnchanged(b, x);
  }

  /** Positions `i` and `j` exchanged (the destructuring swap). */
  function Swap<T>(s: seq<T>, i: nat, j: nat): (r: seq<T>)
    requires i < |s| && j < |s|
    ensures |r| == |s|
    ensures r[i] == s[j] && r[j] == s[i]
    ensures forall k :: 0 <= k < |s| && k != i && k != j ==> r[k] == s[k]
    ensures multiset(r) == multiset(s)
  {
    s[i := s[j]][j := s[i]]
  }

  /** Swapping the same two positions again restores the sequence. */
  lemma SwapTwice<T>(s: seq<T>, i: nat, j: nat)
    requires i < |s| && j < |s|
    ensures Swap(Swap(s, i, j), i, j) == s
  {
  }

  /** Exchanging two positions keeps a list free of duplicates. */
  lemma SwapDistinct<T>(s: seq<T>, i: nat, j: nat)
    requires Distinct(s) && i < |s| && j < |s|
    ensures Distinct(Swap(s, i, j))
  {
    var r := Swap(s, i, j);
    forall p, q | 0 <= p < q < |r|
      ensures r[p] != r[q]
    {
      var p' := if p == i then j else if p == j then i else p;
      var q' := if q == i then j else if q == j then i else q;
      assert r[p] == s[p'] && r[q] == s[q'];
    }
  }
}
