/** Array helpers the exporter relies on: `Array.prototype.indexOf` and the
    "keep the first occurrence" filter used to detect duplicates. */
module Sequences {

  /** No element occurs twice. */
  predicate Distinct<T(==)>(a: seq<T>) {
    forall i, j :: 0 <= i < j < |a| ==> a[i] != a[j]
  }

  /** `a.indexOf(x)`: the position of the first `x`, or -1 when there is none. */
  function IndexOf<T(==)>(a: seq<T>, x: T): (r: int)
    ensures -1 <= r < |a|
    ensures r == -1 <==> x !in a
    ensures r >= 0 ==> a[r] == x && x !in a[..r]
  {
    if |a| == 0 then -1
    else if a[0] == x then 0
    else
      var k := IndexOf(a[1..], x);
      if k == -1 then -1 else k + 1
  }

  /** The elements of `a[..n]` whose position is that of their first
      occurrence in `a`, in order: `a.filter((item, pos) => a.indexOf(item) == pos)`
      restricted to the first `n` positions. */
  function KeepFirst<T(==)>(a: seq<T>, n: nat): seq<T>
    requires n <= |a|
  {
    if n == 0 then []
    else KeepFirst(a, n - 1) + (if IndexOf(a, a[n - 1]) == n - 1 then [a[n - 1]] else [])
  }

  /** Each of the first `n` positions holds the first occurrence of its element. */
  predicate FirstOccurrences<T(==)>(a: seq<T>, n: nat)
    requires n <= |a|
  {
    forall i :: 0 <= i < n ==> IndexOf(a, a[i]) == i
  }

  /** The filter keeps every position exactly when every position is a first occurrence. */
  lemma {:induction false} KeepFirstLength<T>(a: seq<T>, n: nat)
    requires n <= |a|
    ensures |KeepFirst(a, n)| <= n
    ensures |KeepFirst(a, n)| == n <==> FirstOccurrences(a, n)
  {
    if n > 0 {
      KeepFirstLength(a, n - 1);
      var prev := KeepFirst(a, n - 1);
      if IndexOf(a, a[n - 1]) == n - 1 {
        assert |KeepFirst(a, n)| == |prev| + 1;
        assert FirstOccurrences(a, n) <==> FirstOccurrences(a, n - 1);
      } else {
        assert |KeepFirst(a, n)| == |prev|;
        assert !FirstOccurrences(a, n);
      }
    }
  }

  /** Every position being a first occurrence is the same as having no duplicates. */
  lemma FirstOccurrencesIffDistinct<T>(a: seq<T>)
    ensures FirstOccurrences(a, |a|) <==> Distinct(a)
  {
    if FirstOccurrences(a, |a|) {
      forall i, j | 0 <= i < j < |a|
        ensures a[i] != a[j]
      {
        assert IndexOf(a, a[j]) == j;
        assert a[i] in a[..j];
      }
    }
    if Distinct(a) {
      forall i | 0 <= i < |a|
        ensures IndexOf(a, a[i]) == i
      {
        var k := IndexOf(a, a[i]);
        assert a[k] == a[i];
      }
    }
  }

  /** The filter keeps the whole array exactly when it has no duplicates. */
  lemma KeepFirstWholeIffDistinct<T>(a: seq<T>)
    ensures |KeepFirst(a, |a|)| == |a| <==> Distinct(a)
  {
    KeepFirstLength(a, |a|);
    FirstOccurrencesIffDistinct(a);
  }
}
