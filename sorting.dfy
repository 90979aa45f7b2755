/**
  The in-place sort both scripts apply with the comparator
  `(a, b) => new Date(b.date) - new Date(a.date)`, followed by `slice(0, n)`:
  the model sorts by an integer key, largest first, and keeps every element.
 */
module Sorting {
  import opened Js

  /** Non-increasing by `key`. */
  predicate SortedDesc<T>(s: seq<T>, key: T -> int) {
    forall i, j :: 0 <= i < j < |s| ==> key(s[i]) >= key(s[j])
  }

  /** Insertion sort in place, largest key first: the result is sorted and a permutation of the input. */
  method SortDescending<T>(a: array<T>, key: T -> int)
    modifies a
    ensures SortedDesc(a[..], key)
    ensures multiset(a[..]) == multiset(old(a[..]))
  {
    for i := 0 to a.Length
      invariant forall p, q :: 0 <= p < q < i ==> key(a[p]) >= key(a[q])
      invariant multiset(a[..]) == multiset(old(a[..]))
    {
      SinkLast(a, key, i);
    }
  }

  /** One step of the insertion sort: `a[i]` moves down into the sorted prefix `a[..i]`. */
  method SinkLast<T>(a: array<T>, key: T -> int, i: nat)
    requires i < a.Length
    requires forall p, q :: 0 <= p < q < i ==> key(a[p]) >= key(a[q])
    modifies a
    ensures forall p, q :: 0 <= p < q <= i ==> key(a[p]) >= key(a[q])
    ensures multiset(a[..]) == multiset(old(a[..]))
  {
    var j := i;
    while j > 0 && key(a[j - 1]) < key(a[j])
      invariant 0 <= j <= i
      invariant forall p, q :: 0 <= p < q <= i && p != j && q != j ==> key(a[p]) >= key(a[q])
      invariant forall q :: j < q <= i ==> key(a[j]) > key(a[q])
      invariant multiset(a[..]) == multiset(old(a[..]))
    {
      a[j - 1], a[j] := a[j], a[j - 1];
      j := j - 1;
    }
  }

  /**
    In a sorted sequence the first `k` elements are sorted too, and have keys
    at least as large as every element left out: a prefix keeps the `k` largest.
   */
  lemma PrefixHoldsLargest<T>(s: seq<T>, key: T -> int, k: nat)
    requires SortedDesc(s, key) && k <= |s|
    ensures SortedDesc(s[..k], key)
    ensures multiset(s[..k]) <= multiset(s)
    ensures forall x, y :: x in s[..k] && y in multiset(s) - multiset(s[..k]) ==> key(y) <= key(x)
  {
    assert s == s[..k] + s[k..];
    assert multiset(s) - multiset(s[..k]) == multiset(s[k..]);
    forall x, y | x in s[..k] && y in multiset(s[k..])
      ensures key(y) <= key(x)
    {
      assert y in s[k..];
      var i :| 0 <= i < k && s[i] == x;
      var j :| k <= j < |s| && s[j] == y;
    }
  }

  /**
    `s.sort(comparator).slice(0, n)` on a copy of `s`: the `n` (or all) largest
    elements, largest first, drawn from `s` without repetition.
   */
  method TakeLargest<T>(s: seq<T>, key: T -> int, n: nat) returns (t: seq<T>)
    ensures |t| == Min(n, |s|)
    ensures multiset(t) <= multiset(s)
    ensures SortedDesc(t, key)
    ensures forall x, y :: x in t && y in multiset(s) - multiset(t) ==> key(y) <= key(x)
  {
    var a := new T[|s|](k requires 0 <= k < |s| => s[k]);
    assert a[..] == s;
    SortDescending(a, key);
    var sorted := a[..];
    var k := Min(n, |sorted|);
    PrefixHoldsLargest(sorted, key, k);
    t := sorted[..k];
  }
}
