/**
 * Array.prototype.sort with a comparator, as a stable insertion sort in place. A comparator
 * `cmp` is read as the relation `le(a, b) := cmp(a, b) <= 0` ("a may stay before b").
 */
module Sorting {

  /** What a comparator must be for the sort to be well defined: total and transitive. */
  ghost predicate TotalPreorder<T(!new)>(le: (T, T) -> bool) {
    && (forall a, b :: le(a, b) || le(b, a))
    && (forall a, b, c :: le(a, b) && le(b, c) ==> le(a, c))
  }

  /** Only equal elements are ordered both ways. */
  ghost predicate Antisymmetric<T(!new)>(le: (T, T) -> bool) {
    forall a, b :: le(a, b) && le(b, a) ==> a == b
  }

  ghost predicate Sorted<T>(s: seq<T>, le: (T, T) -> bool) {
    forall k, l :: 0 <= k < l < |s| ==> le(s[k], s[l])
  }

  method Swap<T>(a: array<T>, i: int, j: int)
    requires 0 <= i < a.Length && 0 <= j < a.Length
    modifies a
    ensures a[i] == old(a[j]) && a[j] == old(a[i])
    ensures forall m :: 0 <= m < a.Length && m != i && m != j ==> a[m] == old(a[m])
    ensures multiset(a[..]) == old(multiset(a[..]))
  {
    a[i], a[j] := a[j], a[i];
  }

  /** Sorts `a` in place: the result is ordered by `le` and holds the same elements. */
  method SortInPlace<T(!new)>(a: array<T>, le: (T, T) -> bool)
    requires TotalPreorder(le)
    modifies a
    ensures Sorted(a[..], le)
    ensures multiset(a[..]) == old(multiset(a[..]))
  {
    var i := 0;
    while i < a.Length
      invariant 0 <= i <= a.Length
      invariant forall k, l :: 0 <= k < l < i ==> le(a[k], a[l])
      invariant multiset(a[..]) == old(multiset(a[..]))
    {
      var j := i;
      while j > 0 && !le(a[j - 1], a[j])
        invariant 0 <= j <= i
        invariant forall k, l :: 0 <= k < l <= i && k != j && l != j ==> le(a[k], a[l])
        invariant forall l :: j < l <= i ==> le(a[j], a[l])
        invariant multiset(a[..]) == old(multiset(a[..]))
      {
        Swap(a, j - 1, j);
        j := j - 1;
      }
      forall k | 0 <= k < j
        ensures le(a[k], a[j])
      {
        if k < j - 1 {
          assert le(a[k], a[j - 1]);
        }
      }
      i := i + 1;
    }
  }

  /** The sorted copy of a sequence, computed by sorting an array holding it. */
  method SortedCopy<T(!new)>(s: seq<T>, le: (T, T) -> bool) returns (r: seq<T>)
    requires TotalPreorder(le)
    ensures Sorted(r, le)
    ensures multiset(r) == multiset(s)
  {
    var a := new T[|s|](i requires 0 <= i < |s| => s[i]);
    assert a[..] == s;
    SortInPlace(a, le);
    r := a[..];
  }

  /** The first element of a sorted sequence comes no later than any of its elements. */
  lemma SortedHeadFirst<T(!new)>(s: seq<T>, le: (T, T) -> bool, x: T)
    requires TotalPreorder(le) && Sorted(s, le) && x in s
    ensures le(s[0], x)
  {
    var k :| 0 <= k < |s| && s[k] == x;
    if k == 0 {
      assert le(x, x) || le(x, x);
    }
  }

  /** Under an antisymmetric comparator there is only one sorted order of a collection. */
  lemma {:induction false} SortedUnique<T(!new)>(r1: seq<T>, r2: seq<T>, le: (T, T) -> bool)
    requires TotalPreorder(le) && Antisymmetric(le)
    requires Sorted(r1, le) && Sorted(r2, le)
    requires multiset(r1) == multiset(r2)
    ensures r1 == r2
    decreases |r1|
  {
    if r1 == [] {
      assert |multiset(r2)| == 0;
    } else {
      SortedHeadsEqual(r1, r2, le);
      TailsSameElements(r1, r2);
      SortedUnique(r1[1..], r2[1..], le);
    }
  }

  /** Two sorted orders of one collection start with the same element. */
  lemma SortedHeadsEqual<T(!new)>(r1: seq<T>, r2: seq<T>, le: (T, T) -> bool)
    requires TotalPreorder(le) && Antisymmetric(le)
    requires Sorted(r1, le) && Sorted(r2, le)
    requires multiset(r1) == multiset(r2) && r1 != []
    ensures r2 != [] && r1[0] == r2[0]
  {
    assert |multiset(r2)| == |r1| > 0;
    assert r1[0] in multiset(r2) && r2[0] in multiset(r1);
    SortedHeadFirst(r1, le, r2[0]);
    SortedHeadFirst(r2, le, r1[0]);
  }

  /** Removing one common first element from two sequences with the same elements leaves the same elements. */
  lemma TailsSameElements<T>(r1: seq<T>, r2: seq<T>)
    requires r1 != [] && r2 != [] && r1[0] == r2[0]
    requires multiset(r1) == multiset(r2)
    ensures multiset(r1[1..]) == multiset(r2[1..])
  {
    assert r1 == [r1[0]] + r1[1..] && r2 == [r2[0]] + r2[1..];
    assert multiset(r1) == multiset([r1[0]]) + multiset(r1[1..]);
    assert multiset(r2) == multiset([r2[0]]) + multiset(r2[1..]);
    assert multiset(r1[1..]) == multiset(r1) - multiset{r1[0]};
  }
}
