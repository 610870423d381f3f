/** The ascending sort that n50 and n90 apply to their owned copy
    (`vs.sort_unstable()`). The library sort is specified by its result only:
    an ascending permutation of its input. `SortedPermutationUnique` shows
    that a multiset has exactly one such arrangement, so neither the
    algorithm nor its (in)stability can change a result; `SortedCopyOf` names
    that arrangement for the specifications. */
module Sorting {

  predicate Sorted(s: seq<int>) {
    forall i, j :: 0 <= i < j < |s| ==> s[i] <= s[j]
  }

  /** r holds the elements of s in ascending order. */
  predicate IsSortedCopy(s: seq<int>, r: seq<int>) {
    Sorted(r) && multiset(r) == multiset(s)
  }

  /** x placed into s before its first larger element. */
  function Insert(x: int, s: seq<int>): seq<int> {
    if s == [] || x <= s[0] then [x] + s else [s[0]] + Insert(x, s[1..])
  }

  /** Inserting into a sorted sequence keeps it sorted; the first element
      is x or the old first element. */
  lemma {:induction false} InsertSorted(x: int, s: seq<int>)
    requires Sorted(s)
    ensures Sorted(Insert(x, s))
    ensures |Insert(x, s)| == |s| + 1
    ensures Insert(x, s)[0] == x || (s != [] && Insert(x, s)[0] == s[0])
  {
    if s != [] && x > s[0] {
      var rest := Insert(x, s[1..]);
      var r := [s[0]] + rest;
      InsertSorted(x, s[1..]);
      assert r == Insert(x, s);
      assert s[0] <= rest[0];
      forall i, j | 0 <= i < j < |r| ensures r[i] <= r[j] {
        if i == 0 {
          assert r[j] == rest[j - 1];
        } else {
          assert r[i] == rest[i - 1] && r[j] == rest[j - 1];
        }
      }
    }
  }

  /** Inserting adds exactly x to the multiset of elements. */
  lemma {:induction false} InsertMultiset(x: int, s: seq<int>)
    ensures multiset(Insert(x, s)) == multiset(s) + multiset{x}
  {
    if s != [] && x > s[0] {
      InsertMultiset(x, s[1..]);
      assert s == [s[0]] + s[1..];
    }
  }

  /** An insertion sort: one ascending arrangement of s. */
  function InsertionSort(s: seq<int>): (r: seq<int>)
    ensures IsSortedCopy(s, r)
  {
    if s == [] then []
    else
      var t := InsertionSort(s[1..]);
      InsertSorted(s[0], t);
      InsertMultiset(s[0], t);
      assert s == [s[0]] + s[1..];
      Insert(s[0], t)
  }

  /** `slice::sort_unstable` on an owned copy of s, known by its contract
      only; the insertion sort merely shows that the contract can be met. */
  method SortUnstable(s: seq<int>) returns (r: seq<int>)
    ensures Sorted(r)
    ensures multiset(r) == multiset(s)
  {
    r := InsertionSort(s);
  }

  /** The ascending arrangement of s. */
  ghost function SortedCopyOf(s: seq<int>): (r: seq<int>)
    ensures IsSortedCopy(s, r)
    ensures |r| == |s|
  {
    assert IsSortedCopy(s, InsertionSort(s));
    var r :| IsSortedCopy(s, r);
    assert |multiset(r)| == |multiset(s)|;
    r
  }

  /** The first element of a sorted sequence is its least. */
  lemma HeadIsLeast(a: seq<int>, y: int)
    requires Sorted(a) && y in multiset(a)
    ensures a[0] <= y
  {
    var k :| 0 <= k < |a| && a[k] == y;
  }

  /** Dropping the first element keeps a sequence sorted and takes that
      element out of its multiset. */
  lemma Tail(a: seq<int>)
    requires Sorted(a) && a != []
    ensures Sorted(a[1..])
    ensures multiset(a[1..]) == multiset(a) - multiset{a[0]}
  {
    assert a == [a[0]] + a[1..];
  }

  /** A multiset has exactly one ascending arrangement. */
  lemma {:induction false} SortedPermutationUnique(a: seq<int>, b: seq<int>)
    requires Sorted(a) && Sorted(b)
    requires multiset(a) == multiset(b)
    ensures a == b
  {
    if a != [] {
      assert a[0] in multiset(b) && b[0] in multiset(a);
      HeadIsLeast(a, b[0]);
      HeadIsLeast(b, a[0]);
      Tail(a);
      Tail(b);
      assert a[0] == b[0];
      assert multiset(a[1..]) == multiset(b[1..]);
      SortedPermutationUnique(a[1..], b[1..]);
      assert a == [a[0]] + a[1..];
      assert b == [b[0]] + b[1..];
    } else {
      assert |multiset(b)| == 0;
    }
  }

  /** Every ascending permutation of s is the one `SortedCopyOf` names. */
  lemma SortedCopyIsUnique(s: seq<int>, r: seq<int>)
    requires IsSortedCopy(s, r)
    ensures r == SortedCopyOf(s)
  {
    SortedPermutationUnique(r, SortedCopyOf(s));
  }
}
