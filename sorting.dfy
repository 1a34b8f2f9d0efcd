/**
 * src/sorting.ts: a top-down merge sort over numbers. `merge` consumes its two
 * argument arrays with `shift`; `mergeSort` splits with `slice`, so it never
 * touches the array it is given.
 */
module Sorting {

  /** A JavaScript array of numbers: an object whose contents can be changed in place. */
  class NumArray {
    var items: seq<int>

    constructor (items: seq<int>)
      ensures this.items == items
    {
      this.items := items;
    }
  }

  predicate Sorted(s: seq<int>)
  {
    forall i, j :: 0 <= i < j < |s| ==> s[i] <= s[j]
  }

  /** What `merge` returns: the smaller head first, the left head on a tie. */
  function Merged(left: seq<int>, right: seq<int>): seq<int>
    decreases |left| + |right|
  {
    if left == [] then right
    else if right == [] then left
    else if left[0] <= right[0] then [left[0]] + Merged(left[1..], right)
    else [right[0]] + Merged(left, right[1..])
  }

  /**
   * `merge(left, right)`: repeatedly shifts the smaller head onto the result,
   * then drains whichever array is left. Both arguments end up empty.
   */
  method Merge(left: NumArray, right: NumArray) returns (result: NumArray)
    requires left != right
    modifies left, right
    ensures fresh(result)
    ensures result.items == Merged(old(left.items), old(right.items))
    ensures left.items == [] && right.items == []
  {
    result := new NumArray([]);
    ghost var goal := Merged(left.items, right.items);
    while left.items != [] && right.items != []
      invariant fresh(result)
      invariant result.items + Merged(left.items, right.items) == goal
      decreases |left.items| + |right.items|
    {
      if left.items[0] <= right.items[0] {
        MergedTakesLeft(result.items, left.items, right.items);
        result.items := result.items + [left.items[0]];
        left.items := left.items[1..];
      } else {
        MergedTakesRight(result.items, left.items, right.items);
        result.items := result.items + [right.items[0]];
        right.items := right.items[1..];
      }
    }
    assert result.items + left.items + right.items == goal;
    while left.items != []
      invariant fresh(result)
      invariant result.items + left.items + right.items == goal
      decreases |left.items|
    {
      assert result.items + left.items == result.items + [left.items[0]] + left.items[1..];
      result.items := result.items + [left.items[0]];
      left.items := left.items[1..];
    }
    while right.items != []
      invariant fresh(result) && left.items == []
      invariant result.items + right.items == goal
      decreases |right.items|
    {
      assert result.items + right.items == result.items + [right.items[0]] + right.items[1..];
      result.items := result.items + [right.items[0]];
      right.items := right.items[1..];
    }
  }

  lemma MergedTakesLeft(done: seq<int>, left: seq<int>, right: seq<int>)
    requires left != [] && right != [] && left[0] <= right[0]
    ensures done + Merged(left, right) == (done + [left[0]]) + Merged(left[1..], right)
  {
  }

  lemma MergedTakesRight(done: seq<int>, left: seq<int>, right: seq<int>)
    requires left != [] && right != [] && left[0] > right[0]
    ensures done + Merged(left, right) == (done + [right[0]]) + Merged(left, right[1..])
  {
  }

  /** What `mergeSort` returns: `slice(0, n / 2)` truncates the midpoint, so the left half has the floor. */
  function MergeSort(s: seq<int>): seq<int>
    decreases |s|
  {
    if |s| < 2 then s
    else Merged(MergeSort(s[..|s| / 2]), MergeSort(s[|s| / 2..]))
  }

  /**
   * `mergeSort(arr)`: an array of fewer than two elements is returned itself;
   * otherwise a fresh array, built from slices, and `arr` is left as it was.
   */
  method MergeSortArray(arr: NumArray) returns (r: NumArray)
    ensures r.items == MergeSort(arr.items)
    ensures |arr.items| < 2 ==> r == arr
    ensures |arr.items| >= 2 ==> fresh(r)
    decreases |arr.items|
  {
    var n := |arr.items|;
    if n < 2 {
      return arr;
    }
    var middle := n / 2;
    var left := new NumArray(arr.items[..middle]);
    var right := new NumArray(arr.items[middle..]);
    var sortedLeft := MergeSortArray(left);
    var sortedRight := MergeSortArray(right);
    r := Merge(sortedLeft, sortedRight);
  }

  /** Merging keeps every element of both inputs, and nothing else. */
  lemma {:induction false} MergedPermutation(left: seq<int>, right: seq<int>)
    ensures multiset(Merged(left, right)) == multiset(left) + multiset(right)
    ensures |Merged(left, right)| == |left| + |right|
    decreases |left| + |right|
  {
    if left != [] && right != [] {
      if left[0] <= right[0] {
        MergedPermutation(left[1..], right);
        assert Merged(left, right) == [left[0]] + Merged(left[1..], right);
        TailMultiset(left);
      } else {
        MergedPermutation(left, right[1..]);
        assert Merged(left, right) == [right[0]] + Merged(left, right[1..]);
        TailMultiset(right);
      }
    }
  }

  /** Merging two ascending arrays gives an ascending array. */
  lemma {:induction false} MergedSorted(left: seq<int>, right: seq<int>)
    requires Sorted(left) && Sorted(right)
    ensures Sorted(Merged(left, right))
    ensures Merged(left, right) != [] ==>
              Merged(left, right)[0] == (if left == [] then right[0] else if right == [] then left[0]
                                         else if left[0] <= right[0] then left[0] else right[0])
    decreases |left| + |right|
  {
    if left != [] && right != [] {
      if left[0] <= right[0] {
        MergedSorted(left[1..], right);
      } else {
        MergedSorted(left, right[1..]);
      }
    }
  }

  /** Which input each element of the merge is taken from: `true` for `left`. */
  function MergeOrigins(left: seq<int>, right: seq<int>): seq<bool>
    decreases |left| + |right|
  {
    if left == [] then seq(|right|, _ => false)
    else if right == [] then seq(|left|, _ => true)
    else if left[0] <= right[0] then [true] + MergeOrigins(left[1..], right)
    else [false] + MergeOrigins(left, right[1..])
  }

  /** The elements of `s` at the positions where `origins` says `side`, in order. */
  function Pick(s: seq<int>, origins: seq<bool>, side: bool): seq<int>
    requires |s| == |origins|
  {
    if s == [] then []
    else (if origins[0] == side then [s[0]] else []) + Pick(s[1..], origins[1..], side)
  }

  /** `merge` keeps each input's own order: picking the elements taken from one side gives that side back. */
  lemma {:induction false} MergedKeepsOrder(left: seq<int>, right: seq<int>)
    ensures |MergeOrigins(left, right)| == |Merged(left, right)|
    ensures Pick(Merged(left, right), MergeOrigins(left, right), true) == left
    ensures Pick(Merged(left, right), MergeOrigins(left, right), false) == right
    decreases |left| + |right|
  {
    if left == [] {
      PickAll(right, false);
    } else if right == [] {
      PickAll(left, true);
    } else if left[0] <= right[0] {
      MergedKeepsOrder(left[1..], right);
      assert left == [left[0]] + left[1..];
    } else {
      MergedKeepsOrder(left, right[1..]);
      assert right == [right[0]] + right[1..];
    }
  }

  /**
   * No element taken from the right is followed by a left element it does not
   * sort strictly before: `origins[k]` is true for an element taken from the left.
   */
  predicate NoOvertaking(m: seq<int>, origins: seq<bool>)
    requires |m| == |origins|
  {
    forall i, j :: 0 <= i < j < |m| && !origins[i] && origins[j] ==> m[i] < m[j]
  }

  /**
   * `merge` is stable: on ascending inputs, an element taken from `right` is
   * strictly smaller than every element taken from `left` after it, so it
   * never overtakes an equal element of `left`.
   */
  lemma {:induction false} MergedStable(left: seq<int>, right: seq<int>)
    requires Sorted(left) && Sorted(right)
    ensures |MergeOrigins(left, right)| == |Merged(left, right)|
    ensures NoOvertaking(Merged(left, right), MergeOrigins(left, right))
    decreases |left| + |right|
  {
    OriginsLength(left, right);
    if left == [] || right == [] {
      OneSidedStable(left, right);
    } else if left[0] <= right[0] {
      SortedTail(left);
      MergedStable(left[1..], right);
      TakeLeftStable(left, right);
    } else {
      SortedTail(right);
      MergedStable(left, right[1..]);
      TakeRightStable(left, right);
    }
  }

  lemma {:induction false} OriginsLength(left: seq<int>, right: seq<int>)
    ensures |MergeOrigins(left, right)| == |Merged(left, right)|
    decreases |left| + |right|
  {
    if left != [] && right != [] {
      if left[0] <= right[0] {
        OriginsLength(left[1..], right);
      } else {
        OriginsLength(left, right[1..]);
      }
    }
  }

  /** With one input empty every element comes from the same side, so nothing overtakes. */
  lemma OneSidedStable(left: seq<int>, right: seq<int>)
    requires left == [] || right == []
    requires |MergeOrigins(left, right)| == |Merged(left, right)|
    ensures NoOvertaking(Merged(left, right), MergeOrigins(left, right))
  {
    var o := MergeOrigins(left, right);
    if left == [] {
      assert forall k :: 0 <= k < |o| ==> !o[k];
    } else {
      assert forall k :: 0 <= k < |o| ==> o[k];
    }
  }

  /** Taking the head of `left` first keeps stability of the rest. */
  lemma TakeLeftStable(left: seq<int>, right: seq<int>)
    requires left != [] && right != [] && left[0] <= right[0]
    requires |MergeOrigins(left[1..], right)| == |Merged(left[1..], right)|
    requires NoOvertaking(Merged(left[1..], right), MergeOrigins(left[1..], right))
    ensures |MergeOrigins(left, right)| == |Merged(left, right)|
    ensures NoOvertaking(Merged(left, right), MergeOrigins(left, right))
  {
    var m, o := Merged(left, right), MergeOrigins(left, right);
    assert m == [left[0]] + Merged(left[1..], right) && o == [true] + MergeOrigins(left[1..], right);
    assert m[1..] == Merged(left[1..], right) && o[1..] == MergeOrigins(left[1..], right);
    NoOvertakingStep(m, o);
  }

  /** Taking the head of `right` first: it is strictly below every element of `left`. */
  lemma TakeRightStable(left: seq<int>, right: seq<int>)
    requires Sorted(left) && left != [] && right != [] && left[0] > right[0]
    requires |MergeOrigins(left, right[1..])| == |Merged(left, right[1..])|
    requires NoOvertaking(Merged(left, right[1..]), MergeOrigins(left, right[1..]))
    ensures |MergeOrigins(left, right)| == |Merged(left, right)|
    ensures NoOvertaking(Merged(left, right), MergeOrigins(left, right))
  {
    var m, o := Merged(left, right), MergeOrigins(left, right);
    assert m == [right[0]] + Merged(left, right[1..]) && o == [false] + MergeOrigins(left, right[1..]);
    assert m[1..] == Merged(left, right[1..]) && o[1..] == MergeOrigins(left, right[1..]);
    forall j | 0 < j < |m| && o[j]
      ensures m[0] < m[j]
    {
      RightHeadBelowLeft(left, right, j);
    }
    NoOvertakingStep(m, o);
  }

  /** A head that sorts before every later left element, followed by a tail without overtaking. */
  lemma NoOvertakingStep(m: seq<int>, origins: seq<bool>)
    requires |m| == |origins| && m != []
    requires NoOvertaking(m[1..], origins[1..])
    requires !origins[0] ==> forall j :: 0 < j < |m| && origins[j] ==> m[0] < m[j]
    ensures NoOvertaking(m, origins)
  {
    forall i, j | 0 <= i < j < |m| && !origins[i] && origins[j]
      ensures m[i] < m[j]
    {
      if i > 0 {
        assert m[1..][i - 1] == m[i] && m[1..][j - 1] == m[j];
        assert origins[1..][i - 1] == origins[i] && origins[1..][j - 1] == origins[j];
      }
    }
  }

  /** When `merge` takes the head of `right` first, every later element taken from `left` is larger. */
  lemma RightHeadBelowLeft(left: seq<int>, right: seq<int>, j: nat)
    requires Sorted(left) && left != [] && right != [] && left[0] > right[0]
    requires 0 < j < |Merged(left, right)| && |MergeOrigins(left, right)| == |Merged(left, right)|
    requires MergeOrigins(left, right)[j]
    ensures Merged(left, right)[0] < Merged(left, right)[j]
  {
    var m, o := Merged(left, right), MergeOrigins(left, right);
    MergedKeepsOrder(left, right[1..]);
    assert m[1..] == Merged(left, right[1..]) && o[1..] == MergeOrigins(left, right[1..]);
    PickedBelongs(m[1..], o[1..], j - 1);
    var k :| 0 <= k < |left| && left[k] == m[j];
    assert left[0] <= left[k];
  }

  lemma {:induction false} PickAll(s: seq<int>, side: bool)
    ensures Pick(s, seq(|s|, _ => side), side) == s
    ensures Pick(s, seq(|s|, _ => side), !side) == []
  {
    if s != [] {
      PickAll(s[1..], side);
      assert seq(|s|, _ => side)[1..] == seq(|s| - 1, _ => side);
    }
  }

  /** An element at a `side` position belongs to the picked sequence. */
  lemma {:induction false} PickedBelongs(s: seq<int>, origins: seq<bool>, k: nat)
    requires |s| == |origins| && k < |s| && origins[k]
    ensures s[k] in Pick(s, origins, true)
  {
    if k > 0 {
      PickedBelongs(s[1..], origins[1..], k - 1);
    }
  }

  /** `mergeSort` returns an ascending permutation of its input. */
  lemma MergeSortCorrect(s: seq<int>)
    ensures Sorted(MergeSort(s))
    ensures multiset(MergeSort(s)) == multiset(s)
  {
    MergeSortSorted(s);
    MergeSortPermutes(s);
  }

  /** The recursive case of `mergeSort`: merge the sorted halves. */
  lemma MergeSortUnfold(s: seq<int>)
    requires |s| >= 2
    ensures MergeSort(s) == Merged(MergeSort(s[..|s| / 2]), MergeSort(s[|s| / 2..]))
  {
  }

  lemma {:induction false} MergeSortSorted(s: seq<int>)
    ensures Sorted(MergeSort(s))
    decreases |s|
  {
    if |s| >= 2 {
      var l, r := s[..|s| / 2], s[|s| / 2..];
      MergeSortSorted(l);
      MergeSortSorted(r);
      MergeSortUnfold(s);
      MergedSorted(MergeSort(l), MergeSort(r));
    }
  }

  lemma {:induction false} MergeSortPermutes(s: seq<int>)
    ensures multiset(MergeSort(s)) == multiset(s)
    decreases |s|
  {
    if |s| >= 2 {
      var l, r := s[..|s| / 2], s[|s| / 2..];
      MergeSortPermutes(l);
      MergeSortPermutes(r);
      MergeSortUnfold(s);
      MergedPermutation(MergeSort(l), MergeSort(r));
      HalvesMultiset(s, |s| / 2);
    }
  }

  /** Cutting an array in two splits its multiset. */
  lemma HalvesMultiset(s: seq<int>, k: nat)
    requires k <= |s|
    ensures multiset(s) == multiset(s[..k]) + multiset(s[k..])
  {
    assert s == s[..k] + s[k..];
  }

  /** An ascending permutation is unique, so `mergeSort` agrees with every other sort. */
  lemma {:induction false} SortedPermutationUnique(a: seq<int>, b: seq<int>)
    requires Sorted(a) && Sorted(b) && multiset(a) == multiset(b)
    ensures a == b
    decreases |a|
  {
    if a != [] {
      assert |a| == |multiset(a)| == |multiset(b)| == |b|;
      SortedHeadsEqual(a, b);
      SortedTail(a);
      SortedTail(b);
      TailMultiset(a);
      TailMultiset(b);
      SortedPermutationUnique(a[1..], b[1..]);
      assert a == [a[0]] + a[1..];
      assert b == [b[0]] + b[1..];
    }
  }

  /** Two ascending arrays with the same elements start with the same element. */
  lemma SortedHeadsEqual(a: seq<int>, b: seq<int>)
    requires Sorted(a) && Sorted(b) && multiset(a) == multiset(b) && a != [] && b != []
    ensures a[0] == b[0]
  {
    assert a[0] in multiset(b) && b[0] in multiset(a);
    var i :| 0 <= i < |b| && b[i] == a[0];
    var j :| 0 <= j < |a| && a[j] == b[0];
    assert b[0] <= b[i] && a[0] <= a[j];
  }

  lemma SortedTail(a: seq<int>)
    requires Sorted(a) && a != []
    ensures Sorted(a[1..])
  {
    forall i, j | 0 <= i < j < |a| - 1
      ensures a[1..][i] <= a[1..][j]
    {
      assert a[1..][i] == a[i + 1] && a[1..][j] == a[j + 1];
    }
  }

  lemma TailMultiset(a: seq<int>)
    requires a != []
    ensures multiset(a[1..]) == multiset(a) - multiset{a[0]}
  {
    assert a == [a[0]] + a[1..];
    assert multiset(a) == multiset{a[0]} + multiset(a[1..]);
  }

  /** An array that is already ascending is returned unchanged by `mergeSort`. */
  lemma MergeSortOfSorted(s: seq<int>)
    requires Sorted(s)
    ensures MergeSort(s) == s
  {
    MergeSortCorrect(s);
    SortedPermutationUnique(MergeSort(s), s);
  }
}
