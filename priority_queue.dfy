/**
 * src/algorithms/PriorityQueue.ts: a binary min-heap stored in a resizable
 * array and ordered by a caller-supplied comparator. The code only ever asks
 * whether `comparator(a, b) < 0`.
 *
 * The pure functions below say what each private step does to the backing
 * array (`SiftUp` for `_bubbleUp`, `SiftDown` for `_bubbleDown`, ...); the
 * class `PriorityQueue` is proved to perform exactly those steps in place, and
 * the lemmas prove heap order and permutation about the functions.
 */
module PriorityQueues {
  import opened Wrappers

  /** `a` sorts strictly before `b`. */
  predicate Less<T>(cmp: (T, T) -> int, a: T, b: T)
  {
    cmp(a, b) < 0
  }

  /**
   * What a comparator must satisfy for the heap to be meaningful: "sorts
   * before" is asymmetric and "does not sort before" is transitive (a strict
   * weak order). Numeric subtraction is one.
   */
  ghost predicate StrictWeakOrder<T(!new)>(cmp: (T, T) -> int)
  {
    && (forall a, b :: Less(cmp, a, b) ==> !Less(cmp, b, a))
    && (forall a, b, c :: !Less(cmp, a, b) && !Less(cmp, b, c) ==> !Less(cmp, a, c))
  }

  /** The default comparator `(a, b) => a - b`, for queues of numbers. */
  function DefaultComparator(a: int, b: int): int
  {
    a - b
  }

  lemma DefaultComparatorIsWeakOrder()
    ensures StrictWeakOrder(DefaultComparator)
    ensures forall a, b :: Less(DefaultComparator, a, b) <==> a < b
  {
  }

  /** `(pos - 1) >>> 1` for a positive position. */
  function Parent(i: nat): nat
    requires i > 0
  {
    (i - 1) / 2
  }

  /** Heap order on the first `n` slots: no element there sorts before its parent. */
  predicate HeapUpTo<T>(s: seq<T>, n: nat, cmp: (T, T) -> int)
    requires n <= |s|
  {
    forall i :: 0 < i < n ==> !Less(cmp, s[i], s[Parent(i)])
  }

  predicate HeapOrdered<T>(s: seq<T>, cmp: (T, T) -> int)
  {
    HeapUpTo(s, |s|, cmp)
  }

  /** `_bubbleUp(pos)`: swap with the parent while strictly smaller than it. */
  function SiftUp<T>(s: seq<T>, pos: nat, cmp: (T, T) -> int): (r: seq<T>)
    requires pos < |s|
    ensures |r| == |s|
    decreases pos
  {
    if pos == 0 then s
    else
      var p := Parent(pos);
      if Less(cmp, s[pos], s[p]) then SiftUp(s[p := s[pos]][pos := s[p]], p, cmp) else s
  }

  /** The child `_bubbleDown` would swap with: the smaller valid child if it sorts strictly before `s[pos]`, else `pos`. */
  function MinIndex<T>(s: seq<T>, pos: nat, cmp: (T, T) -> int): (m: nat)
    requires pos < |s|
    ensures m == pos || m == 2 * pos + 1 || m == 2 * pos + 2
    ensures m < |s|
  {
    var left, right := 2 * pos + 1, 2 * pos + 2;
    var m1 := if left < |s| && Less(cmp, s[left], s[pos]) then left else pos;
    if right < |s| && Less(cmp, s[right], s[m1]) then right else m1
  }

  /** `_bubbleDown(pos)`: swap with the smaller child while that child is strictly smaller. */
  function SiftDown<T>(s: seq<T>, pos: nat, cmp: (T, T) -> int): (r: seq<T>)
    ensures |r| == |s|
    decreases |s| - pos
  {
    if pos >= |s| then s
    else
      var m := MinIndex(s, pos, cmp);
      if m == pos then s else SiftDown(s[m := s[pos]][pos := s[m]], m, cmp)
  }

  /** The construction loop `_heapify`: `_bubbleUp(i)` for `i = 0, 1, ..., n - 1`. */
  function HeapifyUpTo<T>(s: seq<T>, n: nat, cmp: (T, T) -> int): (r: seq<T>)
    requires n <= |s|
    ensures |r| == |s|
  {
    if n == 0 then s else SiftUp(HeapifyUpTo(s, n - 1, cmp), n - 1, cmp)
  }

  function Heapified<T>(s: seq<T>, cmp: (T, T) -> int): (r: seq<T>)
    ensures |r| == |s|
  {
    HeapifyUpTo(s, |s|, cmp)
  }

  /** `enqueue(value)`: push, then `_bubbleUp` from the last slot. */
  function Enqueued<T>(s: seq<T>, value: T, cmp: (T, T) -> int): (r: seq<T>)
    ensures |r| == |s| + 1
  {
    SiftUp(s + [value], |s|, cmp)
  }

  /** `dequeue()` on a non-empty array: pop the last element, put it at the root, `_bubbleDown(0)`. */
  function Dequeued<T>(s: seq<T>, cmp: (T, T) -> int): (r: seq<T>)
    requires s != []
    ensures |r| == |s| - 1
  {
    if |s| == 1 then [] else SiftDown([s[|s| - 1]] + s[1..|s| - 1], 0, cmp)
  }

  // ---------------------------------------------------------------------
  // Permutation

  lemma SwapPermutes<T>(s: seq<T>, i: nat, j: nat)
    requires i < |s| && j < |s|
    ensures multiset(s[i := s[j]][j := s[i]]) == multiset(s)
  {
    if i != j {
      var t := s[i := s[j]];
      assert multiset(t) == multiset(s) - multiset{s[i]} + multiset{s[j]};
      assert multiset(t[j := s[i]]) == multiset(t) - multiset{t[j]} + multiset{s[i]};
    }
  }

  /** `_bubbleUp` only swaps: it rearranges the array and leaves everything after `pos` alone. */
  lemma {:induction false} SiftUpPermutes<T>(s: seq<T>, pos: nat, cmp: (T, T) -> int)
    requires pos < |s|
    ensures multiset(SiftUp(s, pos, cmp)) == multiset(s)
    ensures SiftUp(s, pos, cmp)[pos + 1..] == s[pos + 1..]
    decreases pos
  {
    if pos > 0 {
      var p := Parent(pos);
      if Less(cmp, s[pos], s[p]) {
        var t := s[p := s[pos]][pos := s[p]];
        SwapPermutes(s, p, pos);
        SiftUpPermutes(t, p, cmp);
        assert t[pos + 1..] == s[pos + 1..];
        assert SiftUp(t, p, cmp)[pos + 1..] == SiftUp(t, p, cmp)[p + 1..][pos - p..];
      }
    }
  }

  /** `_bubbleDown` only swaps, so it rearranges the array. */
  lemma {:induction false} SiftDownPermutes<T>(s: seq<T>, pos: nat, cmp: (T, T) -> int)
    ensures multiset(SiftDown(s, pos, cmp)) == multiset(s)
    decreases |s| - pos
  {
    if pos < |s| {
      var m := MinIndex(s, pos, cmp);
      if m != pos {
        SwapPermutes(s, m, pos);
        SiftDownPermutes(s[m := s[pos]][pos := s[m]], m, cmp);
      }
    }
  }

  // ---------------------------------------------------------------------
  // Heap order

  lemma NotLessTrans<T(!new)>(cmp: (T, T) -> int, a: T, b: T, c: T)
    requires StrictWeakOrder(cmp)
    requires !Less(cmp, a, b) && !Less(cmp, b, c)
    ensures !Less(cmp, a, c)
  {
  }

  lemma LessAsym<T(!new)>(cmp: (T, T) -> int, a: T, b: T)
    requires StrictWeakOrder(cmp) && Less(cmp, a, b)
    ensures !Less(cmp, b, a)
  {
  }

  /** The state during `_bubbleUp(pos)` on the first `n` slots: only the link from `pos` to its parent may be broken. */
  predicate SiftUpInvariant<T>(s: seq<T>, n: nat, pos: nat, cmp: (T, T) -> int)
    requires pos < n <= |s|
  {
    && (forall i :: 0 < i < n && i != pos ==> !Less(cmp, s[i], s[Parent(i)]))
    && (pos > 0 ==> forall c :: 0 < c < n && Parent(c) == pos ==> !Less(cmp, s[c], s[Parent(pos)]))
  }

  /** `_bubbleUp` repairs the one broken link and leaves heap order on the first `n` slots. */
  lemma {:induction false} SiftUpRestoresHeap<T(!new)>(s: seq<T>, n: nat, pos: nat, cmp: (T, T) -> int)
    requires StrictWeakOrder(cmp)
    requires pos < n <= |s| && SiftUpInvariant(s, n, pos, cmp)
    ensures HeapUpTo(SiftUp(s, pos, cmp), n, cmp)
    decreases pos
  {
    if pos > 0 {
      var p := Parent(pos);
      if Less(cmp, s[pos], s[p]) {
        var t := s[p := s[pos]][pos := s[p]];
        LessAsym(cmp, s[pos], s[p]);
        forall i | 0 < i < n && i != p
          ensures !Less(cmp, t[i], t[Parent(i)])
        {
          if i == pos {
          } else if Parent(i) == pos {
          } else if Parent(i) == p {
            NotLessTrans(cmp, s[i], s[p], s[pos]);
          }
        }
        if p > 0 {
          forall c | 0 < c < n && Parent(c) == p
            ensures !Less(cmp, t[c], t[Parent(p)])
          {
            if c != pos {
              NotLessTrans(cmp, s[c], s[p], s[Parent(p)]);
            }
          }
        }
        SiftUpRestoresHeap(t, n, p, cmp);
      }
    }
  }

  /** The state during `_bubbleDown(pos)`: only the links from the children of `pos` up to it may be broken. */
  predicate SiftDownInvariant<T>(s: seq<T>, pos: nat, cmp: (T, T) -> int)
  {
    && (forall i :: 0 < i < |s| && Parent(i) != pos ==> !Less(cmp, s[i], s[Parent(i)]))
    && (0 < pos < |s| ==> forall c :: 0 < c < |s| && Parent(c) == pos ==> !Less(cmp, s[c], s[Parent(pos)]))
  }

  /** The child `_bubbleDown` picks sorts before `s[pos]` and not after its sibling. */
  lemma MinIndexChoice<T(!new)>(s: seq<T>, pos: nat, cmp: (T, T) -> int)
    requires StrictWeakOrder(cmp) && pos < |s|
    ensures var m := MinIndex(s, pos, cmp);
      && (m != pos ==> Less(cmp, s[m], s[pos]))
      && (forall c :: 0 < c < |s| && Parent(c) == pos ==> !Less(cmp, s[c], s[m]))
  {
    var left, right := 2 * pos + 1, 2 * pos + 2;
    var m1 := if left < |s| && Less(cmp, s[left], s[pos]) then left else pos;
    var m := MinIndex(s, pos, cmp);
    forall c | 0 < c < |s| && Parent(c) == pos
      ensures !Less(cmp, s[c], s[m])
    {
      assert c == left || c == right;
      if m == right && c == left {
        if m1 == pos {
          LessAsym(cmp, s[right], s[pos]);
          NotLessTrans(cmp, s[left], s[pos], s[right]);
        } else {
          LessAsym(cmp, s[right], s[left]);
        }
      } else if m == left && c == right {
      }
    }
  }

  /** `_bubbleDown` pushes the element down until heap order holds everywhere. */
  lemma {:induction false} SiftDownRestoresHeap<T(!new)>(s: seq<T>, pos: nat, cmp: (T, T) -> int)
    requires StrictWeakOrder(cmp) && SiftDownInvariant(s, pos, cmp)
    ensures HeapOrdered(SiftDown(s, pos, cmp), cmp)
    decreases |s| - pos
  {
    if pos < |s| {
      var m := MinIndex(s, pos, cmp);
      MinIndexChoice(s, pos, cmp);
      if m != pos {
        var t := s[m := s[pos]][pos := s[m]];
        LessAsym(cmp, s[m], s[pos]);
        forall i | 0 < i < |t| && Parent(i) != m
          ensures !Less(cmp, t[i], t[Parent(i)])
        {
        }
        SiftDownRestoresHeap(t, m, cmp);
      }
    }
  }

  /** In a heap the root sorts before nothing: no element is strictly smaller. */
  lemma {:induction false} RootIsMinimum<T(!new)>(s: seq<T>, cmp: (T, T) -> int, i: nat)
    requires StrictWeakOrder(cmp) && HeapOrdered(s, cmp) && i < |s|
    ensures !Less(cmp, s[i], s[0])
    decreases i
  {
    if i == 0 {
      if Less(cmp, s[0], s[0]) {
        LessAsym(cmp, s[0], s[0]);
      }
    } else {
      RootIsMinimum(s, cmp, Parent(i));
      NotLessTrans(cmp, s[i], s[Parent(i)], s[0]);
    }
  }

  /** `enqueue` keeps heap order and adds exactly `value`. */
  lemma EnqueuePreservesHeap<T(!new)>(s: seq<T>, value: T, cmp: (T, T) -> int)
    requires StrictWeakOrder(cmp) && HeapOrdered(s, cmp)
    ensures HeapOrdered(Enqueued(s, value, cmp), cmp)
    ensures multiset(Enqueued(s, value, cmp)) == multiset(s) + multiset{value}
  {
    var t := s + [value];
    assert SiftUpInvariant(t, |t|, |s|, cmp);
    SiftUpRestoresHeap(t, |t|, |s|, cmp);
    SiftUpPermutes(t, |s|, cmp);
  }

  /** `dequeue` on a non-empty heap removes one occurrence of the root and keeps heap order. */
  lemma DequeuePreservesHeap<T(!new)>(s: seq<T>, cmp: (T, T) -> int)
    requires StrictWeakOrder(cmp) && HeapOrdered(s, cmp) && s != []
    ensures HeapOrdered(Dequeued(s, cmp), cmp)
    ensures multiset(Dequeued(s, cmp)) == multiset(s) - multiset{s[0]}
  {
    if |s| > 1 {
      DequeueStart(s, cmp);
      SiftDownRestoresHeap([s[|s| - 1]] + s[1..|s| - 1], 0, cmp);
    }
    DequeuedPermutes(s, cmp);
  }

  /** With the last element moved into the root's slot only the links up to the root may be broken. */
  lemma DequeueStart<T>(s: seq<T>, cmp: (T, T) -> int)
    requires |s| > 1 && HeapOrdered(s, cmp)
    ensures SiftDownInvariant([s[|s| - 1]] + s[1..|s| - 1], 0, cmp)
  {
    var t := [s[|s| - 1]] + s[1..|s| - 1];
    forall i | 0 < i < |t| && Parent(i) != 0
      ensures !Less(cmp, t[i], t[Parent(i)])
    {
      assert t[i] == s[i] && t[Parent(i)] == s[Parent(i)];
    }
  }

  /** Construction by repeated `_bubbleUp` leaves a heap holding the same elements. */
  lemma {:induction false} HeapifyMakesHeap<T(!new)>(s: seq<T>, n: nat, cmp: (T, T) -> int)
    requires StrictWeakOrder(cmp) && n <= |s|
    ensures HeapUpTo(HeapifyUpTo(s, n, cmp), n, cmp)
    ensures multiset(HeapifyUpTo(s, n, cmp)) == multiset(s)
    ensures HeapifyUpTo(s, n, cmp)[n..] == s[n..]
  {
    if n > 0 {
      var t := HeapifyUpTo(s, n - 1, cmp);
      HeapifyMakesHeap(s, n - 1, cmp);
      HeapifyStepOrders(t, n, cmp);
      HeapifyStepKeeps(s, t, n, cmp);
    }
  }

  /** `_bubbleUp(n - 1)` extends heap order from the first `n - 1` slots to the first `n`. */
  lemma HeapifyStepOrders<T(!new)>(t: seq<T>, n: nat, cmp: (T, T) -> int)
    requires StrictWeakOrder(cmp) && 0 < n <= |t| && HeapUpTo(t, n - 1, cmp)
    ensures HeapUpTo(SiftUp(t, n - 1, cmp), n, cmp)
  {
    assert SiftUpInvariant(t, n, n - 1, cmp);
    SiftUpRestoresHeap(t, n, n - 1, cmp);
  }

  /** One more `_bubbleUp` keeps the elements and everything from slot `n` on. */
  lemma HeapifyStepKeeps<T>(s: seq<T>, t: seq<T>, n: nat, cmp: (T, T) -> int)
    requires 0 < n <= |s| == |t| && multiset(t) == multiset(s) && t[n - 1..] == s[n - 1..]
    ensures multiset(SiftUp(t, n - 1, cmp)) == multiset(s)
    ensures SiftUp(t, n - 1, cmp)[n..] == s[n..]
  {
    SiftUpPermutes(t, n - 1, cmp);
    assert t[n..] == t[n - 1..][1..];
  }

  /** Dequeuing everything, one root at a time. */
  function Drain<T>(s: seq<T>, cmp: (T, T) -> int): (r: seq<T>)
    decreases |s|
  {
    if s == [] then [] else [s[0]] + Drain(Dequeued(s, cmp), cmp)
  }

  /** Repeated `dequeue` on a heap yields its elements in ascending comparator order. */
  lemma {:induction false} DrainSorted<T(!new)>(s: seq<T>, cmp: (T, T) -> int)
    requires StrictWeakOrder(cmp) && HeapOrdered(s, cmp)
    ensures multiset(Drain(s, cmp)) == multiset(s)
    ensures forall i :: 0 < i < |Drain(s, cmp)| ==> !Less(cmp, Drain(s, cmp)[i], Drain(s, cmp)[i - 1])
    decreases |s|
  {
    if s != [] {
      var rest := Dequeued(s, cmp);
      var d, dr := Drain(s, cmp), Drain(rest, cmp);
      assert d == [s[0]] + dr;
      DequeuePreservesHeap(s, cmp);
      DrainSorted(rest, cmp);
      assert multiset(s) == multiset{s[0]} + multiset(rest);
      if rest != [] {
        DrainHead(s, rest, cmp);
      }
      forall i | 0 < i < |d|
        ensures !Less(cmp, d[i], d[i - 1])
      {
        if i > 1 {
          assert d[i] == dr[i - 1] && d[i - 1] == dr[i - 2];
        }
      }
    }
  }

  /** The second element dequeued sorts no earlier than the first. */
  lemma DrainHead<T(!new)>(s: seq<T>, rest: seq<T>, cmp: (T, T) -> int)
    requires StrictWeakOrder(cmp) && HeapOrdered(s, cmp) && s != [] && rest != []
    requires multiset(s) == multiset{s[0]} + multiset(rest)
    ensures !Less(cmp, rest[0], s[0])
  {
    assert rest[0] in multiset(s);
    var k :| 0 <= k < |s| && s[k] == rest[0];
    RootIsMinimum(s, cmp, k);
  }

  // ---------------------------------------------------------------------
  // The class

  /** `array[i]`, or `undefined` past the end. */
  function At<T>(s: seq<T>, i: nat): Option<T>
  {
    if i < |s| then Some(s[i]) else None
  }

  /**
   * `PriorityQueue<T>`. `length` is the private `_length`: only the
   * constructor assigns it, so `size` and `isEmpty()` report the number of
   * initial values however many elements are enqueued or dequeued later.
   */
  class PriorityQueue<T(!new)> {
    var length: int
    var comparator: (T, T) -> int
    var data: seq<T>

    /**
     * `new PriorityQueue({comparator, initialValues})`: copies the initial
     * values and sifts each index up in turn. A queue of numbers without a
     * comparator of its own is built with `DefaultComparator`.
     */
    constructor (comparator: (T, T) -> int, initialValues: seq<T>)
      ensures this.comparator == comparator && length == |initialValues|
      ensures data == Heapified(initialValues, comparator)
      ensures StrictWeakOrder(comparator) ==> HeapOrdered(data, comparator)
      ensures multiset(data) == multiset(initialValues)
    {
      this.comparator := comparator;
      length := |initialValues|;
      data := initialValues;
      new;
      Heapify();
      HeapifyPermutes(initialValues, comparator);
      if StrictWeakOrder(comparator) {
        HeapifyMakesHeap(initialValues, |initialValues|, comparator);
      }
    }

    /**
     * `get size`: the count recorded in `_length`. Only the constructor sets
     * it, so it is not the current number of elements (see `SizeScenario`).
     */
    function Size(): (r: int)
      reads this
      ensures r == length
    {
      length
    }

    /** `isEmpty()`: true exactly when `size` is 0. */
    function IsEmpty(): (r: bool)
      reads this
      ensures r <==> Size() == 0
    {
      length == 0
    }

    /** `_heapify()`: `_bubbleUp(i)` for every index, in increasing order. */
    method Heapify()
      modifies this
      ensures data == Heapified(old(data), comparator)
      ensures comparator == old(comparator) && length == old(length)
    {
      if |data| > 0 {
        for i := 0 to |data|
          invariant |data| == |old(data)| && data == HeapifyUpTo(old(data), i, comparator)
          invariant comparator == old(comparator) && length == old(length)
        {
          BubbleUp(i);
        }
      }
    }

    /** `enqueue(value)`: the backing array gains exactly `value`, heap order is kept, and the array is returned. */
    method Enqueue(value: T) returns (r: seq<T>)
      modifies this
      ensures data == Enqueued(old(data), value, comparator) && r == data
      ensures comparator == old(comparator) && length == old(length)
      ensures multiset(data) == multiset(old(data)) + multiset{value}
      ensures StrictWeakOrder(comparator) && HeapOrdered(old(data), comparator) ==> HeapOrdered(data, comparator)
    {
      data := data + [value];
      BubbleUp(|data| - 1);
      r := data;
      SiftUpPermutes(old(data) + [value], |old(data)|, comparator);
      if StrictWeakOrder(comparator) && HeapOrdered(old(data), comparator) {
        EnqueuePreservesHeap(old(data), value, comparator);
      }
    }

    /**
     * `dequeue()`: the former root, after moving the last element to the root
     * and sifting it down; `undefined` on an empty queue.
     */
    method Dequeue() returns (r: Option<T>)
      modifies this
      ensures old(data) == [] ==> r == None && data == []
      ensures old(data) != [] ==> r == Some(old(data)[0]) && data == Dequeued(old(data), comparator)
      ensures old(data) != [] ==> multiset(data) == multiset(old(data)) - multiset{old(data)[0]}
      ensures comparator == old(comparator) && length == old(length)
      ensures StrictWeakOrder(comparator) && HeapOrdered(old(data), comparator) ==>
                HeapOrdered(data, comparator) && (r.Some? ==> forall x :: x in old(data) ==> !Less(comparator, x, r.value))
    {
      var ret := At(data, 0);
      var last: Option<T> := None;
      if |data| > 0 {
        last := Some(data[|data| - 1]);
        data := data[..|data| - 1];
      }
      if |data| > 0 && last.Some? {
        data := data[0 := last.value];
        BubbleDown(0);
      }
      r := ret;
      if old(data) != [] {
        if |old(data)| > 1 {
          assert old(data)[..|old(data)| - 1][0 := last.value] == [last.value] + old(data)[1..|old(data)| - 1];
        }
        DequeuedPermutes(old(data), comparator);
        if StrictWeakOrder(comparator) && HeapOrdered(old(data), comparator) {
          DequeuePreservesHeap(old(data), comparator);
          RootIsLeast(old(data), comparator);
        }
      }
    }

    /** `peek()`: the root, a least element of a heap, or `undefined` when empty. */
    method Peek() returns (r: Option<T>)
      ensures r.None? <==> data == []
      ensures r.Some? ==> r.value == data[0]
      ensures r.Some? && StrictWeakOrder(comparator) && HeapOrdered(data, comparator) ==>
                forall x :: x in data ==> !Less(comparator, x, r.value)
    {
      r := At(data, 0);
      if r.Some? && StrictWeakOrder(comparator) && HeapOrdered(data, comparator) {
        RootIsLeast(data, comparator);
      }
    }

    /** `clear()`: `data.length = 0`; `_length` and the comparator stay. */
    method Clear()
      modifies this
      ensures data == [] && length == old(length) && comparator == old(comparator)
    {
      data := [];
    }

    /** `_bubbleUp(pos)`. */
    method BubbleUp(pos: nat)
      requires pos < |data|
      modifies this
      ensures data == SiftUp(old(data), pos, comparator)
      ensures comparator == old(comparator) && length == old(length)
    {
      var p: nat := pos;
      while p > 0
        invariant p < |data| && SiftUp(data, p, comparator) == SiftUp(old(data), pos, comparator)
        invariant comparator == old(comparator) && length == old(length)
      {
        var parent := (p - 1) / 2;
        if comparator(data[p], data[parent]) < 0 {
          var x := data[parent];
          data := data[parent := data[p]];
          data := data[p := x];
          p := parent;
        } else {
          break;
        }
      }
    }

    /** `_bubbleDown(pos)`. */
    method BubbleDown(pos: nat)
      modifies this
      ensures data == SiftDown(old(data), pos, comparator)
      ensures comparator == old(comparator) && length == old(length)
    {
      var last := |data| - 1;
      var p := pos;
      while true
        invariant |data| == |old(data)| && SiftDown(data, p, comparator) == SiftDown(old(data), pos, comparator)
        invariant comparator == old(comparator) && length == old(length)
        decreases |data| - p
      {
        var left := 2 * p + 1;
        var right := left + 1;
        var minIndex := p;
        if left <= last && comparator(data[left], data[minIndex]) < 0 {
          minIndex := left;
        }
        if right <= last && comparator(data[right], data[minIndex]) < 0 {
          minIndex := right;
        }
        if minIndex != p {
          assert minIndex == MinIndex(data, p, comparator);
          var x := data[minIndex];
          data := data[minIndex := data[p]];
          data := data[p := x];
          p := minIndex;
        } else {
          break;
        }
      }
    }

    /** `[Symbol.iterator]()`: an iterator positioned before `data[0]`. */
    method Iterator() returns (iter: QueueIterator<T>)
      ensures fresh(iter) && iter.queue == this && iter.count == 0 && iter.current == At(data, 0)
    {
      iter := new QueueIterator(this);
    }

    /** `for (const x of queue)`: the elements in storage order, not sorted order. */
    method Elements() returns (xs: seq<T>)
      ensures xs == data
    {
      var iter := Iterator();
      xs := [];
      while true
        invariant fresh(iter) && iter.queue == this
        invariant iter.count <= |data| && xs == data[..iter.count] && iter.current == At(data, iter.count)
        decreases |data| - iter.count
      {
        var step := iter.Next();
        if step.Done? {
          break;
        }
        xs := xs + [step.value.value];
      }
    }
  }

  /** One result of the iterator's `next()`: `{value, done: false}` or `{value: count, done: true}`. */
  datatype IterStep<T> = Yield(value: Option<T>) | Done(count: nat)

  /** The object returned by `[Symbol.iterator]()`: it reads the queue's array live. */
  class QueueIterator<T(!new)> {
    const queue: PriorityQueue<T>
    var count: nat
    var current: Option<T>

    constructor (queue: PriorityQueue<T>)
      ensures this.queue == queue && count == 0 && current == At(queue.data, 0)
    {
      this.queue := queue;
      count := 0;
      current := At(queue.data, 0);
    }

    /** `next()`: yields the element read last time and reads the next slot, or reports done with the count. */
    method Next() returns (step: IterStep<T>)
      modifies this
      ensures old(count) < |queue.data| ==>
                step == Yield(old(current)) && count == old(count) + 1 && current == At(queue.data, count)
      ensures old(count) >= |queue.data| ==>
                step == Done(old(count)) && count == old(count) && current == old(current)
    {
      if count < |queue.data| {
        step := Yield(current);
        count := count + 1;
        current := At(queue.data, count);
      } else {
        step := Done(count);
      }
    }
  }

  lemma HeapifyPermutes<T>(s: seq<T>, cmp: (T, T) -> int)
    ensures multiset(Heapified(s, cmp)) == multiset(s)
  {
    HeapifyPermutesUpTo(s, |s|, cmp);
  }

  lemma {:induction false} HeapifyPermutesUpTo<T>(s: seq<T>, n: nat, cmp: (T, T) -> int)
    requires n <= |s|
    ensures multiset(HeapifyUpTo(s, n, cmp)) == multiset(s)
  {
    if n > 0 {
      HeapifyPermutesUpTo(s, n - 1, cmp);
      SiftUpPermutes(HeapifyUpTo(s, n - 1, cmp), n - 1, cmp);
    }
  }

  lemma DequeuedPermutes<T>(s: seq<T>, cmp: (T, T) -> int)
    requires s != []
    ensures multiset(Dequeued(s, cmp)) == multiset(s) - multiset{s[0]}
  {
    if |s| > 1 {
      LastToFront(s);
      SiftDownPermutes([s[|s| - 1]] + s[1..|s| - 1], 0, cmp);
    }
  }

  /** Moving the last element into the root's slot keeps every element but the root. */
  lemma LastToFront<T>(s: seq<T>)
    requires |s| > 1
    ensures multiset([s[|s| - 1]] + s[1..|s| - 1]) == multiset(s) - multiset{s[0]}
  {
    var last, middle := s[|s| - 1], s[1..|s| - 1];
    assert s == [s[0]] + (middle + [last]);
    calc {
      multiset(s) - multiset{s[0]};
      multiset(middle + [last]);
      multiset([last] + middle);
    }
  }

  /** No element of a heap sorts strictly before its root. */
  lemma RootIsLeast<T(!new)>(s: seq<T>, cmp: (T, T) -> int)
    requires StrictWeakOrder(cmp) && HeapOrdered(s, cmp) && s != []
    ensures forall x :: x in s ==> !Less(cmp, x, s[0])
  {
    forall x | x in s
      ensures !Less(cmp, x, s[0])
    {
      var i :| 0 <= i < |s| && s[i] == x;
      RootIsMinimum(s, cmp, i);
    }
  }

  /** The concrete heaps the two scenarios below pass through, one array step at a time. */
  lemma EnqueueSteps()
    ensures Enqueued([], 1, DefaultComparator) == [1]
    ensures Enqueued([1], 2, DefaultComparator) == [1, 2]
    ensures Enqueued([1, 2], 3, DefaultComparator) == [1, 2, 3]
    ensures Enqueued([1, 2, 3], 4, DefaultComparator) == [1, 2, 3, 4]
    ensures Enqueued([], 4, DefaultComparator) == [4]
    ensures Enqueued([4], 2, DefaultComparator) == [2, 4]
    ensures Enqueued([2, 4], 3, DefaultComparator) == [2, 4, 3]
  {
  }

  lemma EnqueueOneSteps()
    ensures Enqueued([2, 4, 3], 1, DefaultComparator) == [1, 2, 3, 4]
  {
    var s := [2, 4, 3, 1];
    assert SiftUp(s, 3, DefaultComparator) == SiftUp([2, 1, 3, 4], 1, DefaultComparator);
    assert SiftUp([2, 1, 3, 4], 1, DefaultComparator) == SiftUp([1, 2, 3, 4], 0, DefaultComparator);
  }

  lemma DequeueSteps()
    ensures Dequeued([1, 2, 3, 4], DefaultComparator) == [2, 4, 3]
    ensures Dequeued([2, 4, 3], DefaultComparator) == [3, 4]
    ensures Dequeued([3, 4], DefaultComparator) == [4]
    ensures Dequeued([4], DefaultComparator) == []
  {
    assert [[1, 2, 3, 4][3]] + [1, 2, 3, 4][1..3] == [4, 2, 3];
    assert [[2, 4, 3][2]] + [2, 4, 3][1..2] == [3, 4];
    assert [[3, 4][1]] + [3, 4][1..1] == [4];
    assert MinIndex([4, 2, 3], 0, DefaultComparator) == 1;
    assert SiftDown([4, 2, 3], 0, DefaultComparator) == SiftDown([2, 4, 3], 1, DefaultComparator);
    assert MinIndex([2, 4, 3], 1, DefaultComparator) == 1;
    assert SiftDown([2, 4, 3], 1, DefaultComparator) == [2, 4, 3];
    assert MinIndex([3, 4], 0, DefaultComparator) == 0;
    assert MinIndex([4], 0, DefaultComparator) == 0;
  }

  /** examples/queue.js: after enqueueing 1, 2, 3, 4, iteration shows 1..4, `dequeue` gives 1 and `peek` then gives 2. */
  method QueueExample() returns (elements: seq<int>, first: Option<int>, next: Option<int>)
    ensures elements == [1, 2, 3, 4] && first == Some(1) && next == Some(2)
  {
    EnqueueSteps();
    DequeueSteps();
    var queue := new PriorityQueue(DefaultComparator, []);
    assert queue.data == [];
    var _ := queue.Enqueue(1);
    var _ := queue.Enqueue(2);
    var _ := queue.Enqueue(3);
    var _ := queue.Enqueue(4);
    elements := queue.Elements();
    first := queue.Dequeue();
    next := queue.Peek();
  }

  /**
   * Enqueue 4, 2, 3, 1 one at a time, then dequeue four times: the values come
   * out as 1, 2, 3, 4, but `size` stays 0 and `isEmpty()` stays true
   * throughout, because `_length` is fixed at construction.
   */
  method SizeScenario() returns (sizes: seq<int>, drained: seq<Option<int>>, emptiness: seq<bool>)
    ensures drained == [Some(1), Some(2), Some(3), Some(4)]
    ensures sizes == [0, 0] && emptiness == [true, true]
  {
    var queue := FourInReverse();
    sizes, emptiness := [queue.Size()], [queue.IsEmpty()];
    var a, b := TakeTwo(queue);
    var c, d := TakeTwo(queue);
    drained := [a, b, c, d];
    sizes, emptiness := sizes + [queue.Size()], emptiness + [queue.IsEmpty()];
  }

  /** Two dequeues from the queues `SizeScenario` passes through. */
  method TakeTwo(queue: PriorityQueue<int>) returns (first: Option<int>, second: Option<int>)
    requires queue.comparator == DefaultComparator
    requires queue.data == [1, 2, 3, 4] || queue.data == [3, 4]
    modifies queue
    ensures old(queue.data) == [1, 2, 3, 4] ==> first == Some(1) && second == Some(2) && queue.data == [3, 4]
    ensures old(queue.data) == [3, 4] ==> first == Some(3) && second == Some(4) && queue.data == []
    ensures queue.length == old(queue.length) && queue.comparator == old(queue.comparator)
  {
    DequeueSteps();
    first := queue.Dequeue();
    second := queue.Dequeue();
  }

  /** A queue built empty, then given 4, 2, 3 and 1. */
  method FourInReverse() returns (queue: PriorityQueue<int>)
    ensures fresh(queue) && queue.data == [1, 2, 3, 4] && queue.length == 0
    ensures queue.comparator == DefaultComparator
  {
    EnqueueSteps();
    EnqueueOneSteps();
    queue := new PriorityQueue(DefaultComparator, []);
    assert queue.data == [];
    var _ := queue.Enqueue(4);
    var _ := queue.Enqueue(2);
    var _ := queue.Enqueue(3);
    var _ := queue.Enqueue(1);
  }
}
