/**
 * The binary-heap priority queue. Items live in one list, `container`, that is changed
 * in place by appends, pops and swaps; the item at every position other than the first
 * has no greater priority than the item at its parent position. Items are compared
 * through their key: by "greater than" (a max-heap) by default, by "less than" (a
 * min-heap) when the queue is reversed. Both are the same max-heap on `Priority`, which
 * negates the key when the queue is reversed.
 */
module Queues {
  import opened Wrappers

  /** The failures the queue reports: Python's ValueError and IndexError. */
  datatype QueueError = ValueError | IndexError

  /** The key argument of the constructor: a callable, or some value that cannot be called. */
  datatype KeyArgument<-T> = Callable(f: T -> int) | NotCallable

  /** The predicate the queue compares keys with: `>` by default, `<` when reversed. */
  predicate Greater<T>(key: T -> int, reverse: bool, x: T, y: T) {
    if reverse then key(x) < key(y) else key(x) > key(y)
  }

  /** The number every comparison of the queue orders items by, greatest first. */
  function Priority<T>(key: T -> int, reverse: bool, x: T): int {
    if reverse then -key(x) else key(x)
  }

  /** Comparing keys is comparing priorities: both orders are a max-heap on `Priority`. */
  lemma GreaterIsHigherPriority<T>(key: T -> int, reverse: bool, x: T, y: T)
    ensures Greater(key, reverse, x, y) <==> Priority(key, reverse, x) > Priority(key, reverse, y)
    ensures !reverse ==> (Greater(key, reverse, x, y) <==> key(x) > key(y))
    ensures reverse ==> (Greater(key, reverse, x, y) <==> key(x) < key(y))
  {
  }

  /** Index of the parent position: the floor of `(i - 1) / 2`, which is -1 for position 0. */
  function ParentOf(i: int): (p: int)
    ensures 2 * p + 1 <= i <= 2 * p + 2
  {
    (i - 1) / 2
  }

  /** Index of the left child position. */
  function LeftChild(i: int): int { 2 * i + 1 }

  /** Index of the right child position. */
  function RightChild(i: int): int { 2 * i + 2 }

  /** Both children of a position have it as their parent; the root has none inside the heap. */
  lemma ChildrenHaveParent(i: int)
    ensures ParentOf(LeftChild(i)) == i && ParentOf(RightChild(i)) == i
    ensures ParentOf(0) == -1
    ensures i >= 1 ==> 0 <= ParentOf(i) < i
  {
  }

  /**
   * Heap order below `lo`: every position whose parent is at least `lo` holds an item of
   * no greater priority than its parent's. With `lo == 0` this is the whole heap invariant.
   */
  ghost predicate HeapFrom<T>(key: T -> int, reverse: bool, c: seq<T>, lo: int) {
    forall j :: 1 <= j < |c| && lo <= ParentOf(j) ==>
      Priority(key, reverse, c[j]) <= Priority(key, reverse, c[ParentOf(j)])
  }

  /** Items never have greater priority than any of their ancestors, so the root is a maximum. */
  lemma {:induction false} RootIsMax<T>(key: T -> int, reverse: bool, c: seq<T>, k: int)
    requires HeapFrom(key, reverse, c, 0) && 0 <= k < |c|
    ensures Priority(key, reverse, c[k]) <= Priority(key, reverse, c[0])
    decreases k
  {
    if k > 0 {
      RootIsMax(key, reverse, c, ParentOf(k));
    }
  }

  /** The list `view` returns of a valid heap need not be in priority order. */
  lemma ViewIsNotSorted()
    ensures HeapFrom(x => x, false, [3, 1, 2], 0)
    ensures !(forall i, j :: 0 <= i < j < 3 ==> Priority(x => x, false, [3, 1, 2][j]) <= Priority(x => x, false, [3, 1, 2][i]))
  {
    var c := [3, 1, 2];
    assert ParentOf(1) == 0 && ParentOf(2) == 0;
    assert Priority(x => x, false, c[1]) < Priority(x => x, false, c[2]);
  }

  /** The first position holding `x` in `s`, or -1 when `x` does not occur. */
  function IndexOf<T(==)>(s: seq<T>, x: T): (r: int)
    ensures -1 <= r < |s|
    ensures r == -1 <==> x !in s
    ensures r >= 0 ==> s[r] == x && forall k :: 0 <= k < r ==> s[k] != x
  {
    if |s| == 0 then -1
    else if s[0] == x then 0
    else
      var r := IndexOf(s[1..], x);
      if r == -1 then -1 else r + 1
  }

  /** `s` with the items at positions `i` and `j` exchanged. */
  function Swapped<T>(s: seq<T>, i: int, j: int): (r: seq<T>)
    requires 0 <= i < |s| && 0 <= j < |s|
    ensures |r| == |s| && r[i] == s[j] && r[j] == s[i]
    ensures forall k :: 0 <= k < |s| && k != i && k != j ==> r[k] == s[k]
    ensures multiset(r) == multiset(s)
  {
    var t := s[i := s[j]];
    assert multiset(t) == multiset(s) - multiset{s[i]} + multiset{s[j]};
    t[j := s[i]]
  }

  /** Items in non-increasing priority order, as successive pops yield them. */
  ghost predicate PriorityOrdered<T>(key: T -> int, reverse: bool, s: seq<T>) {
    forall i, j :: 0 <= i < j < |s| ==> Priority(key, reverse, s[j]) <= Priority(key, reverse, s[i])
  }

  /**
   * The list `remove` sifts from: the last item overwrites position `index` and the last
   * position is dropped. Exactly the item at `index` leaves.
   */
  function LastMovedTo<T>(c: seq<T>, index: int): (r: seq<T>)
    requires 0 <= index < |c|
    ensures |r| == |c| - 1
    ensures multiset(r) == multiset(c) - multiset{c[index]}
    ensures forall k :: 0 <= k < |r| && k != index ==> r[k] == c[k]
    ensures index < |r| ==> r[index] == c[|c| - 1]
  {
    MovedCounts(c, index);
    c[index := c[|c| - 1]][..|c| - 1]
  }

  lemma MovedCounts<T>(c: seq<T>, index: int)
    requires 0 <= index < |c|
    ensures multiset(c[index := c[|c| - 1]][..|c| - 1]) == multiset(c) - multiset{c[index]}
  {
    var last := c[|c| - 1];
    var d := c[index := last];
    assert d == d[..|c| - 1] + [last];
    var kept := multiset(d[..|c| - 1]);
    assert multiset(d) == kept + multiset{last};
    assert multiset(d) == multiset(c) - multiset{c[index]} + multiset{last};
    assert forall x :: kept[x] == (multiset(c) - multiset{c[index]})[x] by {
      forall x ensures kept[x] == (multiset(c) - multiset{c[index]})[x] {
        assert (kept + multiset{last})[x] == (multiset(c) - multiset{c[index]} + multiset{last})[x];
      }
    }
  }

  /**
   * What sifting up from `i` needs: the heap order holds at every position other than `i`
   * and its children, and the children of `i` are no greater than the parent of `i`.
   */
  ghost predicate UpReady<T>(key: T -> int, reverse: bool, c: seq<T>, i: int) {
    (forall j :: 1 <= j < |c| && j != i && ParentOf(j) != i ==>
      Priority(key, reverse, c[j]) <= Priority(key, reverse, c[ParentOf(j)])) &&
    (0 < i < |c| ==> forall j :: 1 <= j < |c| && ParentOf(j) == i ==>
      Priority(key, reverse, c[j]) <= Priority(key, reverse, c[ParentOf(i)]))
  }

  /** The children of position `i` are no greater than the item at `i`. */
  ghost predicate ChildrenBelow<T>(key: T -> int, reverse: bool, c: seq<T>, i: int) {
    forall j :: 1 <= j < |c| && ParentOf(j) == i ==>
      Priority(key, reverse, c[j]) <= Priority(key, reverse, c[i])
  }

  /**
   * What sifting down from `i` needs to restore the heap order below `lo`: that order holds
   * except at the children of `i`, and when the parent of `i` is at least `lo`, those
   * children are no greater than it.
   */
  ghost predicate DownReady<T>(key: T -> int, reverse: bool, c: seq<T>, i: int, lo: int) {
    (forall j :: 1 <= j < |c| && lo <= ParentOf(j) && ParentOf(j) != i ==>
      Priority(key, reverse, c[j]) <= Priority(key, reverse, c[ParentOf(j)])) &&
    (0 < i < |c| && lo <= ParentOf(i) ==> forall j :: 1 <= j < |c| && ParentOf(j) == i ==>
      Priority(key, reverse, c[j]) <= Priority(key, reverse, c[ParentOf(i)]))
  }

  /** Whether the item at `i` has greater priority than its parent's, so sifting up moves it. */
  ghost predicate Rises<T>(key: T -> int, reverse: bool, c: seq<T>, i: int) {
    0 < i < |c| && Priority(key, reverse, c[i]) > Priority(key, reverse, c[ParentOf(i)])
  }

  /**
   * Swapping an item that rises with its parent leaves the list ready to be sifted up from
   * the parent, with the parent's children below it.
   */
  lemma SwapUpReady<T>(key: T -> int, reverse: bool, c: seq<T>, i: int)
    requires UpReady(key, reverse, c, i) && Rises(key, reverse, c, i)
    ensures UpReady(key, reverse, Swapped(c, i, ParentOf(i)), ParentOf(i))
    ensures ChildrenBelow(key, reverse, Swapped(c, i, ParentOf(i)), ParentOf(i))
  {
    var p := ParentOf(i);
    var d := Swapped(c, i, p);
    forall j | 1 <= j < |d| && ParentOf(j) == p
      ensures Priority(key, reverse, d[j]) <= Priority(key, reverse, d[p])
    {
      if j != i {
        assert Priority(key, reverse, c[j]) <= Priority(key, reverse, c[p]);
      }
    }
    forall j | 1 <= j < |d| && j != p && ParentOf(j) != p
      ensures Priority(key, reverse, d[j]) <= Priority(key, reverse, d[ParentOf(j)])
    {
      if ParentOf(j) == i {
        assert Priority(key, reverse, c[j]) <= Priority(key, reverse, c[p]);
      }
    }
    if 0 < p {
      forall j | 1 <= j < |d| && ParentOf(j) == p
        ensures Priority(key, reverse, d[j]) <= Priority(key, reverse, d[ParentOf(p)])
      {
        assert Priority(key, reverse, c[p]) <= Priority(key, reverse, c[ParentOf(p)]);
        if j != i {
          assert Priority(key, reverse, c[j]) <= Priority(key, reverse, c[p]);
        }
      }
    }
  }

  /** When the item at `i` does not rise and its children are below it, the list is a heap. */
  lemma StayUpIsHeap<T>(key: T -> int, reverse: bool, c: seq<T>, i: int)
    requires UpReady(key, reverse, c, i) && ChildrenBelow(key, reverse, c, i) && !Rises(key, reverse, c, i)
    ensures HeapFrom(key, reverse, c, 0)
  {
  }

  /**
   * Swapping the item at `i` with its larger child `m`, when that child is greater,
   * leaves the list ready to be sifted down from `m`.
   */
  lemma SwapDownReady<T>(key: T -> int, reverse: bool, c: seq<T>, i: int, m: int, lo: int)
    requires 0 <= lo <= i && DownReady(key, reverse, c, i, lo)
    requires 0 <= i < m < |c| && ParentOf(m) == i
    requires forall j :: 1 <= j < |c| && ParentOf(j) == i ==> Priority(key, reverse, c[j]) <= Priority(key, reverse, c[m])
    requires Priority(key, reverse, c[m]) > Priority(key, reverse, c[i])
    ensures DownReady(key, reverse, Swapped(c, i, m), m, lo)
  {
    var d := Swapped(c, i, m);
    forall j | 1 <= j < |d| && lo <= ParentOf(j) && ParentOf(j) != m
      ensures Priority(key, reverse, d[j]) <= Priority(key, reverse, d[ParentOf(j)])
    {
      if j == i {
        assert Priority(key, reverse, c[m]) <= Priority(key, reverse, c[ParentOf(i)]);
      }
    }
    forall j | 1 <= j < |d| && ParentOf(j) == m
      ensures Priority(key, reverse, d[j]) <= Priority(key, reverse, d[ParentOf(m)])
    {
      assert Priority(key, reverse, c[j]) <= Priority(key, reverse, c[m]);
    }
  }

  /** When no child of `i` is greater than the item at `i`, a list ready to sift down from `i` is in heap order below `lo`. */
  lemma StayDownIsHeap<T>(key: T -> int, reverse: bool, c: seq<T>, i: int, lo: int)
    requires 0 <= lo <= i && DownReady(key, reverse, c, i, lo) && ChildrenBelow(key, reverse, c, i)
    ensures HeapFrom(key, reverse, c, lo)
  {
  }

  /** A heap is ready to be sifted down from any position. */
  lemma HeapIsDownReady<T>(key: T -> int, reverse: bool, c: seq<T>, i: int)
    requires HeapFrom(key, reverse, c, 0) && 0 <= i
    ensures DownReady(key, reverse, c, i, 0)
  {
    if 0 < i < |c| {
      forall j | 1 <= j < |c| && ParentOf(j) == i
        ensures Priority(key, reverse, c[j]) <= Priority(key, reverse, c[ParentOf(i)])
      {
        assert Priority(key, reverse, c[j]) <= Priority(key, reverse, c[i]);
      }
    }
  }

  /**
   * After `remove` moves the last item of a heap `c` to position `index` and drops the
   * last position, the list is ready to be sifted up from `index`; if the moved item
   * rises, the children of `index` are below it, and otherwise the list is ready to be
   * sifted down from `index`.
   */
  lemma PlacedIsReady<T>(key: T -> int, reverse: bool, c: seq<T>, index: int)
    requires HeapFrom(key, reverse, c, 0) && 0 <= index < |c|
    ensures UpReady(key, reverse, LastMovedTo(c, index), index)
    ensures Rises(key, reverse, LastMovedTo(c, index), index) ==>
      ChildrenBelow(key, reverse, LastMovedTo(c, index), index)
    ensures !Rises(key, reverse, LastMovedTo(c, index), index) ==>
      DownReady(key, reverse, LastMovedTo(c, index), index, 0)
  {
    var placed := LastMovedTo(c, index);
    if Rises(key, reverse, placed, index) {
      forall j | 1 <= j < |placed| && ParentOf(j) == index
        ensures Priority(key, reverse, placed[j]) <= Priority(key, reverse, placed[index])
      {
        assert Priority(key, reverse, c[j]) <= Priority(key, reverse, c[index]) <= Priority(key, reverse, c[ParentOf(index)]);
      }
    }
    if 0 < index < |placed| {
      forall j | 1 <= j < |placed| && ParentOf(j) == index
        ensures Priority(key, reverse, placed[j]) <= Priority(key, reverse, placed[ParentOf(index)])
      {
        assert Priority(key, reverse, c[j]) <= Priority(key, reverse, c[index]) <= Priority(key, reverse, c[ParentOf(index)]);
      }
    }
  }

  /** An item no greater than the last of a priority-ordered list may follow it. */
  lemma AppendKeepsOrder<T>(key: T -> int, reverse: bool, s: seq<T>, x: T)
    requires PriorityOrdered(key, reverse, s)
    requires |s| > 0 ==> Priority(key, reverse, x) <= Priority(key, reverse, s[|s| - 1])
    ensures PriorityOrdered(key, reverse, s + [x])
  {
    var t := s + [x];
    forall i, j | 0 <= i < j < |t| ensures Priority(key, reverse, t[j]) <= Priority(key, reverse, t[i]) {
      if j == |s| && i < |s| - 1 {
        assert Priority(key, reverse, s[|s| - 1]) <= Priority(key, reverse, s[i]);
      }
    }
  }

  /** Every item left after one item is taken out was there before. */
  lemma RemainingWereQueued<T>(rest: seq<T>, before: seq<T>, taken: T)
    requires multiset(rest) == multiset(before) - multiset{taken}
    ensures forall x :: x in rest ==> x in before
  {
    forall x | x in rest ensures x in before {
      assert multiset(rest)[x] > 0;
    }
  }

  class PriorityQueue<T(==)> {
    const key: T -> int
    const reverse: bool
    var container: seq<T>

    /** `_gt` applied to the keys of two items. */
    predicate Gt(x: T, y: T) {
      Greater(key, reverse, x, y)
    }

    function Prio(x: T): int {
      Priority(key, reverse, x)
    }

    ghost predicate Valid()
      reads this
    {
      HeapFrom(key, reverse, container, 0)
    }

    /** The number of items queued. */
    function Len(): (n: nat)
      reads this
      ensures n == |container|
    {
      |container|
    }

    /** Whether position `i` lies within the list. */
    predicate InHeap(i: int)
      reads this
    {
      0 <= i < |container|
    }

    /** `_compare`: whether the item at `a` is greater, by key, than the item at `b`. */
    predicate Compare(a: int, b: int)
      reads this
      requires InHeap(a) && InHeap(b)
    {
      Gt(container[a], container[b])
    }

    /** Builds a queue of the given items, ordered into a heap. */
    constructor (iterable: seq<T>, key: T -> int, reverse: bool)
      ensures this.key == key && this.reverse == reverse
      ensures Valid() && multiset(container) == multiset(iterable)
    {
      this.key := key;
      this.reverse := reverse;
      container := iterable;
      new;
      if |iterable| > 0 {
        Heapify();
      }
    }

    /** Construction with a key argument that may not be callable, which is a ValueError. */
    static method New(iterable: seq<T>, key: KeyArgument<T>, reverse: bool)
      returns (r: Result<PriorityQueue<T>, QueueError>)
      ensures key.NotCallable? <==> r == Err(ValueError)
      ensures r.Ok? ==> fresh(r.value) && r.value.Valid() && r.value.reverse == reverse
      ensures r.Ok? ==> r.value.key == key.f && multiset(r.value.container) == multiset(iterable)
    {
      if key.NotCallable? {
        return Err(ValueError);
      }
      var q := new PriorityQueue(iterable, key.f, reverse);
      return Ok(q);
    }

    /** The highest-priority item, without removing it; a ValueError when empty. */
    function Top(): (r: Result<T, QueueError>)
      reads this
      ensures r.Err? <==> |container| == 0
      ensures r.Err? ==> r.error == ValueError
      ensures r.Ok? ==> r.value in container
      ensures r.Ok? && Valid() ==> forall x :: x in container ==> Prio(x) <= Prio(r.value)
    {
      if |container| == 0 then Err(ValueError)
      else
        var top := container[0];
        assert Valid() ==> forall x :: x in container ==> Prio(x) <= Prio(top) by {
          if Valid() {
            forall x | x in container ensures Prio(x) <= Prio(top) {
              var k :| 0 <= k < |container| && container[k] == x;
              RootIsMax(key, reverse, container, k);
            }
          }
        }
        Ok(top)
    }

    /** The list as stored, which is not priority order. */
    function View(): (r: seq<T>)
      reads this
      ensures r == container
      ensures |r| > 0 && Valid() ==> forall k :: 0 <= k < |r| ==> Prio(r[k]) <= Prio(r[0])
    {
      assert |container| > 0 && Valid() ==>
          forall k :: 0 <= k < |container| ==> Prio(container[k]) <= Prio(container[0]) by {
        if |container| > 0 && Valid() {
          forall k | 0 <= k < |container| ensures Prio(container[k]) <= Prio(container[0]) {
            RootIsMax(key, reverse, container, k);
          }
        }
      }
      container
    }

    /** The first position holding `item`, or -1 when no stored item equals it. */
    function Find(item: T): (r: int)
      reads this
      ensures r == -1 <==> item !in container
      ensures r >= 0 ==> r < |container| && container[r] == item
      ensures r >= 0 ==> forall k :: 0 <= k < r ==> container[k] != item
    {
      IndexOf(container, item)
    }

    /**
     * `_sift_up`: while the item at `i` is greater than its parent's, swap them and go on
     * from the parent. When the children of `i` are no greater than the item at `i`, the
     * result is a heap; when the item at `i` does not rise, nothing changes.
     */
    method SiftUp(i: int)
      requires UpReady(key, reverse, container, i)
      modifies this
      ensures multiset(container) == multiset(old(container)) && |container| == |old(container)|
      ensures !Rises(key, reverse, old(container), i) ==> container == old(container)
      ensures ChildrenBelow(key, reverse, old(container), i) ==> Valid()
      decreases if i < 0 then 0 else i
    {
      var parent := ParentOf(i);
      if InHeap(i) && InHeap(parent) && Compare(i, parent) {
        GreaterIsHigherPriority(key, reverse, container[i], container[parent]);
        SwapUpReady(key, reverse, container, i);
        container := Swapped(container, i, parent);
        SiftUp(parent);
      } else {
        if InHeap(i) && InHeap(parent) {
          GreaterIsHigherPriority(key, reverse, container[i], container[parent]);
        }
        if ChildrenBelow(key, reverse, container, i) {
          StayUpIsHeap(key, reverse, container, i);
        }
      }
    }

    /**
     * `_sift_down`: while the larger child of `i` (the right one only when strictly
     * greater than the left) is greater than the item at `i`, swap them and go on from
     * that child. Restores the heap order below `lo`.
     */
    method SiftDown(i: int, ghost lo: int)
      requires 0 <= lo <= i && DownReady(key, reverse, container, i, lo)
      modifies this
      ensures multiset(container) == multiset(old(container)) && |container| == |old(container)|
      ensures HeapFrom(key, reverse, container, lo)
      decreases |container| - i
    {
      var left, right := LeftChild(i), RightChild(i);
      ChildrenHaveParent(i);
      var larger;
      if InHeap(right) && Compare(right, left) {
        GreaterIsHigherPriority(key, reverse, container[right], container[left]);
        larger := right;
      } else if InHeap(left) {
        if InHeap(right) {
          GreaterIsHigherPriority(key, reverse, container[right], container[left]);
        }
        larger := left;
      } else {
        StayDownIsHeap(key, reverse, container, i, lo);
        return;
      }
      assert forall j :: 1 <= j < |container| && ParentOf(j) == i ==> j == left || j == right;
      GreaterIsHigherPriority(key, reverse, container[larger], container[i]);
      if Compare(larger, i) {
        SwapDownReady(key, reverse, container, i, larger, lo);
        container := Swapped(container, i, larger);
        SiftDown(larger, lo);
      } else {
        StayDownIsHeap(key, reverse, container, i, lo);
      }
    }

    /** `_heapify`: sifts down every position from the parent of the last one back to 0. */
    method Heapify()
      modifies this
      ensures multiset(container) == multiset(old(container))
      ensures Valid()
    {
      var i := ParentOf(|container|);
      while i >= 0
        invariant -1 <= i <= ParentOf(|container|)
        invariant multiset(container) == multiset(old(container))
        invariant HeapFrom(key, reverse, container, i + 1)
      {
        SiftDown(i, i);
        i := i - 1;
      }
    }

    /** `push`: appends the item and sifts it up. */
    method Push(item: T)
      requires Valid()
      modifies this
      ensures Valid()
      ensures multiset(container) == multiset(old(container)) + multiset{item}
      ensures |container| == |old(container)| + 1
    {
      container := container + [item];
      SiftUp(|container| - 1);
    }

    /**
     * `remove`: a ValueError when empty, an IndexError for a position outside the list
     * (negative ones included); otherwise the last item overwrites position `index`, the
     * list is shortened by one, and the moved item is sifted up and then down. Exactly the
     * item at `index` leaves the queue.
     */
    method Remove(index: int) returns (r: Outcome<QueueError>)
      requires Valid()
      modifies this
      ensures Valid()
      ensures |old(container)| == 0 ==> r == Fail(ValueError) && container == old(container)
      ensures |old(container)| > 0 && !(0 <= index < |old(container)|) ==>
        r == Fail(IndexError) && container == old(container)
      ensures 0 <= index < |old(container)| ==>
        r == Pass && multiset(container) == multiset(old(container)) - multiset{old(container)[index]}
      ensures 0 <= index < |old(container)| ==> |container| == |old(container)| - 1
    {
      if |container| == 0 {
        return Fail(ValueError);
      }
      if !InHeap(index) {
        return Fail(IndexError);
      }
      ghost var c := container;
      var last := container[|container| - 1];
      container := container[index := last];
      container := container[..|container| - 1];
      assert container == LastMovedTo(c, index);
      PlacedIsReady(key, reverse, c, index);
      ghost var rises := Rises(key, reverse, container, index);
      SiftUp(index);
      if rises {
        HeapIsDownReady(key, reverse, container, index);
      }
      SiftDown(index, 0);
      return Pass;
    }

    /** `pop`: a ValueError when empty; otherwise removes and returns the item at the root. */
    method Pop() returns (r: Result<T, QueueError>)
      requires Valid()
      modifies this
      ensures Valid()
      ensures |old(container)| == 0 ==> r == Err(ValueError) && container == old(container)
      ensures |old(container)| > 0 ==> r == Ok(old(container)[0])
      ensures |old(container)| > 0 ==> multiset(container) == multiset(old(container)) - multiset{r.value}
      ensures |old(container)| > 0 ==> forall x :: x in old(container) ==> Prio(x) <= Prio(r.value)
      ensures |old(container)| > 0 ==> |container| == |old(container)| - 1
    {
      if |container| == 0 {
        return Err(ValueError);
      }
      var result := container[0];
      forall x | x in container ensures Prio(x) <= Prio(result) {
        var k :| 0 <= k < |container| && container[k] == x;
        RootIsMax(key, reverse, container, k);
      }
      var _ := Remove(0);
      return Ok(result);
    }

    /**
     * Pops every item in turn, as the string form of the queue does on a copy: the items
     * come out in non-increasing priority order and are exactly the queued ones.
     */
    method PopAll() returns (out: seq<T>)
      requires Valid()
      modifies this
      ensures container == []
      ensures multiset(out) == multiset(old(container))
      ensures PriorityOrdered(key, reverse, out)
    {
      out := [];
      while |container| > 0
        invariant Valid()
        invariant multiset(out) + multiset(container) == multiset(old(container))
        invariant PriorityOrdered(key, reverse, out)
        invariant |out| > 0 ==> forall x :: x in container ==> Priority(key, reverse, x) <= Priority(key, reverse, out[|out| - 1])
        decreases |container|
      {
        ghost var before := container;
        var r := Pop();
        RemainingWereQueued(container, before, r.value);
        AppendKeepsOrder(key, reverse, out, r.value);
        out := out + [r.value];
      }
    }
  }
}
