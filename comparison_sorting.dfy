/**
 * In-place comparison sorts over integer arrays: the element swap, the merge step of
 * merge sort, selection sort (scanning backwards for the maximum of the unsorted prefix)
 * and insertion sort (swapping each new element back past its larger neighbours).
 */
module ComparisonSorting {

  /** Ascending order: every element is at most every later element. */
  predicate Sorted(s: seq<int>) {
    forall i, j :: 0 <= i < j < |s| ==> s[i] <= s[j]
  }

  /** Exchanges the elements at positions `i` and `j` (which may coincide). */
  method Swap(a: array<int>, i: int, j: int)
    requires 0 <= i < a.Length && 0 <= j < a.Length
    modifies a
    ensures a[i] == old(a[j]) && a[j] == old(a[i])
    ensures forall k :: 0 <= k < a.Length && k != i && k != j ==> a[k] == old(a[k])
    ensures multiset(a[..]) == multiset(old(a[..]))
  {
    a[i], a[j] := a[j], a[i];
  }

  /**
   * What the merge step writes from read positions `left` (in the run `s[..mid]`) and
   * `right` (in the run `s[mid..]`) on: repeatedly the smaller head, the left one on ties,
   * then whatever remains of the other run.
   */
  function MergeFrom(s: seq<int>, mid: int, left: int, right: int): (r: seq<int>)
    requires 0 <= left <= mid <= right <= |s|
    ensures |r| == (mid - left) + (|s| - right)
    decreases (mid - left) + (|s| - right)
  {
    if left == mid then s[right..]
    else if right == |s| then s[left..mid]
    else if s[left] <= s[right] then [s[left]] + MergeFrom(s, mid, left + 1, right)
    else [s[right]] + MergeFrom(s, mid, left, right + 1)
  }

  /** The multiset of a sequence that starts with `x` is `x` added to that of the rest. */
  lemma ConsMultiset(x: int, rest: seq<int>, s: seq<int>)
    requires s == [x] + rest
    ensures multiset(s) == multiset{x} + multiset(rest)
  {
    assert multiset([x] + rest) == multiset([x]) + multiset(rest);
  }

  /** Regrouping an element taken from the left run in front of the rest of the merge. */
  lemma RegroupLeft(x: int, merged: multiset<int>, tail: multiset<int>, run: multiset<int>, restOfRun: multiset<int>, other: multiset<int>)
    requires merged == multiset{x} + tail && tail == restOfRun + other
    requires run == multiset{x} + restOfRun
    ensures merged == run + other
  {
  }

  /** Regrouping an element taken from the right run in front of the rest of the merge. */
  lemma RegroupRight(x: int, merged: multiset<int>, tail: multiset<int>, run: multiset<int>, restOfRun: multiset<int>, other: multiset<int>)
    requires merged == multiset{x} + tail && tail == other + restOfRun
    requires run == multiset{x} + restOfRun
    ensures merged == other + run
  {
  }

  /** One step of the merge that takes the head of the left run keeps the multiset balance. */
  lemma {:induction false} TakeLeftPermutes(s: seq<int>, mid: int, left: int, right: int)
    requires 0 <= left < mid <= right < |s| && s[left] <= s[right]
    ensures multiset(MergeFrom(s, mid, left, right)) == multiset(s[left..mid]) + multiset(s[right..])
    decreases (mid - left) + (|s| - right), 0
  {
    MergeFromPermutes(s, mid, left + 1, right);
    var tail := MergeFrom(s, mid, left + 1, right);
    ConsMultiset(s[left], tail, MergeFrom(s, mid, left, right));
    assert s[left..mid] == [s[left]] + s[left + 1..mid];
    ConsMultiset(s[left], s[left + 1..mid], s[left..mid]);
    RegroupLeft(s[left], multiset(MergeFrom(s, mid, left, right)), multiset(tail),
      multiset(s[left..mid]), multiset(s[left + 1..mid]), multiset(s[right..]));
  }

  /** One step of the merge that takes the head of the right run keeps the multiset balance. */
  lemma {:induction false} TakeRightPermutes(s: seq<int>, mid: int, left: int, right: int)
    requires 0 <= left < mid <= right < |s| && s[left] > s[right]
    ensures multiset(MergeFrom(s, mid, left, right)) == multiset(s[left..mid]) + multiset(s[right..])
    decreases (mid - left) + (|s| - right), 0
  {
    MergeFromPermutes(s, mid, left, right + 1);
    var tail := MergeFrom(s, mid, left, right + 1);
    ConsMultiset(s[right], tail, MergeFrom(s, mid, left, right));
    ConsMultiset(s[right], s[right + 1..], s[right..]);
    RegroupRight(s[right], multiset(MergeFrom(s, mid, left, right)), multiset(tail),
      multiset(s[right..]), multiset(s[right + 1..]), multiset(s[left..mid]));
  }

  /** Merging keeps every element of both runs and nothing else. */
  lemma {:induction false} MergeFromPermutes(s: seq<int>, mid: int, left: int, right: int)
    requires 0 <= left <= mid <= right <= |s|
    ensures multiset(MergeFrom(s, mid, left, right)) == multiset(s[left..mid]) + multiset(s[right..])
    decreases (mid - left) + (|s| - right), 1
  {
    if left == mid {
      assert s[left..mid] == [];
    } else if right == |s| {
      assert s[right..] == [];
    } else if s[left] <= s[right] {
      TakeLeftPermutes(s, mid, left, right);
    } else {
      TakeRightPermutes(s, mid, left, right);
    }
  }

  /** A lower bound of both remaining runs is a lower bound of their merge. */
  lemma {:induction false} MergeFromBounded(s: seq<int>, mid: int, left: int, right: int, b: int)
    requires 0 <= left <= mid <= right <= |s|
    requires forall k :: left <= k < mid ==> b <= s[k]
    requires forall k :: right <= k < |s| ==> b <= s[k]
    ensures forall k :: 0 <= k < |MergeFrom(s, mid, left, right)| ==> b <= MergeFrom(s, mid, left, right)[k]
    decreases (mid - left) + (|s| - right)
  {
    if left == mid || right == |s| {
    } else if s[left] <= s[right] {
      MergeFromBounded(s, mid, left + 1, right, b);
    } else {
      MergeFromBounded(s, mid, left, right + 1, b);
    }
  }

  /** Prepending a lower bound to an ascending sequence keeps it ascending. */
  lemma ConsSorted(h: int, rest: seq<int>)
    requires Sorted(rest)
    requires forall k :: 0 <= k < |rest| ==> h <= rest[k]
    ensures Sorted([h] + rest)
  {
    var s := [h] + rest;
    forall i, j | 0 <= i < j < |s| ensures s[i] <= s[j] {
      if i > 0 {
        assert s[i] == rest[i - 1] && s[j] == rest[j - 1];
      } else {
        assert s[j] == rest[j - 1];
      }
    }
  }

  /** Ascending order of `s` between positions `from` (inclusive) and `to` (exclusive). */
  predicate SortedBetween(s: seq<int>, from: int, to: int)
    requires 0 <= from <= to <= |s|
  {
    forall i, j :: from <= i < j < to ==> s[i] <= s[j]
  }

  /** Merging what remains of two ascending runs yields an ascending sequence. */
  lemma {:induction false} MergeFromSorted(s: seq<int>, mid: int, left: int, right: int)
    requires 0 <= left <= mid <= right <= |s|
    requires SortedBetween(s, left, mid) && SortedBetween(s, right, |s|)
    ensures Sorted(MergeFrom(s, mid, left, right))
    decreases (mid - left) + (|s| - right)
  {
    if left == mid {
      assert forall i, j :: 0 <= i < j < |s| - right ==> s[right..][i] == s[right + i] <= s[right + j] == s[right..][j];
    } else if right == |s| {
      assert forall i, j :: 0 <= i < j < mid - left ==> s[left..mid][i] == s[left + i] <= s[left + j] == s[left..mid][j];
    } else if s[left] <= s[right] {
      MergeFromSorted(s, mid, left + 1, right);
      MergeFromBounded(s, mid, left + 1, right, s[left]);
      ConsSorted(s[left], MergeFrom(s, mid, left + 1, right));
    } else {
      MergeFromSorted(s, mid, left, right + 1);
      MergeFromBounded(s, mid, left, right + 1, s[right]);
      ConsSorted(s[right], MergeFrom(s, mid, left, right + 1));
    }
  }

  /** The merge of the two runs of `s` split at `mid` holds exactly the elements of `s`. */
  lemma MergePermutes(s: seq<int>, mid: int)
    requires 0 <= mid <= |s|
    ensures multiset(MergeFrom(s, mid, 0, mid)) == multiset(s)
  {
    MergeFromPermutes(s, mid, 0, mid);
    assert s == s[0..mid] + s[mid..];
  }

  /** When both runs of `s` are ascending, so is their merge. */
  lemma MergeSorted(s: seq<int>, mid: int)
    requires 0 <= mid <= |s|
    requires Sorted(s[..mid]) && Sorted(s[mid..])
    ensures Sorted(MergeFrom(s, mid, 0, mid))
  {
    assert forall i, j :: 0 <= i < j < mid ==> s[i] == s[..mid][i] <= s[..mid][j] == s[j];
    assert forall i, j :: mid <= i < j < |s| ==> s[i] == s[mid..][i - mid] <= s[mid..][j - mid] == s[j];
    MergeFromSorted(s, mid, 0, mid);
  }

  /**
   * One step of the merge while both runs have elements: the next element written is the
   * smaller head (the left one on ties), and what follows it is the merge with that head
   * consumed.
   */
  lemma MergeHeadStep(s: seq<int>, mid: int, left: int, right: int, whole: seq<int>, counter: int)
    requires 0 <= left < mid <= right < |s|
    requires 0 <= counter <= |whole| && MergeFrom(s, mid, left, right) == whole[counter..]
    ensures counter < |whole|
    ensures s[left] <= s[right] ==> whole[counter] == s[left] && MergeFrom(s, mid, left + 1, right) == whole[counter + 1..]
    ensures s[left] > s[right] ==> whole[counter] == s[right] && MergeFrom(s, mid, left, right + 1) == whole[counter + 1..]
  {
    var rest := whole[counter..];
    assert rest[0] == whole[counter] && rest[1..] == whole[counter + 1..];
  }

  /**
   * Once one run is exhausted, what is left to write is the rest of the other run, so
   * position `k` of the merge, from `counter` on, holds a known element of the input.
   */
  lemma TailOfMerge(s: seq<int>, mid: int, left: int, right: int, whole: seq<int>, counter: int)
    requires 0 <= left <= mid <= right <= |s| && (left == mid || right == |s|)
    requires 0 <= counter <= |whole| && MergeFrom(s, mid, left, right) == whole[counter..]
    ensures forall k :: counter <= k < counter + (mid - left) ==> whole[k] == s[left + (k - counter)]
    ensures forall k :: counter + (mid - left) <= k < |whole| ==> whole[k] == s[right + (k - counter - (mid - left))]
  {
    forall k | counter <= k < |whole| ensures whole[k] == whole[counter..][k - counter] { }
  }

  /**
   * Copies the run `src[from..to]` into `a` starting at position `at`, one element at a
   * time; every other position of `a` keeps its value.
   */
  method CopyRun(a: array<int>, src: seq<int>, from: int, to: int, at: int)
    requires 0 <= from <= to <= |src| && 0 <= at && at + (to - from) <= a.Length
    modifies a
    ensures forall k :: at <= k < at + (to - from) ==> a[k] == src[from + (k - at)]
    ensures forall k :: 0 <= k < a.Length && !(at <= k < at + (to - from)) ==> a[k] == old(a[k])
  {
    var i, counter := from, at;
    while i < to
      invariant from <= i <= to && counter == at + (i - from)
      invariant forall k :: at <= k < counter ==> a[k] == src[from + (k - at)]
      invariant forall k :: 0 <= k < a.Length && !(at <= k < counter) ==> a[k] == old(a[k])
    {
      a[counter] := src[i];
      i := i + 1;
      counter := counter + 1;
    }
  }

  /**
   * The first loop of the merge step: while both runs of `copy` have elements, writes the
   * smaller head (the left one on ties) to the next position of `a`. Returns the read
   * positions in both runs and the number of positions written; what is written is the
   * start of the full merge, and what is left to write is the merge of the remaining runs.
   */
  method MergeHeads(a: array<int>, copy: seq<int>, mid: int) returns (left: int, right: int, counter: int)
    requires 0 <= mid <= |copy| == a.Length
    modifies a
    ensures 0 <= left <= mid <= right <= |copy| && (left == mid || right == |copy|)
    ensures counter == left + (right - mid)
    ensures forall k :: 0 <= k < counter ==> a[k] == MergeFrom(copy, mid, 0, mid)[k]
    ensures MergeFrom(copy, mid, left, right) == MergeFrom(copy, mid, 0, mid)[counter..]
  {
    var n := |copy|;
    left, right, counter := 0, mid, 0;
    ghost var whole := MergeFrom(copy, mid, 0, mid);
    while left < mid && right < n
      invariant 0 <= left <= mid <= right <= n == |whole| == a.Length
      invariant counter == left + (right - mid)
      invariant forall k :: 0 <= k < counter ==> a[k] == whole[k]
      invariant MergeFrom(copy, mid, left, right) == whole[counter..]
    {
      MergeHeadStep(copy, mid, left, right, whole, counter);
      if copy[left] <= copy[right] {
        a[counter] := copy[left];
        left := left + 1;
      } else {
        a[counter] := copy[right];
        right := right + 1;
      }
      counter := counter + 1;
    }
  }

  /**
   * The merge step of merge sort: overwrites `a` with the merge of its two runs
   * `a[..mid]` and `a[mid..]`, read from a copy taken before any write. After the
   * heads are merged, what remains of the left run and then of the right run is copied
   * over as it stands.
   */
  method Merge(a: array<int>, mid: int)
    requires 0 <= mid <= a.Length
    modifies a
    ensures a[..] == MergeFrom(old(a[..]), mid, 0, mid)
  {
    var copy := a[..];
    var left, right, counter := MergeHeads(a, copy, mid);
    ghost var whole := MergeFrom(copy, mid, 0, mid);
    TailOfMerge(copy, mid, left, right, whole, counter);
    CopyRun(a, copy, left, mid, counter);
    CopyRun(a, copy, right, |copy|, counter + (mid - left));
    assert a[..] == whole;
  }

  /**
   * The maximum of `(value, index)` pairs over `a[..end]`, compared as tuples: the largest
   * value, and among equal values the largest index.
   */
  method MaxWithIndex(a: array<int>, end: int) returns (best: int, index: int)
    requires 0 < end <= a.Length
    ensures 0 <= index < end && best == a[index]
    ensures forall k :: 0 <= k < end ==> a[k] <= best
    ensures forall k :: index < k < end ==> a[k] < best
  {
    best, index := a[0], 0;
    var j := 1;
    while j < end
      invariant 1 <= j <= end
      invariant 0 <= index < j && best == a[index]
      invariant forall k :: 0 <= k < j ==> a[k] <= best
      invariant forall k :: index < k < j ==> a[k] < best
    {
      if a[j] >= best {
        best, index := a[j], j;
      }
      j := j + 1;
    }
  }

  /**
   * Selection sort scanning backwards: for each position `i` from the end down to 1,
   * bring the maximum of `a[..i]` to position `i` when it exceeds `a[i]`.
   */
  method SelectionSort(a: array<int>)
    modifies a
    ensures Sorted(a[..])
    ensures multiset(a[..]) == multiset(old(a[..]))
  {
    var i := a.Length - 1;
    while i > 0
      invariant -1 <= i < a.Length
      invariant a.Length > 0 ==> 0 <= i
      invariant forall p, q :: i < p < q < a.Length ==> a[p] <= a[q]
      invariant forall p, q :: 0 <= p <= i < q < a.Length ==> a[p] <= a[q]
      invariant multiset(a[..]) == multiset(old(a[..]))
    {
      var localMax, indexOfLocalMax := MaxWithIndex(a, i);
      if a[i] < localMax {
        Swap(a, i, indexOfLocalMax);
      }
      i := i - 1;
    }
  }

  /**
   * Insertion sort: the prefix before `threshold` is ascending; the element at
   * `threshold` is swapped back while it is strictly smaller than its left neighbour.
   */
  method InsertionSort(a: array<int>)
    modifies a
    ensures Sorted(a[..])
    ensures multiset(a[..]) == multiset(old(a[..]))
  {
    var threshold := 1;
    while threshold < a.Length
      invariant a.Length == 0 || 1 <= threshold <= a.Length
      invariant forall p, q :: 0 <= p < q < threshold && q < a.Length ==> a[p] <= a[q]
      invariant multiset(a[..]) == multiset(old(a[..]))
    {
      InsertBack(a, threshold);
      threshold := threshold + 1;
    }
  }

  /**
   * The inner loop of insertion sort: the element at `threshold` is swapped
   * back while it is strictly smaller than its left neighbour, which extends
   * the ascending prefix by one.
   */
  method InsertBack(a: array<int>, threshold: int)
    requires 1 <= threshold < a.Length
    requires forall p, q :: 0 <= p < q < threshold ==> a[p] <= a[q]
    modifies a
    ensures forall p, q :: 0 <= p < q <= threshold ==> a[p] <= a[q]
    ensures forall k :: threshold < k < a.Length ==> a[k] == old(a[k])
    ensures multiset(a[..]) == multiset(old(a[..]))
  {
    var i := threshold;
    while i > 0 && a[i] < a[i - 1]
      invariant 0 <= i <= threshold
      invariant forall k :: threshold < k < a.Length ==> a[k] == old(a[k])
      invariant forall p, q :: 0 <= p < q <= threshold && p != i && q != i ==> a[p] <= a[q]
      invariant forall q :: i < q <= threshold ==> a[i] < a[q]
      invariant multiset(a[..]) == multiset(old(a[..]))
    {
      Swap(a, i, i - 1);
      i := i - 1;
    }
    forall p, q | 0 <= p < q <= threshold
      ensures a[p] <= a[q]
    {
      if q == i && p < i - 1 {
        assert a[p] <= a[i - 1];
      }
    }
  }
}
