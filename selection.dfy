/**
 * Selection of the k-th smallest value (k counted from 1) by partitioning
 * around a median into the values below it, the count of values equal to it
 * and the values above it.
 */
module Selection {
  import opened Wrappers
  import opened ComparisonSorting

  /** `x` is counted against `m`: strictly below it, or at most `m` when `inclusive`. */
  predicate Below(x: int, m: int, inclusive: bool)
  {
    if inclusive then x <= m else x < m
  }

  /** How many entries of `xs` are below `m`. */
  function CountBelow(xs: seq<int>, m: int, inclusive: bool): (n: nat)
    ensures n <= |xs|
  {
    if xs == [] then 0
    else CountBelow(xs[..|xs| - 1], m, inclusive) + (if Below(xs[|xs| - 1], m, inclusive) then 1 else 0)
  }

  /**
   * `m` is a k-th smallest value of `xs`: it occurs in `xs`, fewer than `k`
   * entries are smaller, and at least `k` are at most `m`.
   */
  ghost predicate IsKthSmallest(xs: seq<int>, k: int, m: int)
  {
    m in xs && CountBelow(xs, m, false) < k <= CountBelow(xs, m, true)
  }

  /** The k-th smallest value is unique. */
  lemma KthSmallestUnique(xs: seq<int>, k: int, m1: int, m2: int)
    requires IsKthSmallest(xs, k, m1) && IsKthSmallest(xs, k, m2)
    ensures m1 == m2
  {
    if m1 < m2 {
      CountMonotone(xs, m1, m2);
    } else if m2 < m1 {
      CountMonotone(xs, m2, m1);
    }
  }

  /** Everything at most `a` is strictly below a larger `b`. */
  lemma {:induction false} CountMonotone(xs: seq<int>, a: int, b: int)
    requires a < b
    ensures CountBelow(xs, a, true) <= CountBelow(xs, b, false)
    decreases |xs|
  {
    if xs != [] {
      CountMonotone(xs[..|xs| - 1], a, b);
    }
  }

  lemma {:induction false} CountConcat(a: seq<int>, b: seq<int>, m: int, inclusive: bool)
    ensures CountBelow(a + b, m, inclusive) == CountBelow(a, m, inclusive) + CountBelow(b, m, inclusive)
    decreases |b|
  {
    if b == [] {
      assert a + b == a;
    } else {
      var init := b[..|b| - 1];
      assert (a + b)[..|a + b| - 1] == a + init;
      assert (a + b)[|a + b| - 1] == b[|b| - 1];
      CountConcat(a, init, m, inclusive);
    }
  }

  /** Taking entry `j` out of `ys`: its multiset loses one copy and its count loses that entry's share. */
  lemma RemoveAt(ys: seq<int>, j: int, m: int, inclusive: bool)
    requires 0 <= j < |ys|
    ensures multiset(ys[..j] + ys[j + 1..]) == multiset(ys) - multiset{ys[j]}
    ensures CountBelow(ys, m, inclusive) ==
              CountBelow(ys[..j] + ys[j + 1..], m, inclusive) + (if Below(ys[j], m, inclusive) then 1 else 0)
  {
    var x := ys[j];
    assert ys == ys[..j] + [x] + ys[j + 1..];
    assert multiset(ys) == multiset(ys[..j]) + multiset{x} + multiset(ys[j + 1..]);
    CountConcat(ys[..j] + [x], ys[j + 1..], m, inclusive);
    CountConcat(ys[..j], [x], m, inclusive);
    CountConcat(ys[..j], ys[j + 1..], m, inclusive);
    assert [x][..0] == [];
  }

  /** Counts depend only on the multiset of entries. */
  lemma {:induction false} CountPermutation(xs: seq<int>, ys: seq<int>, m: int, inclusive: bool)
    requires multiset(xs) == multiset(ys)
    ensures CountBelow(xs, m, inclusive) == CountBelow(ys, m, inclusive)
    decreases |xs|
  {
    if xs != [] {
      var x := xs[|xs| - 1];
      var init := xs[..|xs| - 1];
      assert xs == init + [x];
      assert multiset(init) == multiset(xs) - multiset{x};
      assert x in multiset(ys);
      var j :| 0 <= j < |ys| && ys[j] == x;
      RemoveAt(ys, j, m, inclusive);
      CountPermutation(init, ys[..j] + ys[j + 1..], m, inclusive);
    }
  }

  lemma {:induction false} CountNone(xs: seq<int>, m: int, inclusive: bool)
    requires forall k :: 0 <= k < |xs| ==> !Below(xs[k], m, inclusive)
    ensures CountBelow(xs, m, inclusive) == 0
    decreases |xs|
  {
    if xs != [] {
      CountNone(xs[..|xs| - 1], m, inclusive);
    }
  }

  lemma {:induction false} CountAll(xs: seq<int>, m: int, inclusive: bool)
    requires forall k :: 0 <= k < |xs| ==> Below(xs[k], m, inclusive)
    ensures CountBelow(xs, m, inclusive) == |xs|
    decreases |xs|
  {
    if xs != [] {
      CountAll(xs[..|xs| - 1], m, inclusive);
    }
  }

  /** In an ascending permutation of `xs`, position `i` holds the (i+1)-th smallest value. */
  lemma SortedPositionIsKth(s: seq<int>, xs: seq<int>, i: int)
    requires Sorted(s) && multiset(s) == multiset(xs) && 0 <= i < |s|
    ensures IsKthSmallest(xs, i + 1, s[i])
  {
    var m := s[i];
    assert m in multiset(s);
    CountPermutation(xs, s, m, false);
    CountPermutation(xs, s, m, true);
    SortedFewerBelow(s, i);
    SortedEnoughAtMost(s, i);
  }

  /** In an ascending list, fewer than `i + 1` entries are strictly below the one at `i`. */
  lemma SortedFewerBelow(s: seq<int>, i: int)
    requires Sorted(s) && 0 <= i < |s|
    ensures CountBelow(s, s[i], false) <= i
  {
    var m := s[i];
    assert s == s[..i] + s[i..];
    CountConcat(s[..i], s[i..], m, false);
    var suffix := s[i..];
    forall k | 0 <= k < |suffix|
      ensures !Below(suffix[k], m, false)
    {
      assert suffix[k] == s[i + k];
      if k > 0 {
        assert s[i] <= s[i + k];
      }
    }
    CountNone(suffix, m, false);
  }

  /** In an ascending list, at least `i + 1` entries are at most the one at `i`. */
  lemma SortedEnoughAtMost(s: seq<int>, i: int)
    requires Sorted(s) && 0 <= i < |s|
    ensures CountBelow(s, s[i], true) >= i + 1
  {
    var m := s[i];
    assert s == s[..i + 1] + s[i + 1..];
    CountConcat(s[..i + 1], s[i + 1..], m, true);
    var prefix := s[..i + 1];
    forall k | 0 <= k < |prefix|
      ensures Below(prefix[k], m, true)
    {
      assert prefix[k] == s[k];
      if k < i {
        assert s[k] <= s[i];
      }
    }
    CountAll(prefix, m, true);
  }

  /** The three parts of a list around a median. */
  datatype Split = Split(less: seq<int>, greater: seq<int>, equalCount: nat)

  /**
   * The partition pass: entries below the median go to `less`, entries above
   * it to `greater`, both in list order, and the rest are counted.
   */
  function Partition(xs: seq<int>, median: int): (p: Split)
    ensures |p.less| + p.equalCount + |p.greater| == |xs|
    ensures forall x :: x in p.less ==> x in xs && x < median
    ensures forall x :: x in p.greater ==> x in xs && x > median
  {
    if xs == [] then Split([], [], 0)
    else
      var p := Partition(xs[..|xs| - 1], median);
      var x := xs[|xs| - 1];
      if x < median then Split(p.less + [x], p.greater, p.equalCount)
      else if x > median then Split(p.less, p.greater + [x], p.equalCount)
      else Split(p.less, p.greater, p.equalCount + 1)
  }

  /**
   * The counts of `xs` below any value split over the three parts: the less
   * part, the equal entries (when the median itself is below the value) and
   * the greater part.
   */
  lemma {:induction false} PartitionCounts(xs: seq<int>, median: int, v: int, inclusive: bool)
    ensures var p := Partition(xs, median);
            CountBelow(xs, v, inclusive) ==
              CountBelow(p.less, v, inclusive) + (if Below(median, v, inclusive) then p.equalCount else 0) +
              CountBelow(p.greater, v, inclusive)
    decreases |xs|
  {
    if xs != [] {
      PartitionCounts(xs[..|xs| - 1], median, v, inclusive);
      var p := Partition(xs[..|xs| - 1], median);
      var x := xs[|xs| - 1];
      CountConcat(p.less, [x], v, inclusive);
      CountConcat(p.greater, [x], v, inclusive);
      assert [x][..0] == [];
    }
  }

  /** A median drawn from the list occurs at least once, so both parts are shorter than the list. */
  lemma {:induction false} MedianCounted(xs: seq<int>, median: int)
    requires median in xs
    ensures Partition(xs, median).equalCount >= 1
    decreases |xs|
  {
    var init := xs[..|xs| - 1];
    if xs[|xs| - 1] != median {
      assert xs == init + [xs[|xs| - 1]];
      MedianCounted(init, median);
    }
  }

  /** Why selection failed: the list ran empty because `k` was out of range. */
  datatype SelectError = EmptyRange | IndexOutOfRange

  /**
   * Quick-select.  The random median index is drawn by `choose`, reduced
   * into range; an empty list cannot supply a median.  The k-th smallest
   * lies in the less part when k is at most its size, is the median when
   * k falls within the equal entries, and otherwise lies in the greater part
   * at position k less the sizes of the other two.
   */
  function QuickSelect(xs: seq<int>, k: int, choose: seq<int> -> nat): (r: Result<int, SelectError>)
    ensures 1 <= k <= |xs| ==> r.Ok? && IsKthSmallest(xs, k, r.value)
    ensures !(1 <= k <= |xs|) ==> r == Err(EmptyRange)
    decreases |xs|
  {
    if xs == [] then Err(EmptyRange)
    else
      var median := xs[choose(xs) % |xs|];
      var p := Partition(xs, median);
      MedianCounted(xs, median);
      if k <= |p.less| then
        var r := QuickSelect(p.less, k, choose);
        if r.Ok? then
          SelectFromLess(xs, median, k, r.value);
          r
        else r
      else if k <= |p.less| + p.equalCount then
        SelectMedian(xs, median, k);
        Ok(median)
      else
        var r := QuickSelect(p.greater, k - |p.less| - p.equalCount, choose);
        if r.Ok? then
          SelectFromGreater(xs, median, k, r.value);
          r
        else r
  }

  /** The median, taken from the list, is the k-th smallest when k falls within the equal entries. */
  lemma SelectMedian(xs: seq<int>, median: int, k: int)
    requires median in xs
    requires var p := Partition(xs, median); |p.less| < k <= |p.less| + p.equalCount
    ensures IsKthSmallest(xs, k, median)
  {
    var p := Partition(xs, median);
    assert forall i :: 0 <= i < |p.less| ==> p.less[i] in p.less;
    assert forall i :: 0 <= i < |p.greater| ==> p.greater[i] in p.greater;
    PartitionCounts(xs, median, median, true);
    PartitionCounts(xs, median, median, false);
    CountAll(p.less, median, true);
    CountAll(p.less, median, false);
    CountNone(p.greater, median, true);
    CountNone(p.greater, median, false);
  }

  /** The k-th smallest of the less part is the k-th smallest of the list. */
  lemma SelectFromLess(xs: seq<int>, median: int, k: int, m: int)
    requires IsKthSmallest(Partition(xs, median).less, k, m)
    ensures IsKthSmallest(xs, k, m)
  {
    var p := Partition(xs, median);
    assert forall i :: 0 <= i < |p.greater| ==> p.greater[i] in p.greater;
    PartitionCounts(xs, median, m, true);
    PartitionCounts(xs, median, m, false);
    CountNone(p.greater, m, true);
    CountNone(p.greater, m, false);
  }

  /** The j-th smallest of the greater part is the (j + less + equal)-th smallest of the list. */
  lemma SelectFromGreater(xs: seq<int>, median: int, k: int, m: int)
    requires var p := Partition(xs, median); IsKthSmallest(p.greater, k - |p.less| - p.equalCount, m)
    ensures IsKthSmallest(xs, k, m)
  {
    var p := Partition(xs, median);
    assert forall i :: 0 <= i < |p.less| ==> p.less[i] in p.less;
    PartitionCounts(xs, median, m, true);
    PartitionCounts(xs, median, m, false);
    CountAll(p.less, m, true);
    CountAll(p.less, m, false);
  }

  /**
   * Brute-force selection: sort a copy and index it with `k` as written, so
   * `k` counts from 0, and a negative `k` counts from the end as list
   * indexing does.  An index outside the list is an error.
   */
  method BruteForceSelect(xs: seq<int>, k: int) returns (r: Result<int, SelectError>)
    ensures 0 <= k < |xs| ==> r.Ok? && IsKthSmallest(xs, k + 1, r.value)
    ensures -|xs| <= k < 0 ==> r.Ok? && IsKthSmallest(xs, |xs| + k + 1, r.value)
    ensures !(-|xs| <= k < |xs|) ==> r == Err(IndexOutOfRange)
  {
    var a := new int[|xs|](i requires 0 <= i < |xs| => xs[i]);
    assert a[..] == xs;
    InsertionSort(a);
    if !(-a.Length <= k < a.Length) {
      return Err(IndexOutOfRange);
    }
    var index := if k < 0 then a.Length + k else k;
    SortedPositionIsKth(a[..], xs, index);
    return Ok(a[index]);
  }

  /** Integer ceiling of `n / d`: the least `c` with `c * d >= n`. */
  function CeilDiv(n: nat, d: nat): (c: nat)
    requires d > 0
    ensures c * d >= n && c * d < n + d
  {
    (n + d - 1) / d
  }

  /**
   * The grouping step of deterministic selection for lists longer than five:
   * ceil(n / 5) groups of five, the last cut to n % 5 when that is not 0;
   * entry i goes to slot i % 5 of group i / 5.
   */
  method DivideIntoGroups(xs: seq<int>) returns (groups: seq<seq<int>>)
    requires |xs| > 5
    ensures |groups| == CeilDiv(|xs|, 5)
    ensures forall g :: 0 <= g < |groups| - 1 ==> |groups[g]| == 5
    ensures |groups[|groups| - 1]| == if |xs| % 5 == 0 then 5 else |xs| % 5
    ensures forall i :: 0 <= i < |xs| ==> i % 5 < |groups[i / 5]| && groups[i / 5][i % 5] == xs[i]
    ensures forall g :: 0 <= g < |groups| ==> 5 * g + |groups[g]| <= |xs|
  {
    var constant := 5;
    var size := |xs|;
    var count := CeilDiv(size, constant);
    groups := seq(count, g => seq(constant, s => 0));
    var overflow := size % constant;
    var cut := if overflow != 0 then overflow else size;
    // a slice bound past the end stops at the end
    var last := groups[count - 1][..if cut < constant then cut else constant];
    groups := groups[count - 1 := last];
    forall j | 0 <= j < size
      ensures j / 5 < count && j % 5 < |groups[j / 5]|
    {
      SlotInRange(size, j);
    }
    forall g | 0 <= g < count
      ensures 5 * g + |groups[g]| <= size
    {
      SlotInRange(size, 5 * g + |groups[g]| - 1);
    }
    var i := 0;
    while i < size
      invariant 0 <= i <= size
      invariant |groups| == count
      invariant forall g :: 0 <= g < count - 1 ==> |groups[g]| == 5
      invariant |groups[count - 1]| == if overflow == 0 then 5 else overflow
      invariant forall j :: 0 <= j < size ==> j / 5 < count && j % 5 < |groups[j / 5]|
      invariant forall j :: 0 <= j < i ==> groups[j / 5][j % 5] == xs[j]
    {
      groups := groups[i / constant := groups[i / constant][i % constant := xs[i]]];
      i := i + 1;
    }
  }

  /** Where entry `j` of a list of `size` entries goes: a slot that exists, and only there. */
  lemma SlotInRange(size: nat, j: nat)
    requires size > 5
    ensures j < size ==> j / 5 < CeilDiv(size, 5)
    ensures j < size && j / 5 == CeilDiv(size, 5) - 1 ==> j % 5 < (if size % 5 == 0 then 5 else size % 5)
    ensures j / 5 < CeilDiv(size, 5) - 1 ==> j < size
    ensures j / 5 == CeilDiv(size, 5) - 1 && j % 5 < (if size % 5 == 0 then 5 else size % 5) ==> j < size
  {
    var c := CeilDiv(size, 5);
    assert size == 5 * (size / 5) + size % 5;
    assert j == 5 * (j / 5) + j % 5;
    if size % 5 == 0 {
      assert c == size / 5;
    } else {
      assert c == size / 5 + 1;
    }
  }
}
