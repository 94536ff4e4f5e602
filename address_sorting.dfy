/**
 * Address-based sorts of non-negative integers: counting sort, which turns
 * counts into end positions and places each value at its slot, and bucket
 * sort, which spreads values over buckets by `value / range`, sorts each
 * bucket and concatenates them.
 */
module AddressSorting {
  import opened Wrappers
  import opened ComparisonSorting
  import opened Selection

  datatype SortError = ValueError | IndexError | ZeroDivisionError

  predicate NonNegative(s: seq<int>)
  {
    forall k :: 0 <= k < |s| ==> s[k] >= 0
  }

  predicate AtMostAll(s: seq<int>, m: int)
  {
    forall k :: 0 <= k < |s| ==> s[k] <= m
  }

  /** The largest element; `max` of an empty list is an error. */
  function Largest(s: seq<int>): (r: Result<int, SortError>)
    ensures s == [] <==> r == Err(ValueError)
    ensures r.Ok? ==> r.value in s && AtMostAll(s, r.value)
  {
    if s == [] then Err(ValueError)
    else if |s| == 1 then Ok(s[0])
    else
      var rest := Largest(s[1..]).value;
      assert forall k :: 1 <= k < |s| ==> s[k] == s[1..][k - 1];
      if s[0] >= rest then Ok(s[0]) else Ok(rest)
  }

  /** The maximum a sort works with: the one given, or else the largest element. */
  function MaxOf(s: seq<int>, maxValue: Option<int>): (m: int)
    requires maxValue.Some? || s != []
    ensures maxValue.Some? ==> m == maxValue.value
    ensures maxValue.None? ==> m in s && AtMostAll(s, m)
  {
    if maxValue.Some? then maxValue.value else Largest(s).value
  }

  /** How many elements of `s` are at most `v`. */
  function NotAbove(s: seq<int>, v: int): (n: nat)
    ensures n <= |s|
  {
    if s == [] then 0 else NotAbove(s[..|s| - 1], v) + (if s[|s| - 1] <= v then 1 else 0)
  }

  /** Counting up to `v` adds the occurrences of `v` to the count up to `v - 1`. */
  lemma {:induction false} NotAboveStep(s: seq<int>, v: int)
    ensures NotAbove(s, v) == NotAbove(s, v - 1) + multiset(s)[v]
  {
    if s != [] {
      var init := s[..|s| - 1];
      NotAboveStep(init, v);
      assert s == init + [s[|s| - 1]];
    }
  }

  lemma {:induction false} NotAboveMonotone(s: seq<int>, v: int, w: int)
    requires v <= w
    ensures NotAbove(s, v) <= NotAbove(s, w)
  {
    if s != [] {
      NotAboveMonotone(s[..|s| - 1], v, w);
    }
  }

  lemma {:induction false} NotAboveEnds(s: seq<int>, m: int)
    requires NonNegative(s)
    ensures NotAbove(s, -1) == 0
    ensures AtMostAll(s, m) ==> NotAbove(s, m) == |s|
  {
    if s != [] {
      NotAboveEnds(s[..|s| - 1], m);
    }
  }

  /** The values 0 to `v` in ascending order, each as often as it occurs in `s`. */
  function Expand(s: seq<int>, v: int): (r: seq<int>)
    decreases v + 1
  {
    if v < 0 then [] else Expand(s, v - 1) + seq(multiset(s)[v], _ => v)
  }

  /** The expansion up to `v` is as long as the count up to `v`. */
  lemma {:induction false} ExpandLength(s: seq<int>, v: int)
    requires NonNegative(s)
    ensures |Expand(s, v)| == NotAbove(s, v)
    decreases v + 1
  {
    if v < 0 {
      NotAboveEnds(s, v);
      NotAboveMonotone(s, v, -1);
    } else {
      ExpandLength(s, v - 1);
      NotAboveStep(s, v);
    }
  }

  /** The expansion holds only values from 0 to `v`. */
  lemma {:induction false} ExpandRange(s: seq<int>, v: int)
    ensures forall p :: 0 <= p < |Expand(s, v)| ==> 0 <= Expand(s, v)[p] <= v
    decreases v + 1
  {
    if v >= 0 {
      ExpandRange(s, v - 1);
    }
  }

  /** The expansion is ascending. */
  lemma {:induction false} ExpandSorted(s: seq<int>, v: int)
    ensures Sorted(Expand(s, v))
    decreases v + 1
  {
    if v >= 0 {
      ExpandSorted(s, v - 1);
      ExpandRange(s, v - 1);
      var e := Expand(s, v - 1);
      var run := seq(multiset(s)[v], _ => v);
      assert Expand(s, v) == e + run;
    }
  }

  /** The expansion holds `w` in the positions counted up to `w` but not up to `w - 1`. */
  lemma {:induction false} ExpandBlock(s: seq<int>, v: int, w: int)
    requires NonNegative(s) && 0 <= w <= v
    ensures forall p :: NotAbove(s, w - 1) <= p < NotAbove(s, w) && p < |Expand(s, v)| ==> Expand(s, v)[p] == w
    decreases v
  {
    var e := Expand(s, v - 1);
    var run := seq(multiset(s)[v], _ => v);
    assert Expand(s, v) == e + run;
    ExpandLength(s, v - 1);
    if w < v {
      ExpandBlock(s, v - 1, w);
      NotAboveMonotone(s, w, v - 1);
    } else {
      NotAboveMonotone(s, w - 1, v - 1);
    }
  }

  /** The expansion holds each value from 0 to `v` as often as `s` does, and nothing else. */
  lemma {:induction false} ExpandCounts(s: seq<int>, v: int)
    ensures forall w :: multiset(Expand(s, v))[w] == if 0 <= w <= v then multiset(s)[w] else 0
    decreases v + 1
  {
    if v >= 0 {
      ExpandCounts(s, v - 1);
      var e := Expand(s, v - 1);
      var run := seq(multiset(s)[v], _ => v);
      assert Expand(s, v) == e + run;
      forall w
        ensures multiset(run)[w] == if w == v then multiset(s)[v] else 0
      {
        RunCount(v, multiset(s)[v], w);
      }
    }
  }

  lemma {:induction false} RunCount(v: int, n: nat, w: int)
    ensures multiset(seq(n, _ => v))[w] == if w == v then n else 0
  {
    if n > 0 {
      RunCount(v, n - 1, w);
      assert seq(n, _ => v) == seq(n - 1, _ => v) + [v];
    }
  }

  /** With every value in `[0, m]`, the expansion is the sorted permutation of `s`. */
  lemma ExpandSorts(s: seq<int>, m: int)
    requires NonNegative(s) && AtMostAll(s, m)
    ensures Sorted(Expand(s, m)) && multiset(Expand(s, m)) == multiset(s)
  {
    ExpandSorted(s, m);
    ExpandCounts(s, m);
    forall w
      ensures multiset(Expand(s, m))[w] == multiset(s)[w]
    {
      if w in multiset(s) {
        var k :| 0 <= k < |s| && s[k] == w;
      }
    }
  }

  /** Every position below the count up to `m` lies in the block of some value. */
  lemma {:induction false} BlockOf(s: seq<int>, m: int, p: int)
    requires NonNegative(s) && 0 <= p < NotAbove(s, m)
    ensures exists v :: 0 <= v <= m && NotAbove(s, v - 1) <= p < NotAbove(s, v)
    decreases m + 1
  {
    NotAboveEnds(s, m);
    if m < 0 {
      NotAboveMonotone(s, m, -1);
    } else if p >= NotAbove(s, m - 1) {
    } else {
      BlockOf(s, m - 1, p);
    }
  }

  /**
   * Counting sort.  Without `maxValue` the largest element is used (an empty
   * list has none).  A value above `maxValue` is an index error, found while
   * counting, before the array is touched.  Otherwise the array ends up
   * ascending and a permutation of what it held.
   */
  method CountingSort(arr: array<int>, maxValue: Option<int>) returns (r: Outcome<SortError>)
    requires NonNegative(arr[..])
    modifies arr
    ensures maxValue.None? && arr.Length == 0 ==> r == Fail(ValueError)
    ensures maxValue.Some? && !AtMostAll(old(arr[..]), maxValue.value) ==> r == Fail(IndexError)
    ensures r.Fail? ==> arr[..] == old(arr[..])
    ensures r.Pass? ==> Sorted(arr[..]) && multiset(arr[..]) == multiset(old(arr[..]))
    ensures (maxValue.Some? || arr.Length > 0) && (maxValue.Some? ==> AtMostAll(old(arr[..]), maxValue.value)) ==>
              r.Pass? && arr[..] == Expand(old(arr[..]), MaxOf(old(arr[..]), maxValue))
  {
    if maxValue.None? && arr.Length == 0 {
      return Fail(ValueError);
    }
    var m := MaxOf(arr[..], maxValue);
    ghost var s := arr[..];
    r := SortUpTo(arr, m);
    if r.Pass? {
      ExpandSorts(s, m);
    }
  }

  /**
   * Counting, prefix sums and placement with the maximum `m` fixed: a value
   * above `m` is an index error and leaves the array as it was; otherwise the
   * array becomes the expansion of its values up to `m`.
   */
  method SortUpTo(arr: array<int>, m: int) returns (r: Outcome<SortError>)
    requires NonNegative(arr[..])
    modifies arr
    ensures r.Fail? <==> !AtMostAll(old(arr[..]), m)
    ensures r.Fail? ==> r == Fail(IndexError) && arr[..] == old(arr[..])
    ensures r.Pass? ==> arr[..] == Expand(old(arr[..]), m)
  {
    ghost var s := arr[..];
    var locator := Count(arr, m);
    if locator.None? {
      return Fail(IndexError);
    }
    PrefixSums(locator.value, s);
    Place(arr, locator.value, s);
    assert Expand(s, locator.value.Length - 1) == Expand(s, m) by {
      if m < -1 {
        assert Expand(s, -1) == [] == Expand(s, m);
      }
    }
    return Pass;
  }

  /**
   * The counting loop: `locator[v]` becomes the number of occurrences of `v`,
   * or None when some value is above `m`.
   */
  method Count(arr: array<int>, m: int) returns (locator: Option<array<int>>)
    requires NonNegative(arr[..])
    ensures locator.None? <==> !AtMostAll(arr[..], m)
    ensures locator.Some? ==>
              fresh(locator.value) && locator.value.Length == (if m + 1 > 0 then m + 1 else 0) &&
              forall v :: 0 <= v <= m ==> locator.value[v] == multiset(arr[..])[v]
  {
    var counts := new int[if m + 1 > 0 then m + 1 else 0](_ => 0);
    var i := 0;
    while i < arr.Length
      invariant 0 <= i <= arr.Length
      invariant forall k :: 0 <= k < i ==> arr[k] < counts.Length
      invariant forall v :: 0 <= v < counts.Length ==> counts[v] == multiset(arr[..i])[v]
    {
      var value := arr[i];
      if value >= counts.Length {
        assert arr[..][i] == value;
        return None;
      }
      assert arr[..i + 1] == arr[..i] + [value];
      counts[value] := counts[value] + 1;
      i := i + 1;
    }
    assert arr[..i] == arr[..];
    return Some(counts);
  }

  /** The prefix loop: `locator[v]` becomes the number of elements at most `v`. */
  method PrefixSums(locator: array<int>, ghost s: seq<int>)
    requires NonNegative(s)
    requires forall v :: 0 <= v < locator.Length ==> locator[v] == multiset(s)[v]
    modifies locator
    ensures forall v :: 0 <= v < locator.Length ==> locator[v] == NotAbove(s, v)
  {
    NotAboveEnds(s, 0);
    if locator.Length > 0 {
      NotAboveStep(s, 0);
    }
    var i := 1;
    while i < locator.Length
      invariant 1 <= i <= locator.Length || locator.Length == 0
      invariant forall v :: 0 <= v < i && v < locator.Length ==> locator[v] == NotAbove(s, v)
      invariant forall v :: i <= v < locator.Length ==> locator[v] == multiset(s)[v]
    {
      NotAboveStep(s, i);
      locator[i] := locator[i] + locator[i - 1];
      i := i + 1;
    }
  }

  /** Each end position is the count below the value plus its occurrences still to place. */
  ghost predicate Ends(locator: seq<int>, s: seq<int>, rest: seq<int>)
  {
    forall v {:trigger locator[v]} :: 0 <= v < |locator| ==> locator[v] == NotAbove(s, v - 1) + multiset(rest)[v]
  }

  /** Every slot from a value's end position to the end of its block holds that value. */
  ghost predicate Filled(a: seq<int>, locator: seq<int>, s: seq<int>)
  {
    forall v, p {:trigger locator[v], a[p]} ::
      0 <= v < |locator| && 0 <= locator[v] <= p < NotAbove(s, v) && p < |a| ==> a[p] == v
  }

  /**
   * The placement loop: each value of `s`, in order, takes the slot just
   * below its current end position, which is then lowered.  Every slot lies
   * in the value's block and has not been written before; at the end every
   * block is full, so the array is the expansion of `s`.
   */
  method Place(arr: array<int>, locator: array<int>, ghost s: seq<int>)
    requires arr != locator
    requires s == arr[..] && NonNegative(s) && AtMostAll(s, locator.Length - 1)
    requires forall v :: 0 <= v < locator.Length ==> locator[v] == NotAbove(s, v)
    modifies arr, locator
    ensures arr[..] == Expand(s, locator.Length - 1)
  {
    InitialEnds(arr[..], locator[..], s);
    PlaceAll(arr, locator, s);
    FullBlocks(arr[..], locator[..], s);
  }

  /** The loop of the placement: after it, every occurrence has been placed. */
  method PlaceAll(arr: array<int>, locator: array<int>, ghost s: seq<int>)
    requires arr != locator
    requires s == arr[..] && NonNegative(s) && AtMostAll(s, locator.Length - 1)
    requires Ends(locator[..], s, s) && Filled(arr[..], locator[..], s)
    modifies arr, locator
    ensures Ends(locator[..], s, []) && Filled(arr[..], locator[..], s)
  {
    var copy := arr[..];
    assert copy[0..] == s;
    var j := 0;
    while j < |copy|
      invariant 0 <= j <= |copy| && arr.Length == |s|
      invariant Ends(locator[..], s, copy[j..])
      invariant Filled(arr[..], locator[..], s)
    {
      PlaceOne(arr, locator, s, copy, j);
      j := j + 1;
    }
    assert copy[j..] == [];
  }

  /** Before placement every end position is the end of its block and no block is filled yet. */
  lemma InitialEnds(a: seq<int>, locator: seq<int>, s: seq<int>)
    requires forall v :: 0 <= v < |locator| ==> locator[v] == NotAbove(s, v)
    ensures Ends(locator, s, s) && Filled(a, locator, s)
  {
    forall v | 0 <= v < |locator|
      ensures locator[v] == NotAbove(s, v - 1) + multiset(s)[v]
    {
      NotAboveStep(s, v);
    }
  }

  /** Once every end position is the start of its block, every block is full: the array is the expansion. */
  lemma FullBlocks(a: seq<int>, locator: seq<int>, s: seq<int>)
    requires NonNegative(s) && AtMostAll(s, |locator| - 1) && |a| == |s|
    requires Ends(locator, s, []) && Filled(a, locator, s)
    ensures a == Expand(s, |locator| - 1)
  {
    var m := |locator| - 1;
    NotAboveEnds(s, m);
    ExpandLength(s, m);
    forall p | 0 <= p < |a|
      ensures a[p] == Expand(s, m)[p]
    {
      BlockOf(s, m, p);
      var v :| 0 <= v <= m && NotAbove(s, v - 1) <= p < NotAbove(s, v);
      NotAboveMonotone(s, -1, v - 1);
      assert locator[v] == NotAbove(s, v - 1) + multiset([])[v];
      assert a[p] == v;
      ExpandBlock(s, m, v);
    }
  }

  /** One step of the placement loop. */
  method PlaceOne(arr: array<int>, locator: array<int>, ghost s: seq<int>, copy: seq<int>, j: nat)
    requires arr != locator && copy == s && j < |copy| && arr.Length == |s|
    requires NonNegative(s) && AtMostAll(s, locator.Length - 1)
    requires Ends(locator[..], s, copy[j..]) && Filled(arr[..], locator[..], s)
    modifies arr, locator
    ensures Ends(locator[..], s, copy[j + 1..]) && Filled(arr[..], locator[..], s)
  {
    var value := copy[j];
    SlotFacts(s, j, locator.Length - 1);
    ghost var before := locator[..];
    ghost var written := arr[..];
    locator[value] := locator[value] - 1;
    var slot := locator[value];
    arr[slot] := value;
    assert locator[..] == before[value := slot];
    assert arr[..] == written[slot := value];
    FilledStep(written, before, s, value, slot);
  }

  /**
   * The value at position `j` still has an occurrence to place, so its slot
   * lies inside its block; placing it removes one occurrence.
   */
  lemma SlotFacts(s: seq<int>, j: nat, m: int)
    requires j < |s| && NonNegative(s) && AtMostAll(s, m)
    ensures 0 <= s[j] <= m
    ensures 1 <= multiset(s[j..])[s[j]]
    ensures NotAbove(s, s[j] - 1) + multiset(s[j..])[s[j]] <= NotAbove(s, s[j]) <= |s|
    ensures forall v :: multiset(s[j + 1..])[v] == multiset(s[j..])[v] - (if v == s[j] then 1 else 0)
    ensures forall v, w :: v <= w ==> NotAbove(s, v) <= NotAbove(s, w)
    ensures NotAbove(s, -1) == 0
  {
    RestCounts(s, j);
    NotAboveStep(s, s[j]);
    NotAboveEnds(s, m);
    forall v, w | v <= w
      ensures NotAbove(s, v) <= NotAbove(s, w)
    {
      NotAboveMonotone(s, v, w);
    }
  }

  lemma RestCounts(s: seq<int>, j: nat)
    requires j < |s|
    ensures 1 <= multiset(s[j..])[s[j]] <= multiset(s)[s[j]]
    ensures forall v :: multiset(s[j + 1..])[v] == multiset(s[j..])[v] - (if v == s[j] then 1 else 0)
  {
    assert s[j..] == [s[j]] + s[j + 1..];
    assert s == s[..j] + s[j..];
    assert multiset(s) == multiset(s[..j]) + multiset(s[j..]);
  }

  /** Writing a value into the slot below its end position keeps every block filled from its end. */
  lemma FilledStep(a: seq<int>, locator: seq<int>, s: seq<int>, value: int, slot: int)
    requires Filled(a, locator, s) && 0 <= value < |locator| && slot == locator[value] - 1
    requires 0 <= NotAbove(s, value - 1) <= slot < NotAbove(s, value) <= |a|
    requires forall v :: 0 <= v < |locator| ==> NotAbove(s, v - 1) <= locator[v]
    requires forall v, w :: v <= w ==> NotAbove(s, v) <= NotAbove(s, w)
    ensures Filled(a[slot := value], locator[value := slot], s)
  {
    var a' := a[slot := value];
    var locator' := locator[value := slot];
    forall v, p | 0 <= v < |locator'| && 0 <= locator'[v] <= p < NotAbove(s, v) && p < |a'|
      ensures a'[p] == v
    {
      if v < value {
        assert NotAbove(s, v) <= NotAbove(s, value - 1);
      } else if v > value {
        assert NotAbove(s, value) <= NotAbove(s, v - 1);
      }
    }
  }

  /** The buckets laid end to end. */
  function Flatten(buckets: seq<seq<int>>): (r: seq<int>)
  {
    if buckets == [] then [] else Flatten(buckets[..|buckets| - 1]) + buckets[|buckets| - 1]
  }

  /** Every value sits in the bucket numbered by its quotient by `range`. */
  predicate Bucketed(buckets: seq<seq<int>>, range: nat)
  {
    forall b, x :: 0 <= b < |buckets| && x in buckets[b] ==> range > 0 && x / range == b
  }

  /** Appending a value to one bucket adds it to the values laid end to end. */
  lemma {:induction false} FlattenAppend(buckets: seq<seq<int>>, b: nat, x: int)
    requires b < |buckets|
    ensures multiset(Flatten(buckets[b := buckets[b] + [x]])) == multiset(Flatten(buckets)) + multiset{x}
  {
    var updated := buckets[b := buckets[b] + [x]];
    var n := |buckets| - 1;
    if b == n {
      assert updated[..n] == buckets[..n];
    } else {
      assert updated[..n] == buckets[..n][b := buckets[b] + [x]];
      FlattenAppend(buckets[..n], b, x);
    }
  }

  /** Buckets holding the same values bucket by bucket hold the same values laid end to end. */
  lemma {:induction false} FlattenSameCounts(buckets: seq<seq<int>>, others: seq<seq<int>>)
    requires |buckets| == |others|
    requires forall b :: 0 <= b < |buckets| ==> multiset(buckets[b]) == multiset(others[b])
    ensures multiset(Flatten(buckets)) == multiset(Flatten(others))
  {
    if buckets != [] {
      FlattenSameCounts(buckets[..|buckets| - 1], others[..|others| - 1]);
    }
  }

  /** Laid end to end, bucketed values keep quotients below the number of buckets. */
  lemma {:induction false} FlattenQuotients(buckets: seq<seq<int>>, range: nat)
    requires Bucketed(buckets, range)
    ensures forall x :: x in Flatten(buckets) ==> range > 0 && x / range < |buckets|
  {
    if buckets != [] {
      var n := |buckets| - 1;
      FlattenQuotients(buckets[..n], range);
      forall x | x in Flatten(buckets)
        ensures range > 0 && x / range < |buckets|
      {
        if x !in Flatten(buckets[..n]) {
          assert x in buckets[n];
        }
      }
    }
  }

  lemma MulCancel(a: int, b: int, r: int)
    requires r > 0 && a * r < b * r
    ensures a < b
  {
    assert (b - a) * r == b * r - a * r;
  }

  /** The quotient is the `q` whose multiple of `r` lies within `r` below `v`. */
  lemma DivIs(v: int, r: int, q: int)
    requires r > 0 && q * r <= v < q * r + r
    ensures v / r == q
  {
    var quotient := v / r;
    assert quotient * r <= v < quotient * r + r;
    MulCancel(quotient, q + 1, r);
    MulCancel(q, quotient + 1, r);
  }

  lemma QuotientMonotone(x: int, y: int, range: int)
    requires x <= y && range > 0
    ensures x / range <= y / range
  {
    MulCancel(x / range, y / range + 1, range);
  }

  /** Sorted buckets, bucketed by quotient, are ascending laid end to end. */
  lemma {:induction false} FlattenSorted(buckets: seq<seq<int>>, range: nat)
    requires Bucketed(buckets, range)
    requires forall b :: 0 <= b < |buckets| ==> Sorted(buckets[b])
    ensures Sorted(Flatten(buckets))
  {
    if buckets != [] {
      var n := |buckets| - 1;
      var front := Flatten(buckets[..n]);
      var last := buckets[n];
      FlattenSorted(buckets[..n], range);
      FlattenQuotients(buckets[..n], range);
      forall i, j | 0 <= i < j < |front + last|
        ensures (front + last)[i] <= (front + last)[j]
      {
        if i < |front| && j >= |front| {
          var x, y := front[i], last[j - |front|];
          assert x in front && y in last;
          if x > y {
            QuotientMonotone(y, x, range);
          }
        }
      }
    }
  }

  /** The bucket sort's outcome for a list, a bucket count and an optional maximum. */
  function BucketOutcome(s: seq<int>, numberOfBuckets: nat, maxValue: Option<int>): Outcome<SortError>
    requires NonNegative(s) && (maxValue.Some? ==> maxValue.value >= 0)
  {
    if maxValue.None? && s == [] then Fail(ValueError)
    else if numberOfBuckets == 0 then Fail(ZeroDivisionError)
    else
      var range := CeilDiv(MaxOf(s, maxValue), numberOfBuckets);
      if s != [] && range == 0 then Fail(ZeroDivisionError)
      else if exists k :: 0 <= k < |s| && s[k] / range >= numberOfBuckets then Fail(IndexError)
      else Pass
  }

  /**
   * When the values are at most the maximum, the bucket range is zero
   * exactly when the maximum is zero, and a value falls past the last
   * bucket exactly when the bucket count divides the maximum and the value
   * is the maximum.
   */
  lemma BucketIndexInRange(v: int, maxValue: nat, numberOfBuckets: nat)
    requires numberOfBuckets > 0 && 0 <= v <= maxValue
    ensures CeilDiv(maxValue, numberOfBuckets) == 0 <==> maxValue == 0
    ensures maxValue > 0 ==>
              (v / CeilDiv(maxValue, numberOfBuckets) >= numberOfBuckets <==>
               maxValue % numberOfBuckets == 0 && v == maxValue)
  {
    var range := CeilDiv(maxValue, numberOfBuckets);
    if maxValue == 0 {
      MulCancel(range, 1, numberOfBuckets);
    } else if maxValue % numberOfBuckets == 0 {
      DivIs(maxValue + numberOfBuckets - 1, numberOfBuckets, maxValue / numberOfBuckets);
      assert range * numberOfBuckets == maxValue;
      if v < maxValue {
        QuotientBelow(v, range, numberOfBuckets);
      } else {
        DivIs(v, range, numberOfBuckets);
      }
    } else {
      NotExact(maxValue, numberOfBuckets, range);
      QuotientBelow(v, range, numberOfBuckets);
    }
  }

  /**
   * The bucket sort's outcome in terms of the maximum `m` it uses: no
   * maximum for an empty list is a value error; no buckets, or a zero
   * maximum with something to place, divides by zero; and a value falls
   * past the last bucket exactly when the bucket count divides a positive
   * maximum that occurs in the list.
   */
  lemma BucketOutcomeCases(s: seq<int>, numberOfBuckets: nat, maxValue: Option<int>)
    requires NonNegative(s) && (maxValue.Some? ==> maxValue.value >= 0 && AtMostAll(s, maxValue.value))
    ensures maxValue.None? && s == [] ==> BucketOutcome(s, numberOfBuckets, maxValue) == Fail(ValueError)
    ensures maxValue.Some? || s != [] ==>
              var m := MaxOf(s, maxValue);
              BucketOutcome(s, numberOfBuckets, maxValue) ==
                if numberOfBuckets == 0 || (s != [] && m == 0) then Fail(ZeroDivisionError)
                else if m > 0 && m % numberOfBuckets == 0 && m in s then Fail(IndexError)
                else Pass
  {
    if (maxValue.Some? || s != []) && numberOfBuckets > 0 {
      var m := MaxOf(s, maxValue);
      var range := CeilDiv(m, numberOfBuckets);
      BucketIndexInRange(0, m, numberOfBuckets);
      if m > 0 {
        forall k | 0 <= k < |s|
          ensures s[k] / range >= numberOfBuckets <==> m % numberOfBuckets == 0 && s[k] == m
        {
          BucketIndexInRange(s[k], m, numberOfBuckets);
        }
      }
    }
  }

  lemma NotExact(m: nat, n: nat, c: nat)
    requires n > 0 && m % n != 0
    ensures c * n != m
  {
    if c * n == m {
      DivIs(m, n, c);
    }
  }

  lemma QuotientBelow(v: int, range: int, count: int)
    requires 0 <= v < range * count && range > 0
    ensures v / range < count
  {
  }

  /**
   * Bucket sort.  Without `maxValue` the largest element is used; the
   * bucket range is the maximum divided by the bucket count, rounded up.
   * A zero bucket count or a zero range divides by zero, a value whose
   * quotient reaches the bucket count has no bucket, and the array is left
   * as it was.  Otherwise the sorted buckets, laid end to end, overwrite
   * the array: ascending and a permutation of what it held.
   */
  method BucketSort(arr: array<int>, numberOfBuckets: nat, maxValue: Option<int>) returns (r: Outcome<SortError>)
    requires NonNegative(arr[..]) && (maxValue.Some? ==> maxValue.value >= 0)
    modifies arr
    ensures r == BucketOutcome(old(arr[..]), numberOfBuckets, maxValue)
    ensures r.Fail? ==> arr[..] == old(arr[..])
    ensures r.Pass? ==> Sorted(arr[..]) && multiset(arr[..]) == multiset(old(arr[..]))
  {
    if maxValue.None? && arr.Length == 0 {
      return Fail(ValueError);
    }
    var m := MaxOf(arr[..], maxValue);
    if numberOfBuckets == 0 {
      return Fail(ZeroDivisionError);
    }
    var range := CeilDiv(m, numberOfBuckets);
    var distributed := Distribute(arr[..], range, numberOfBuckets);
    if distributed.Err? {
      return Fail(distributed.error);
    }
    var buckets := SortBuckets(distributed.value, range);
    FlattenSorted(buckets, range);
    FlattenSameCounts(buckets, distributed.value);
    Combine(arr, buckets);
    return Pass;
  }

  /**
   * The distribution loop: each value is appended to the bucket numbered by
   * its quotient by `range`.
   */
  method Distribute(values: seq<int>, range: nat, count: nat) returns (r: Result<seq<seq<int>>, SortError>)
    requires NonNegative(values)
    ensures r == Err(ZeroDivisionError) <==> values != [] && range == 0
    ensures r == Err(IndexError) <==> range > 0 && exists k :: 0 <= k < |values| && values[k] / range >= count
    ensures r.Err? ==> r.error == ZeroDivisionError || r.error == IndexError
    ensures r.Ok? ==> |r.value| == count && Bucketed(r.value, range) && multiset(Flatten(r.value)) == multiset(values)
  {
    var buckets: seq<seq<int>> := seq(count, _ => []);
    EmptyBuckets(count);
    var i := 0;
    while i < |values|
      invariant 0 <= i <= |values| && |buckets| == count
      invariant Bucketed(buckets, range)
      invariant i > 0 ==> range > 0
      invariant forall k :: 0 <= k < i ==> range > 0 && values[k] / range < count
      invariant multiset(Flatten(buckets)) == multiset(values[..i])
    {
      var placed := PlaceValue(buckets, range, values[i]);
      if placed.Err? {
        assert range > 0 ==> values[i] / range >= count;
        return Err(placed.error);
      }
      assert range > 0 && values[i] / range < count;
      assert values[..i + 1] == values[..i] + [values[i]];
      buckets := placed.value;
      i := i + 1;
    }
    assert values[..i] == values;
    return Ok(buckets);
  }

  /** One step of the distribution loop: `value` goes to the bucket numbered by its quotient. */
  method PlaceValue(buckets: seq<seq<int>>, range: nat, value: int) returns (r: Result<seq<seq<int>>, SortError>)
    requires Bucketed(buckets, range) && value >= 0
    ensures r == Err(ZeroDivisionError) <==> range == 0
    ensures r == Err(IndexError) <==> range > 0 && value / range >= |buckets|
    ensures r.Err? ==> r.error == ZeroDivisionError || r.error == IndexError
    ensures r.Ok? ==> |r.value| == |buckets| && Bucketed(r.value, range) &&
                      multiset(Flatten(r.value)) == multiset(Flatten(buckets)) + multiset{value}
  {
    if range == 0 {
      return Err(ZeroDivisionError);
    }
    var index := value / range;
    if index >= |buckets| {
      return Err(IndexError);
    }
    FlattenAppend(buckets, index, value);
    BucketedAppend(buckets, range, index, value);
    return Ok(buckets[index := buckets[index] + [value]]);
  }

  lemma BucketedAppend(buckets: seq<seq<int>>, range: nat, index: nat, value: int)
    requires Bucketed(buckets, range) && index < |buckets| && range > 0 && value / range == index
    ensures Bucketed(buckets[index := buckets[index] + [value]], range)
  {
    var updated := buckets[index := buckets[index] + [value]];
    forall b, x | 0 <= b < |updated| && x in updated[b]
      ensures range > 0 && x / range == b
    {
      if b == index && x != value {
        assert x in buckets[b];
      }
    }
  }

  lemma {:induction false} EmptyBuckets(count: nat)
    ensures Flatten(seq(count, _ => [])) == []
  {
    if count > 0 {
      EmptyBuckets(count - 1);
      var none: seq<seq<int>> := seq(count, _ => []);
      var fewer: seq<seq<int>> := seq(count - 1, _ => []);
      assert none[..count - 1] == fewer;
    }
  }

  /** Sorts every bucket in place, keeping its values. */
  method SortBuckets(buckets: seq<seq<int>>, range: nat) returns (sorted: seq<seq<int>>)
    requires Bucketed(buckets, range)
    ensures |sorted| == |buckets| && Bucketed(sorted, range)
    ensures forall b :: 0 <= b < |sorted| ==> Sorted(sorted[b]) && multiset(sorted[b]) == multiset(buckets[b])
  {
    sorted := buckets;
    var b := 0;
    while b < |sorted|
      invariant 0 <= b <= |sorted| == |buckets|
      invariant forall c :: 0 <= c < b ==> Sorted(sorted[c])
      invariant forall c :: 0 <= c < |sorted| ==> multiset(sorted[c]) == multiset(buckets[c])
    {
      var a := new int[|sorted[b]|](k requires 0 <= k < |sorted[b]| => sorted[b][k]);
      assert a[..] == sorted[b];
      InsertionSort(a);
      sorted := sorted[b := a[..]];
      b := b + 1;
    }
    forall c, x | 0 <= c < |sorted| && x in sorted[c]
      ensures range > 0 && x / range == c
    {
      assert x in multiset(sorted[c]);
      assert x in buckets[c];
    }
  }

  /** The combining loop: the buckets, in order, overwrite the array from its start. */
  method Combine(arr: array<int>, buckets: seq<seq<int>>)
    requires |Flatten(buckets)| == arr.Length
    modifies arr
    ensures arr[..] == Flatten(buckets)
  {
    var i := 0;
    var b := 0;
    while b < |buckets|
      invariant 0 <= b <= |buckets|
      invariant i == |Flatten(buckets[..b])| <= arr.Length
      invariant arr[..i] == Flatten(buckets[..b])
    {
      var bucket := buckets[b];
      assert buckets[..b + 1][..b] == buckets[..b];
      FlattenPrefix(buckets, b + 1);
      var k := 0;
      while k < |bucket|
        invariant 0 <= k <= |bucket|
        invariant i == |Flatten(buckets[..b])| + k <= arr.Length
        invariant arr[..i] == Flatten(buckets[..b]) + bucket[..k]
      {
        arr[i] := bucket[k];
        assert bucket[..k + 1] == bucket[..k] + [bucket[k]];
        i := i + 1;
        k := k + 1;
      }
      assert bucket[..k] == bucket;
      b := b + 1;
    }
    assert buckets[..b] == buckets;
  }

  /** A prefix of the buckets lays out no more values than all of them. */
  lemma {:induction false} FlattenPrefix(buckets: seq<seq<int>>, b: nat)
    requires b <= |buckets|
    ensures |Flatten(buckets[..b])| <= |Flatten(buckets)|
    decreases |buckets|
  {
    if b < |buckets| {
      var n := |buckets| - 1;
      assert buckets[..n][..b] == buckets[..b];
      FlattenPrefix(buckets[..n], b);
    } else {
      assert buckets[..b] == buckets;
    }
  }
}
