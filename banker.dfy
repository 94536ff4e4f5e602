/**
 * The banker's algorithm: resource vectors with componentwise arithmetic,
 * the need matrix, the check of a proposed order of processes, and the
 * search for a safe order.
 *
 * The vector operators pair positions as `zip` does, so a result is as long
 * as the shorter operand.  Row indices follow list indexing: a negative index
 * counts from the end.
 */
module Banker {
  import opened Wrappers

  type Vector = seq<int>
  type Matrix = seq<seq<int>>

  function Min(a: int, b: int): int
  {
    if a <= b then a else b
  }

  /** `<=` on resource vectors: every paired position of `a` is at most that of `b`. */
  predicate AtMost(a: Vector, b: Vector)
  {
    forall k :: 0 <= k < |a| && k < |b| ==> a[k] <= b[k]
  }

  /** The paired positions added. */
  function Sum(a: Vector, b: Vector): (r: Vector)
    ensures |r| == Min(|a|, |b|)
    ensures forall k :: 0 <= k < |r| ==> r[k] - b[k] == a[k]
  {
    seq(Min(|a|, |b|), k requires 0 <= k < Min(|a|, |b|) => a[k] + b[k])
  }

  /** The paired positions subtracted. */
  function Difference(a: Vector, b: Vector): (r: Vector)
    ensures |r| == Min(|a|, |b|)
    ensures forall k :: 0 <= k < |r| ==> r[k] + b[k] == a[k]
  {
    seq(Min(|a|, |b|), k requires 0 <= k < Min(|a|, |b|) => a[k] - b[k])
  }

  /** The right operand of `+` and `-`: a list, or anything else. */
  datatype Operand = Items(values: Vector) | NotAList

  datatype BankerError = TypeError | IndexError

  /** `+`: a right operand that is not a list is a type error. */
  function Plus(a: Vector, other: Operand): (r: Result<Vector, BankerError>)
    ensures other.NotAList? <==> r == Err(TypeError)
    ensures other.Items? ==> r.Ok? && |r.value| == Min(|a|, |other.values|) &&
                             forall k :: 0 <= k < |r.value| ==> r.value[k] == a[k] + other.values[k]
  {
    match other
    case NotAList => Err(TypeError)
    case Items(values) => Ok(Sum(a, values))
  }

  /** `-`: a right operand that is not a list is a type error. */
  function Minus(a: Vector, other: Operand): (r: Result<Vector, BankerError>)
    ensures other.NotAList? <==> r == Err(TypeError)
    ensures other.Items? ==> r.Ok? && |r.value| == Min(|a|, |other.values|) &&
                             forall k :: 0 <= k < |r.value| ==> r.value[k] == a[k] - other.values[k]
  {
    match other
    case NotAList => Err(TypeError)
    case Items(values) => Ok(Difference(a, values))
  }

  /** Subtracting what was added gives back the paired part of the vector. */
  lemma MinusUndoesPlus(a: Vector, b: Vector)
    ensures Minus(Plus(a, Items(b)).value, Items(b)) == Ok(a[..Min(|a|, |b|)])
  {
    var s := Sum(a, b);
    assert Plus(a, Items(b)) == Ok(s);
    var r := Difference(s, b);
    assert Minus(s, Items(b)) == Ok(r);
    assert |r| == |a[..Min(|a|, |b|)]|;
    assert forall k :: 0 <= k < |r| ==> r[k] == a[..Min(|a|, |b|)][k];
    assert r == a[..Min(|a|, |b|)];
  }

  /** Adding a vector without negative entries never lowers a position: the result is at least the start. */
  lemma PlusGrows(a: Vector, b: Vector)
    requires forall k :: 0 <= k < |b| ==> b[k] >= 0
    ensures AtMost(a, Plus(a, Items(b)).value)
  {
  }

  /** The need matrix: maximum less allocation, row by row and position by position. */
  function CalculateNeed(allocation: Matrix, maxMatrix: Matrix): (need: Matrix)
    ensures |need| == Min(|maxMatrix|, |allocation|)
    ensures forall i :: 0 <= i < |need| ==>
              |need[i]| == Min(|maxMatrix[i]|, |allocation[i]|) &&
              forall j :: 0 <= j < |need[i]| ==> need[i][j] == maxMatrix[i][j] - allocation[i][j]
  {
    seq(Min(|maxMatrix|, |allocation|), i requires 0 <= i < Min(|maxMatrix|, |allocation|) =>
      Difference(maxMatrix[i], allocation[i]))
  }

  /** List indexing: `i` picks a row of a list of `n` rows when `-n <= i < n`. */
  function RowIndex(i: int, n: nat): (r: Option<nat>)
    ensures r.Some? <==> 0 <= i + n && i < n
    ensures r.Some? ==> r.value < n && (if i >= 0 then r.value == i else r.value == i + n)
  {
    if 0 <= i < n then Some(i) else if 0 <= i + n && i < 0 then Some(i + n) else None
  }

  /** The process numbers below `n`. */
  function Processes(n: nat): (r: set<nat>)
    ensures forall i :: i in r <==> 0 <= i < n
    ensures |r| == n
  {
    if n == 0 then {} else Processes(n - 1) + {n - 1}
  }

  /** The work vector and finished processes after a replayed order, or why the replay stopped. */
  datatype Replay = Completed(work: Vector, finished: set<nat>) | Rejected | OutOfRange

  /**
   * Replays a proposed order: each entry must name a process not yet
   * finished whose need is at most the current work; that process finishes
   * and its allocation row is added to the work.
   */
  function ReplayOf(need: Matrix, allocation: Matrix, available: Vector, sequence: seq<int>): (r: Replay)
    requires |need| <= |allocation|
    decreases |sequence|
  {
    if sequence == [] then Completed(available, {})
    else Step(need, allocation, ReplayOf(need, allocation, available, sequence[..|sequence| - 1]), sequence[|sequence| - 1])
  }

  /** One entry of a replay: `entry` names the process to finish next. */
  function Step(need: Matrix, allocation: Matrix, replay: Replay, entry: int): (r: Replay)
    requires |need| <= |allocation|
  {
    match replay
    case Completed(work, finished) =>
      (match RowIndex(entry, |need|)
       case None => OutOfRange
       case Some(i) =>
         if i !in finished && AtMost(need[i], work) then
           Completed(Sum(work, allocation[RowIndex(entry, |allocation|).value]), finished + {i})
         else Rejected)
    case Rejected => Rejected
    case OutOfRange => OutOfRange
  }

  /** The answer for a replay: every process finished, a rejected step, or an index error. */
  function Verdict(replay: Replay, n: nat): Result<bool, BankerError>
  {
    match replay
    case Completed(_, finished) => Ok(finished == Processes(n))
    case Rejected => Ok(false)
    case OutOfRange => Err(IndexError)
  }

  /**
   * Checks a proposed order of processes, stopping with false at the first
   * entry that names a finished process or one whose need exceeds the work.
   */
  method IsSequenceSafe(allocation: Matrix, maxMatrix: Matrix, available: Vector, sequence: seq<int>)
    returns (r: Result<bool, BankerError>)
    ensures var need := CalculateNeed(allocation, maxMatrix);
            r == Verdict(ReplayOf(need, allocation, available, sequence), |need|)
  {
    var need := CalculateNeed(allocation, maxMatrix);
    r := CheckOrder(need, allocation, available, sequence);
  }

  /**
   * The loop of the order check, with the need matrix computed: `finish`
   * marks the processes done so far and `work` is the current work vector.
   */
  method CheckOrder(need: Matrix, allocation: Matrix, available: Vector, sequence: seq<int>)
    returns (r: Result<bool, BankerError>)
    requires |need| <= |allocation|
    ensures r == Verdict(ReplayOf(need, allocation, available, sequence), |need|)
  {
    var work := available;
    var finish := seq(|need|, _ => false);
    var t := 0;
    while t < |sequence|
      invariant 0 <= t <= |sequence| && |finish| == |need|
      invariant ReplayOf(need, allocation, available, sequence[..t]) == Completed(work, FinishedSet(finish))
    {
      ReplayNext(need, allocation, available, sequence, t);
      var index := RowIndex(sequence[t], |finish|);
      if index.None? {
        assert ReplayOf(need, allocation, available, sequence[..t + 1]) == OutOfRange;
        PrefixStops(need, allocation, available, sequence, t + 1);
        return Err(IndexError);
      }
      var i := index.value;
      MarkFinished(finish, i);
      if !finish[i] && AtMost(need[i], work) {
        work := Sum(work, allocation[RowIndex(sequence[t], |allocation|).value]);
        finish := finish[i := true];
      } else {
        assert ReplayOf(need, allocation, available, sequence[..t + 1]) == Rejected;
        PrefixStops(need, allocation, available, sequence, t + 1);
        return Ok(false);
      }
      t := t + 1;
    }
    assert sequence[..|sequence|] == sequence;
    AllFinished(finish);
    return Ok(forall j :: 0 <= j < |finish| ==> finish[j]);
  }

  function FinishedSet(finish: seq<bool>): set<nat>
  {
    set j: nat | j < |finish| && finish[j]
  }

  lemma ReplayNext(need: Matrix, allocation: Matrix, available: Vector, sequence: seq<int>, t: nat)
    requires |need| <= |allocation| && t < |sequence|
    ensures ReplayOf(need, allocation, available, sequence[..t + 1]) ==
            Step(need, allocation, ReplayOf(need, allocation, available, sequence[..t]), sequence[t])
  {
    assert sequence[..t + 1][..t] == sequence[..t];
  }

  lemma MarkFinished(finish: seq<bool>, i: nat)
    requires i < |finish|
    ensures finish[i] <==> i in FinishedSet(finish)
    ensures FinishedSet(finish[i := true]) == FinishedSet(finish) + {i}
  {
  }

  lemma AllFinished(finish: seq<bool>)
    ensures (forall j :: 0 <= j < |finish| ==> finish[j]) <==> FinishedSet(finish) == Processes(|finish|)
  {
    if !forall j :: 0 <= j < |finish| ==> finish[j] {
      var j :| 0 <= j < |finish| && !finish[j];
      assert j !in FinishedSet(finish);
    }
  }

  /** Once a replay of a prefix stops, the replay of the whole order stops the same way. */
  lemma {:induction false} PrefixStops(need: Matrix, allocation: Matrix, available: Vector, sequence: seq<int>, t: nat)
    requires |need| <= |allocation| && t <= |sequence|
    requires !ReplayOf(need, allocation, available, sequence[..t]).Completed?
    ensures ReplayOf(need, allocation, available, sequence) == ReplayOf(need, allocation, available, sequence[..t])
    decreases |sequence| - t
  {
    if t < |sequence| {
      var longer := sequence[..t + 1];
      assert longer[..t] == sequence[..t];
      PrefixStops(need, allocation, available, sequence, t + 1);
    } else {
      assert sequence[..t] == sequence;
    }
  }

  /**
   * A completed replay finished exactly the processes its entries name, each
   * named once: so an order the check accepts lists every process exactly
   * once.
   */
  lemma {:induction false} ReplayNamesEachOnce(need: Matrix, allocation: Matrix, available: Vector, sequence: seq<int>)
    requires |need| <= |allocation|
    requires ReplayOf(need, allocation, available, sequence).Completed?
    ensures forall t :: 0 <= t < |sequence| ==> RowIndex(sequence[t], |need|).Some?
    ensures forall s, t :: 0 <= s < t < |sequence| ==> RowIndex(sequence[s], |need|) != RowIndex(sequence[t], |need|)
    ensures ReplayOf(need, allocation, available, sequence).finished ==
              set t | 0 <= t < |sequence| :: RowIndex(sequence[t], |need|).value
    decreases |sequence|
  {
    if sequence != [] {
      var init := sequence[..|sequence| - 1];
      assert forall t :: 0 <= t < |init| ==> init[t] == sequence[t];
      ReplayNamesEachOnce(need, allocation, available, init);
      var last := |sequence| - 1;
      assert (set t | 0 <= t < |sequence| :: RowIndex(sequence[t], |need|).value) ==
             (set t | 0 <= t < |init| :: RowIndex(init[t], |need|).value) + {RowIndex(sequence[last], |need|).value};
    }
  }

  /** An accepted order has one entry per process and names every process. */
  lemma AcceptedOrderIsComplete(need: Matrix, allocation: Matrix, available: Vector, sequence: seq<int>)
    requires |need| <= |allocation|
    requires Verdict(ReplayOf(need, allocation, available, sequence), |need|) == Ok(true)
    ensures |sequence| == |need|
    ensures forall i :: 0 <= i < |need| ==> exists t :: 0 <= t < |sequence| && RowIndex(sequence[t], |need|) == Some(i)
  {
    ReplayNamesEachOnce(need, allocation, available, sequence);
    var names := set t | 0 <= t < |sequence| :: RowIndex(sequence[t], |need|).value;
    assert names == Processes(|need|);
    forall i | 0 <= i < |need|
      ensures exists t :: 0 <= t < |sequence| && RowIndex(sequence[t], |need|) == Some(i)
    {
      assert i in names;
    }
    NamesCount(need, sequence, |sequence|);
  }

  lemma {:induction false} NamesCount(need: Matrix, sequence: seq<int>, t: nat)
    requires t <= |sequence|
    requires forall s :: 0 <= s < |sequence| ==> RowIndex(sequence[s], |need|).Some?
    requires forall s, u :: 0 <= s < u < |sequence| ==> RowIndex(sequence[s], |need|) != RowIndex(sequence[u], |need|)
    ensures |set s | 0 <= s < t :: RowIndex(sequence[s], |need|).value| == t
  {
    if t > 0 {
      NamesCount(need, sequence, t - 1);
      var before := set s | 0 <= s < t - 1 :: RowIndex(sequence[s], |need|).value;
      assert (set s | 0 <= s < t :: RowIndex(sequence[s], |need|).value) ==
             before + {RowIndex(sequence[t - 1], |need|).value};
      assert RowIndex(sequence[t - 1], |need|).value !in before;
    }
  }

  /** What the replayed entries have allocated at position `k`, added up. */
  function Allocated(allocation: Matrix, sequence: seq<int>, k: nat): int
  {
    if sequence == [] then 0
    else
      Allocated(allocation, sequence[..|sequence| - 1], k) +
      match RowIndex(sequence[|sequence| - 1], |allocation|)
      case Some(r) => if k < |allocation[r]| then allocation[r][k] else 0
      case None => 0
  }

  /**
   * With vectors of one width `d`, the work after a completed replay is the
   * available vector plus the allocation rows of the finished processes.
   */
  lemma {:induction false} ReplayWork(need: Matrix, allocation: Matrix, available: Vector, sequence: seq<int>, d: nat)
    requires |need| <= |allocation| && |available| == d
    requires forall r :: 0 <= r < |allocation| ==> |allocation[r]| == d
    requires ReplayOf(need, allocation, available, sequence).Completed?
    ensures var work := ReplayOf(need, allocation, available, sequence).work;
            |work| == d && forall k :: 0 <= k < d ==> work[k] == available[k] + Allocated(allocation, sequence, k)
    decreases |sequence|
  {
    if sequence != [] {
      ReplayWork(need, allocation, available, sequence[..|sequence| - 1], d);
    }
  }

  /** Some row of `need` is at most `work`. */
  predicate SomeNeedFits(need: Matrix, work: Vector)
  {
    exists i :: 0 <= i < |need| && AtMost(need[i], work)
  }

  /**
   * Searches for a safe order by sweeping the processes round-robin while
   * some process is unfinished and some need row (finished or not) fits the
   * work.  The sweep can go on forever, so it is given `fuel` steps and
   * answers None when they run out.  The ghost `order` is the list of
   * processes the sweep finished, in order: when it finished every process,
   * that order is returned, and the check accepts it; otherwise the sweep got
   * stuck with no need row fitting the work, and the answer is empty.
   */
  method SafeState(allocation: Matrix, maxMatrix: Matrix, available: Vector, fuel: nat)
    returns (r: Option<seq<int>>, ghost order: seq<int>)
    ensures var need := CalculateNeed(allocation, maxMatrix);
            r.Some? ==> ReplayOf(need, allocation, available, order).Completed?
    ensures var need := CalculateNeed(allocation, maxMatrix);
            r.Some? && ReplayOf(need, allocation, available, order).finished == Processes(|need|) ==>
              r.value == order && Verdict(ReplayOf(need, allocation, available, r.value), |need|) == Ok(true)
    ensures var need := CalculateNeed(allocation, maxMatrix);
            r.Some? && ReplayOf(need, allocation, available, order).finished != Processes(|need|) ==>
              r.value == [] && !SomeNeedFits(need, ReplayOf(need, allocation, available, order).work)
    ensures var need := CalculateNeed(allocation, maxMatrix);
            r.Some? && r.value != [] ==> Verdict(ReplayOf(need, allocation, available, r.value), |need|) == Ok(true)
    ensures var need := CalculateNeed(allocation, maxMatrix);
            !SomeNeedFits(need, available) ==> r == Some([])
    ensures var need := CalculateNeed(allocation, maxMatrix);
            var replay := ReplayOf(need, allocation, available, order);
            r.None? ==> replay.Completed? && replay.finished != Processes(|need|) && SomeNeedFits(need, replay.work)
    ensures var need := CalculateNeed(allocation, maxMatrix);
            var replay := ReplayOf(need, allocation, available, order);
            r.None? && fuel >= |need| * |need| + |need| ==> replay.Completed? && Spinning(need, replay.work, replay.finished)
  {
    var need := CalculateNeed(allocation, maxMatrix);
    r, order := SearchOrder(need, allocation, available, fuel);
  }

  /**
   * The sweep of the safe-order search, with the need matrix computed:
   * `finish` marks the processes done, `work` is the current work vector and
   * `i` the process looked at next.
   */
  method SearchOrder(need: Matrix, allocation: Matrix, available: Vector, fuel: nat)
    returns (r: Option<seq<int>>, ghost order: seq<int>)
    requires |need| <= |allocation|
    ensures r.Some? ==> ReplayOf(need, allocation, available, order).Completed?
    ensures r.Some? && ReplayOf(need, allocation, available, order).finished == Processes(|need|) ==>
              r.value == order && Verdict(ReplayOf(need, allocation, available, r.value), |need|) == Ok(true)
    ensures r.Some? && ReplayOf(need, allocation, available, order).finished != Processes(|need|) ==>
              r.value == [] && !SomeNeedFits(need, ReplayOf(need, allocation, available, order).work)
    ensures r.Some? && r.value != [] ==> Verdict(ReplayOf(need, allocation, available, r.value), |need|) == Ok(true)
    ensures !SomeNeedFits(need, available) ==> r == Some([])
    ensures var replay := ReplayOf(need, allocation, available, order);
            r.None? ==> replay.Completed? && replay.finished != Processes(|need|) && SomeNeedFits(need, replay.work)
    ensures var replay := ReplayOf(need, allocation, available, order);
            r.None? && fuel >= |need| * |need| + |need| ==> replay.Completed? && Spinning(need, replay.work, replay.finished)
  {
    var work := available;
    var finish := seq(|need|, _ => false);
    var i := 0;
    var result: seq<int> := [];
    var steps: nat := fuel;
    ghost var idle: nat := 0;
    assert FinishedSet(finish) == {};
    while (exists j :: 0 <= j < |finish| && !finish[j]) && SomeNeedFits(need, work)
      invariant steps <= fuel && Sweeping(need, allocation, available, finish, work, result, i, idle, fuel - steps)
      decreases steps
    {
      if steps == 0 {
        SweepSpent(need, allocation, available, finish, work, result, i, idle, fuel);
        return None, result;
      }
      finish, work, result, i, idle := SweepStep(need, allocation, available, finish, work, result, i, idle, fuel - steps);
      steps := steps - 1;
    }
    AllFinished(finish);
    order := result;
    if forall j :: 0 <= j < |finish| ==> finish[j] {
      return Some(result), order;
    }
    return Some([]), order;
  }

  /** Finishing one more process extends a completed replay. */
  lemma ExtendReplay(need: Matrix, allocation: Matrix, available: Vector, sequence: seq<int>,
                     work: Vector, finished: set<nat>, i: nat)
    requires |need| <= |allocation| && i < |need|
    requires ReplayOf(need, allocation, available, sequence) == Completed(work, finished)
    requires i !in finished && AtMost(need[i], work)
    ensures ReplayOf(need, allocation, available, sequence + [i]) == Completed(Sum(work, allocation[i]), finished + {i})
  {
    assert (sequence + [i])[..|sequence|] == sequence;
  }

  /**
   * The sweep can no longer finish anything: every unfinished process needs
   * more than the work, while the loop guard still holds, so the Python loop
   * runs forever.
   */
  ghost predicate Spinning(need: Matrix, work: Vector, finished: set<nat>)
  {
    finished != Processes(|need|) && SomeNeedFits(need, work) &&
    forall j :: 0 <= j < |need| && j !in finished ==> !AtMost(need[j], work)
  }

  /**
   * Row `j` was looked at in the last `idle` steps of the round-robin sweep
   * of `n` rows that is now at row `i`; all rows once `idle` reaches `n`.
   */
  ghost predicate Swept(j: int, i: int, idle: nat, n: nat)
  {
    idle >= n || (if i >= idle then i - idle <= j < i else j < i || n - (idle - i) <= j)
  }

  /**
   * The state of the sweep after `spent` steps: `finish` marks the
   * processes finished, in the order `result`, whose replay reaches `work`;
   * `i` is the row looked at next, and `idle` counts the steps since a
   * process last finished, every row looked at in them being finished or
   * too needy.
   */
  ghost predicate Sweeping(need: Matrix, allocation: Matrix, available: Vector, finish: seq<bool>, work: Vector,
                           result: seq<int>, i: int, idle: nat, spent: nat)
    requires |need| <= |allocation|
  {
    |finish| == |need| && (|need| > 0 ==> 0 <= i < |need|) &&
    (forall t :: 0 <= t < |result| ==> 0 <= result[t] < |need|) &&
    ReplayOf(need, allocation, available, result) == Completed(work, FinishedSet(finish)) &&
    (result == [] ==> work == available) && (result != [] ==> SomeNeedFits(need, available)) &&
    spent <= |result| * |need| + idle &&
    forall j {:trigger Swept(j, i, idle, |need|)} :: 0 <= j < |need| && Swept(j, i, idle, |need|) ==> finish[j] || !AtMost(need[j], work)
  }

  /**
   * One step of the sweep: row `i` is finished when it is unfinished and its
   * need fits the work, and the sweep moves on to the next row.
   */
  method SweepStep(need: Matrix, allocation: Matrix, available: Vector, finish: seq<bool>, work: Vector,
                   result: seq<int>, i: int, ghost idle: nat, ghost spent: nat)
    returns (finish': seq<bool>, work': Vector, result': seq<int>, i': int, ghost idle': nat)
    requires |need| <= |allocation| && Sweeping(need, allocation, available, finish, work, result, i, idle, spent)
    requires exists j :: 0 <= j < |finish| && !finish[j]
    ensures Sweeping(need, allocation, available, finish', work', result', i', idle', spent + 1)
    ensures result' == result || (result' == result + [i] && !finish[i] && AtMost(need[i], work))
  {
    i' := if i + 1 >= |need| then 0 else i + 1;
    if !finish[i] && AtMost(need[i], work) {
      ExtendReplay(need, allocation, available, result, work, FinishedSet(finish), i);
      MarkFinished(finish, i);
      assert idle < |need| by {
        if idle >= |need| {
          assert Swept(i, i, idle, |need|);
        }
      }
      assert (|result| + 1) * |need| == |result| * |need| + |need|;
      work' := Sum(work, allocation[i]);
      finish' := finish[i := true];
      result' := result + [i];
      idle' := 0;
      assert forall j {:trigger Swept(j, i', idle', |need|)} :: !Swept(j, i', idle', |need|);
    } else {
      SweptStep(i, i', idle, |need|);
      finish', work', result', idle' := finish, work, result, idle + 1;
      forall j | 0 <= j < |need| && Swept(j, i', idle', |need|)
        ensures finish'[j] || !AtMost(need[j], work')
      {
        if j != i {
          assert Swept(j, i, idle, |need|);
        }
      }
    }
  }

  /**
   * When the fuel runs out with the loop guard still true, the sweep is
   * stuck unfinished; with at least `n * n + n` steps it is spinning.
   */
  lemma SweepSpent(need: Matrix, allocation: Matrix, available: Vector, finish: seq<bool>, work: Vector,
                   result: seq<int>, i: int, idle: nat, fuel: nat)
    requires |need| <= |allocation| && Sweeping(need, allocation, available, finish, work, result, i, idle, fuel)
    requires (exists j :: 0 <= j < |finish| && !finish[j]) && SomeNeedFits(need, work)
    ensures var replay := ReplayOf(need, allocation, available, result);
            replay.Completed? && replay.finished != Processes(|need|) && SomeNeedFits(need, replay.work)
    ensures var replay := ReplayOf(need, allocation, available, result);
            fuel >= |need| * |need| + |need| ==> replay.Completed? && Spinning(need, replay.work, replay.finished)
  {
    AllFinished(finish);
    FinishedBound(finish);
    OrderLength(need, allocation, available, result);
    SweptAll(need, finish, work, i, idle, fuel, |result|);
  }

  /** Moving from row `i` to the next row widens the window of looked-at rows by `i`. */
  lemma SweptStep(i: int, next: int, idle: nat, n: nat)
    requires 0 <= i < n && next == (if i + 1 >= n then 0 else i + 1)
    ensures forall j :: 0 <= j < n && Swept(j, next, idle + 1, n) ==> j == i || Swept(j, i, idle, n)
  {
  }

  /** A completed replay has one entry per finished process. */
  lemma OrderLength(need: Matrix, allocation: Matrix, available: Vector, sequence: seq<int>)
    requires |need| <= |allocation| && ReplayOf(need, allocation, available, sequence).Completed?
    ensures |sequence| == |ReplayOf(need, allocation, available, sequence).finished|
  {
    ReplayNamesEachOnce(need, allocation, available, sequence);
    NamesCount(need, sequence, |sequence|);
  }

  /** At most every process is finished. */
  lemma FinishedBound(finish: seq<bool>)
    ensures |FinishedSet(finish)| <= |finish|
  {
    var all := Processes(|finish|);
    assert FinishedSet(finish) <= all;
    assert all == FinishedSet(finish) + (all - FinishedSet(finish));
  }

  /**
   * With `fuel` of at least `n * n + n` steps spent and at most `n`
   * processes finished, the sweep went a whole round without finishing one.
   */
  lemma SweptAll(need: Matrix, finish: seq<bool>, work: Vector, i: int, idle: nat, fuel: nat, done: nat)
    requires |finish| == |need| && done <= |need| && fuel <= done * |need| + idle
    requires forall j {:trigger Swept(j, i, idle, |need|)} :: 0 <= j < |need| && Swept(j, i, idle, |need|) ==> finish[j] || !AtMost(need[j], work)
    ensures fuel >= |need| * |need| + |need| ==> forall j :: 0 <= j < |need| && !finish[j] ==> !AtMost(need[j], work)
  {
    if fuel >= |need| * |need| + |need| {
      assert done * |need| <= |need| * |need|;
      forall j | 0 <= j < |need| && !finish[j]
        ensures !AtMost(need[j], work)
      {
        assert Swept(j, i, idle, |need|);
      }
    }
  }
}
