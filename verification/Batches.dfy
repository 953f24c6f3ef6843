/** Splitting work into tasks and tasks into ranges: any scheduler that covers every task once makes the batches
    cover every item once. */
module Batches {
  import opened Basics
  import opened Arithmetic

  /** A half-open range of task or item indices. */
  datatype Range = Range(begin: nat, end: nat)

  predicate InRange(r: Range, i: int) {
    r.begin <= i < r.end
  }

  // Non-empty ranges within [0, count) that cover every index exactly once, in any order.
  ghost predicate IsPartition(ranges: seq<Range>, count: nat) {
    && (forall k :: 0 <= k < |ranges| ==> ranges[k].begin < ranges[k].end <= count)
    && (forall i :: 0 <= i < count ==> IsCovered(ranges, i))
    && (forall i, j, k :: 0 <= j < |ranges| && 0 <= k < |ranges| && InRange(ranges[j], i) && InRange(ranges[k], i) ==>
          j == k)
  }

  ghost predicate IsCovered(ranges: seq<Range>, i: int) {
    exists k :: 0 <= k < |ranges| && InRange(ranges[k], i)
  }

  // One range per index.
  function Singletons(count: nat): (ranges: seq<Range>)
    ensures |ranges| == count
  {
    seq(count, i requires 0 <= i < count => Range(i, i + 1))
  }

  lemma SingletonsPartition(count: nat)
    ensures IsPartition(Singletons(count), count)
  {
    var ranges := Singletons(count);
    forall i | 0 <= i < count ensures IsCovered(ranges, i) {
      assert InRange(ranges[i], i);
    }
  }

  // --- parallel_batches -------------------------------------------------------------------------

  function TaskCount(count: nat, minBatchSize: nat): nat
    requires minBatchSize > 0
  {
    Max(1, count / minBatchSize)
  }

  // kleidicv_thread_batch_callback: the last task takes what remains.
  function BatchOf(tasks: Range, count: nat, minBatchSize: nat): Range
    requires minBatchSize > 0
  {
    Range(tasks.begin * minBatchSize,
          if tasks.end == TaskCount(count, minBatchSize) then count else tasks.end * minBatchSize)
  }

  function BatchesOf(schedule: seq<Range>, count: nat, minBatchSize: nat): (batches: seq<Range>)
    requires minBatchSize > 0
    ensures |batches| == |schedule|
  {
    seq(|schedule|, k requires 0 <= k < |schedule| => BatchOf(schedule[k], count, minBatchSize))
  }

  // The task that an item belongs to.
  function TaskOf(item: nat, count: nat, minBatchSize: nat): int
    requires minBatchSize > 0
  {
    Min(item / minBatchSize, TaskCount(count, minBatchSize) - 1)
  }

  lemma QuotientBounds(n: nat, d: nat, a: nat)
    requires d > 0
    ensures a * d <= n <==> a <= n / d
  {
    var q := n / d;
    assert n == q * d + n % d;
    if a <= q {
      MulMonotone(a, q, d);
    } else {
      RowsGrow(q, a, d);
    }
  }

  // A batch contains exactly the items of its tasks: a task has minBatchSize items, and the last one the rest as well.
  lemma ItemInBatch(tasks: Range, count: nat, minBatchSize: nat, item: nat)
    requires minBatchSize > 0 && tasks.begin < tasks.end <= TaskCount(count, minBatchSize) && item < count
    ensures InRange(BatchOf(tasks, count, minBatchSize), item) <==> InRange(tasks, TaskOf(item, count, minBatchSize))
    ensures TaskCount(count, minBatchSize) == if count < minBatchSize then 1 else count / minBatchSize
    ensures var batch := BatchOf(tasks, count, minBatchSize);
            batch.begin <= item < batch.end <==>
              && tasks.begin <= item / minBatchSize
              && (item / minBatchSize < tasks.end || tasks.end == TaskCount(count, minBatchSize))
  {
    QuotientBounds(count, minBatchSize, 1);
    QuotientBounds(item, minBatchSize, tasks.begin);
    QuotientBounds(item, minBatchSize, tasks.end);
  }

  lemma BatchIsWithin(tasks: Range, count: nat, minBatchSize: nat)
    requires minBatchSize > 0 && tasks.begin < tasks.end <= TaskCount(count, minBatchSize) && count > 0
    ensures var batch := BatchOf(tasks, count, minBatchSize); batch.begin < batch.end <= count
  {
    var taskCount := TaskCount(count, minBatchSize);
    RowsGrow(tasks.begin, tasks.end, minBatchSize);
    QuotientBounds(count, minBatchSize, tasks.end);
    if count < minBatchSize {
      assert count / minBatchSize == 0 by { QuotientBounds(count, minBatchSize, 1); }
    }
  }

  // For every way to split the tasks into ranges, the batches partition the items.
  lemma BatchesPartition(schedule: seq<Range>, count: nat, minBatchSize: nat)
    requires minBatchSize > 0 && count > 0 && IsPartition(schedule, TaskCount(count, minBatchSize))
    ensures IsPartition(BatchesOf(schedule, count, minBatchSize), count)
  {
    hide BatchOf, TaskOf, TaskCount;
    var batches := BatchesOf(schedule, count, minBatchSize);
    forall k | 0 <= k < |batches| ensures batches[k].begin < batches[k].end <= count {
      BatchIsWithin(schedule[k], count, minBatchSize);
    }
    forall i, k | 0 <= i < count && 0 <= k < |batches|
      ensures InRange(batches[k], i) <==> InRange(schedule[k], TaskOf(i, count, minBatchSize))
    {
      ItemInBatch(schedule[k], count, minBatchSize, i);
    }
    forall i | 0 <= i < count ensures IsCovered(batches, i) {
      TaskExists(i, count, minBatchSize);
      assert IsCovered(schedule, TaskOf(i, count, minBatchSize));
      var k :| 0 <= k < |schedule| && InRange(schedule[k], TaskOf(i, count, minBatchSize));
      assert InRange(batches[k], i);
    }
    forall i, j, k | 0 <= j < |batches| && 0 <= k < |batches| && InRange(batches[j], i) && InRange(batches[k], i)
      ensures j == k
    {
      assert 0 <= i < count;
      assert InRange(schedule[j], TaskOf(i, count, minBatchSize))
          && InRange(schedule[k], TaskOf(i, count, minBatchSize));
    }
  }

  lemma TaskExists(item: nat, count: nat, minBatchSize: nat)
    requires minBatchSize > 0
    ensures 0 <= TaskOf(item, count, minBatchSize) < TaskCount(count, minBatchSize)
  {
  }

  // Ranges that partition the items, or are empty if there are none.
  ghost predicate IsSplit(batches: seq<Range>, count: nat) {
    && (forall k :: 0 <= k < |batches| ==> batches[k].begin <= batches[k].end <= count)
    && (count > 0 ==> IsPartition(batches, count))
  }

  // Without items there still is a task, and its batch is empty.
  lemma BatchesSplit(schedule: seq<Range>, count: nat, minBatchSize: nat)
    requires minBatchSize > 0 && IsPartition(schedule, TaskCount(count, minBatchSize))
    ensures var batches := BatchesOf(schedule, count, minBatchSize);
            && IsSplit(batches, count) && |batches| > 0
            && (count == 0 ==> forall k :: 0 <= k < |batches| ==> batches[k] == Range(0, 0))
  {
    assert IsCovered(schedule, 0);
    if count > 0 {
      BatchesPartition(schedule, count, minBatchSize);
    } else {
      assert 0 * minBatchSize == 0;
    }
  }

  // Batches other than the last are whole multiples of the minimum size, and no batch is shorter than it.
  lemma BatchSizes(tasks: Range, count: nat, minBatchSize: nat)
    requires minBatchSize > 0 && tasks.begin < tasks.end <= TaskCount(count, minBatchSize) && minBatchSize <= count
    ensures var batch := BatchOf(tasks, count, minBatchSize);
            && batch.end - batch.begin >= minBatchSize
            && (tasks.end < TaskCount(count, minBatchSize) ==>
                  batch.end - batch.begin == (tasks.end - tasks.begin) * minBatchSize)
            && (tasks.end == TaskCount(count, minBatchSize) ==> batch.end == count)
  {
    RowsGrow(tasks.begin, tasks.end, minBatchSize);
    QuotientBounds(count, minBatchSize, tasks.end);
    QuotientBounds(count, minBatchSize, 1);
    assert (tasks.end - tasks.begin) * minBatchSize == tasks.end * minBatchSize - tasks.begin * minBatchSize;
  }

  // --- The example scheduler --------------------------------------------------------------------

  // 64-bit unsigned multiplication wraps around.
  function WrappingMul(a: nat, b: nat): nat {
    (a * b) % TWO_TO_THE_64
  }

  // The range of one worker.
  function WorkerRange(index: nat, workers: nat, tasks: nat): Range
    requires index < workers
  {
    assert workers > 0;
    Range(WrappingMul(index, tasks) / workers,
          if index + 1 == workers then tasks else WrappingMul(index + 1, tasks) / workers)
  }

  function WorkerRanges(workers: nat, tasks: nat): (ranges: seq<Range>)
    ensures |ranges| == workers
  {
    seq(workers, index requires 0 <= index < workers => WorkerRange(index, workers, tasks))
  }

  // The cut points index * tasks / workers without overflow.
  function Cut(index: nat, workers: nat, tasks: nat): nat
    requires workers > 0
  {
    (index * tasks) / workers
  }

  lemma CutsGrow(index: nat, workers: nat, tasks: nat)
    requires 0 < workers <= tasks && index < workers
    ensures Cut(index, workers, tasks) < Cut(index + 1, workers, tasks)
    ensures Cut(workers, workers, tasks) == tasks && Cut(0, workers, tasks) == 0
  {
    var q := Cut(index, workers, tasks);
    QuotientBounds(index * tasks, workers, q);
    assert (index + 1) * tasks == index * tasks + tasks;
    assert (q + 1) * workers == q * workers + workers;
    QuotientBounds((index + 1) * tasks, workers, q + 1);
    assert 0 * tasks == 0;
    DivModUnique(tasks, 0, workers);
    assert workers * tasks == tasks * workers;
  }

  lemma {:induction false} CutsAscend(i: nat, j: nat, workers: nat, tasks: nat)
    requires 0 < workers <= tasks && i <= j <= workers
    ensures Cut(i, workers, tasks) <= Cut(j, workers, tasks)
  {
    if i < j {
      CutsAscend(i, j - 1, workers, tasks);
      CutsGrow(j - 1, workers, tasks);
    }
  }

  lemma NoWrap(index: nat, workers: nat, tasks: nat)
    requires index < workers && (workers - 1) * tasks < TWO_TO_THE_64
    ensures WrappingMul(index, tasks) == index * tasks
  {
    MulMonotone(index, workers - 1, tasks);
  }

  lemma RangesAreCuts(workers: nat, tasks: nat, index: nat)
    requires 0 < workers <= tasks && (workers - 1) * tasks < TWO_TO_THE_64 && index < workers
    ensures WorkerRange(index, workers, tasks) == Range(Cut(index, workers, tasks), Cut(index + 1, workers, tasks))
  {
    NoWrap(index, workers, tasks);
    if index + 1 < workers {
      NoWrap(index + 1, workers, tasks);
    } else {
      CutsGrow(index, workers, tasks);
    }
  }

  // Finds the worker whose range contains a task.
  lemma {:induction false} WorkerOf(workers: nat, tasks: nat, i: nat, upTo: nat) returns (index: nat)
    requires 0 < workers <= tasks && upTo <= workers && i < Cut(upTo, workers, tasks)
    ensures index < upTo && Cut(index, workers, tasks) <= i < Cut(index + 1, workers, tasks)
  {
    CutsGrow(0, workers, tasks);
    if Cut(upTo - 1, workers, tasks) <= i {
      index := upTo - 1;
    } else {
      index := WorkerOf(workers, tasks, i, upTo - 1);
    }
  }

  // The even split is a partition exactly when its largest product fits in 64 bits.
  lemma EvenSplit(workers: nat, tasks: nat)
    requires 0 < workers <= tasks < 0x1_0000_0000_0000_0000
    ensures IsPartition(WorkerRanges(workers, tasks), tasks)
       <==> (workers - 1) * tasks < 0x1_0000_0000_0000_0000
  {
    if (workers - 1) * tasks < TWO_TO_THE_64 {
      SplitIsPartition(workers, tasks);
    } else {
      var index := OverflowingSplit(workers, tasks);
    }
  }

  // While that product fits, no two ranges differ by more than one task.
  lemma EvenLengths(workers: nat, tasks: nat, index: nat, other: nat)
    requires 0 < workers <= tasks && (workers - 1) * tasks < 0x1_0000_0000_0000_0000
    requires index < workers && other < workers
    ensures var a, b := WorkerRange(index, workers, tasks), WorkerRange(other, workers, tasks);
            a.begin < a.end && a.end - a.begin <= b.end - b.begin + 1
  {
    RangesAreCuts(workers, tasks, index);
    RangesAreCuts(workers, tasks, other);
    CutsGrow(index, workers, tasks);
    CutsGrow(other, workers, tasks);
    CutLength(workers, tasks, index);
    CutLength(workers, tasks, other);
    hide Cut, WorkerRange;
    AreClose(Cut(index + 1, workers, tasks) - Cut(index, workers, tasks),
             Cut(other + 1, workers, tasks) - Cut(other, workers, tasks), workers, tasks);
  }

  lemma AreClose(a: nat, b: nat, workers: nat, tasks: nat)
    requires a * workers < tasks + workers && tasks - workers < b * workers
    ensures a <= b + 1
  {
    if a >= b + 2 {
      MulMonotone(b + 2, a, workers);
    }
  }

  // The length of a range is the quotient, rounded down or up.
  lemma CutLength(workers: nat, tasks: nat, index: nat)
    requires 0 < workers <= tasks && index < workers
    ensures var length := Cut(index + 1, workers, tasks) - Cut(index, workers, tasks);
            tasks - workers < length * workers < tasks + workers
  {
    var at, next := index * tasks, (index + 1) * tasks;
    var q, q' := at / workers, next / workers;
    assert next == at + tasks;
    assert at == q * workers + at % workers && next == q' * workers + next % workers;
    assert (q' - q) * workers == q' * workers - q * workers;
  }

  lemma SplitIsPartition(workers: nat, tasks: nat)
    requires 0 < workers <= tasks && (workers - 1) * tasks < TWO_TO_THE_64
    ensures IsPartition(WorkerRanges(workers, tasks), tasks)
  {
    hide Cut, WorkerRange;
    var ranges := WorkerRanges(workers, tasks);
    forall k | 0 <= k < workers ensures ranges[k].begin < ranges[k].end <= tasks {
      RangesAreCuts(workers, tasks, k);
      CutsGrow(k, workers, tasks);
      CutsAscend(k + 1, workers, workers, tasks);
    }
    forall i | 0 <= i < tasks ensures IsCovered(ranges, i) {
      CutsGrow(0, workers, tasks);
      var k := WorkerOf(workers, tasks, i, workers);
      RangesAreCuts(workers, tasks, k);
      assert InRange(ranges[k], i);
    }
    forall i, j, k | 0 <= j < workers && 0 <= k < workers && InRange(ranges[j], i) && InRange(ranges[k], i)
      ensures j == k
    {
      RangesAreCuts(workers, tasks, j);
      RangesAreCuts(workers, tasks, k);
      if j < k {
        CutsAscend(j + 1, k, workers, tasks);
      } else if k < j {
        CutsAscend(k + 1, j, workers, tasks);
      }
    }
  }

  lemma {:induction false} FirstOverflow(tasks: nat, n: nat) returns (i: nat)
    requires tasks < TWO_TO_THE_64 <= n * tasks
    ensures 1 < i <= n && (i - 1) * tasks < TWO_TO_THE_64 <= i * tasks
  {
    assert n != 0 && n != 1;
    if (n - 1) * tasks < TWO_TO_THE_64 {
      i := n;
    } else {
      i := FirstOverflow(tasks, n - 1);
    }
  }

  // Where the product first wraps, a range ends no later than it begins.
  lemma OverflowingSplit(workers: nat, tasks: nat) returns (index: nat)
    requires 0 < workers <= tasks < 0x1_0000_0000_0000_0000 <= (workers - 1) * tasks
    ensures index < workers && WorkerRange(index, workers, tasks).end <= WorkerRange(index, workers, tasks).begin
    ensures !IsPartition(WorkerRanges(workers, tasks), tasks)
  {
    var i := FirstOverflow(tasks, workers - 1);
    index := i - 1;
    var before, at := (i - 1) * tasks, i * tasks;
    assert at == before + tasks;
    assert WrappingMul(i - 1, tasks) == before;
    assert WrappingMul(i, tasks) == at - TWO_TO_THE_64;
    RowsGrow(0, i - 1, tasks);
    DivMonotone(at - TWO_TO_THE_64, before, workers);
    assert WorkerRanges(workers, tasks)[i - 1] == WorkerRange(i - 1, workers, tasks);
  }

  // For three workers and 2^63 tasks, the range of the second worker ends at 0.
  lemma ThreeWorkers()
    ensures WorkerRange(1, 3, 0x8000_0000_0000_0000) == Range(0x8000_0000_0000_0000 / 3, 0)
    ensures !IsPartition(WorkerRanges(3, 0x8000_0000_0000_0000), 0x8000_0000_0000_0000)
  {
    var index := OverflowingSplit(3, 0x8000_0000_0000_0000);
  }

  lemma DivMonotone(a: nat, b: nat, d: nat)
    requires a <= b && d > 0
    ensures a / d <= b / d
  {
    QuotientBounds(a, d, a / d);
    QuotientBounds(b, d, a / d);
  }

  // examples/threading: one call per worker; the first failure in worker order is returned.
  method ParallelExample(hasCallback: bool, callback: Range -> Error, threadCount: nat, taskCount: nat)
    returns (error: Error, ghost calls: seq<Range>)
    ensures !(hasCallback && threadCount != 0) ==> error == NullPointer
    ensures !(hasCallback && threadCount != 0) ==> calls == []
    ensures hasCallback && threadCount != 0 ==>
              calls == WorkerRanges(if threadCount < taskCount then threadCount else taskCount, taskCount)
    ensures hasCallback && threadCount != 0 ==>
              || (error == Ok && forall k :: 0 <= k < |calls| ==> callback(calls[k]) == Ok)
              || (error != Ok && exists k :: 0 <= k < |calls| && callback(calls[k]) == error
                                             && forall j :: 0 <= j < k ==> callback(calls[j]) == Ok)
  {
    calls := [];
    if !hasCallback || threadCount == 0 {
      return NullPointer, [];
    }
    var workerCount := Min(threadCount, taskCount);
    var results := new Error[workerCount](_ => Ok);
    for index := 0 to workerCount
      invariant calls == WorkerRanges(workerCount, taskCount)[..index]
      invariant forall k :: 0 <= k < index ==> results[k] == callback(calls[k])
    {
      var range := WorkerRange(index, workerCount, taskCount);
      results[index] := callback(range);
      calls := calls + [range];
    }
    for index := 0 to workerCount
      invariant forall k :: 0 <= k < index ==> results[k] == Ok
    {
      if results[index] != Ok {
        return results[index], calls;
      }
    }
    return Ok, calls;
  }

  // --- The OpenCV scheduler ---------------------------------------------------------------------

  const INT_MAX: nat := 0x7FFF_FFFF

  // schedule is what cv::parallel_for_ chooses; counts that it cannot take are a single call. Failures overwrite each
  // other, successes store nothing. calls are the ranges for which the callback runs, in the order of their results;
  // they are known to the proof only.
  method ParallelHal(callback: Range -> Error, taskCount: nat, schedule: seq<Range>)
    returns (error: Error, ghost calls: seq<Range>)
    requires IsPartition(schedule, taskCount)
    ensures IsPartition(calls, taskCount)
    ensures calls == if taskCount == 0 then [] else if taskCount > 0x7FFF_FFFF then [Range(0, taskCount)] else schedule
    ensures taskCount == 0 ==> error == Ok
    ensures taskCount > 0x7FFF_FFFF ==> error == callback(Range(0, taskCount))
    ensures 0 < taskCount <= 0x7FFF_FFFF ==> (error == Ok <==> forall r :: r in schedule ==> callback(r) == Ok)
    ensures 0 < taskCount <= 0x7FFF_FFFF && error != Ok ==> exists r :: r in schedule && callback(r) == error
  {
    calls := [];
    if taskCount == 0 {
      return Ok, [];
    }
    if taskCount > INT_MAX {
      var all := Range(0, taskCount);
      calls := [all];
      error := callback(all);
      assert IsPartition(calls, taskCount) by {
        forall i | 0 <= i < taskCount ensures IsCovered(calls, i) { assert InRange(calls[0], i); }
      }
      return;
    }
    var sharedResult := Ok;
    for k := 0 to |schedule|
      invariant sharedResult == Ok <==> forall r :: r in schedule[..k] ==> callback(r) == Ok
      invariant sharedResult != Ok ==> exists r :: r in schedule[..k] && callback(r) == sharedResult
    {
      assert schedule[..k + 1] == schedule[..k] + [schedule[k]];
      var result := callback(schedule[k]);
      if result != Ok {
        sharedResult := result;
      }
    }
    assert schedule[..|schedule|] == schedule;
    return sharedResult, schedule;
  }
}
