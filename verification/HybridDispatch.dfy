/** The SME thread limiter and the hybrid dispatch as one transition system: every batch is a task that tries to get
    a slot of the current CPU's domain, runs the SME or the CPU callback row by row, gives the slot back, and reports
    the result of the callback to the scheduler. Steps of different tasks interleave in every possible way. */
module HybridDispatch {
  import opened Basics
  import opened Batches

  // A domain index that denotes no domain.
  const NO_DOMAIN: nat := SIZE_MAX

  // The number of values of the 32-bit slot counters.
  const TWO_TO_THE_32: nat := 0x1_0000_0000

  /** What the limiter knows about the machine. */
  datatype Topology = Topology(cpuToDomain: seq<nat>, cpuAllowed: seq<bool>, slotCounts: seq<nat>) {

    function DomainForCpu(cpu: nat): nat {
      if cpu < |cpuToDomain| then cpuToDomain[cpu] else NO_DOMAIN
    }

    predicate IsCpuAllowed(cpu: nat) {
      cpu < |cpuAllowed| && cpuAllowed[cpu]
    }

    predicate Valid() {
      forall d :: 0 <= d < |slotCounts| ==> slotCounts[d] < TWO_TO_THE_32
    }
  }

  /** One call of a threaded operation: the batches, and for each callback what it computes for a row and what it
      returns for a batch. A callback that fails may leave rows of its batch out. */
  datatype Work<!V> = Work(batches: seq<Range>, rows: nat, cpu: nat -> V, sme: nat -> V,
                           cpuResult: Range -> Error, smeResult: Range -> Error)
  {
    function Row(onSme: bool, row: nat): V {
      if onSme then sme(row) else cpu(row)
    }

    function Result(onSme: bool, batch: Range): Error {
      if onSme then smeResult(batch) else cpuResult(batch)
    }
  }

  /** Where a task stands. */
  datatype Pc =
    | Idle
    | Attempting(domain: nat, slots: nat)   // in try_acquire: the counter was last seen as slots
    | RunningSme(domain: nat, next: nat)    // owns a slot; rows before next are done
    | RunningCpu(next: nat)
    | Reporting(onSme: bool, next: nat, error: Error)   // the callback has returned; its slot is free again
    | Done(onSme: bool, next: nat, error: Error)

  /** The slot counters, the tasks, for every row what was written last and how often, and the result that the scheduler
      has collected. */
  datatype State<V> = State(available: seq<nat>, pcs: seq<Pc>, output: seq<Option<V>>, writes: seq<nat>, result: Error)

  ghost predicate Init<V>(top: Topology, work: Work<V>, s: State<V>) {
    && s.available == top.slotCounts
    && |s.pcs| == |work.batches| && (forall t :: 0 <= t < |s.pcs| ==> s.pcs[t] == Idle)
    && |s.output| == |s.writes| == work.rows
    && (forall r :: 0 <= r < work.rows ==> s.output[r] == None && s.writes[r] == 0)
    && s.result == Ok
  }

  /** A step of task t. */
  datatype Step =
    | Start(cpu: int)        // sched_getcpu, the policy checks, and the first load of the counter
    | AcquireSlot            // the weak compare-and-swap succeeds
    | RetryAcquire           // it fails, for a reason or spuriously, and reports the current value
    | Refuse                 // the counter was seen as zero
    | ProcessRow             // the running callback completes one more row
    | Finish                 // the callback returns; SlotGuard's destructor gives the slot back
    | Report                 // the scheduler stores the result of the callback, unless it is success

  // try_to_run_on_cpu up to the first load.
  function StartPc(top: Topology, available: seq<nat>, cpu: int, begin: nat): Pc {
    if cpu < 0 || !top.IsCpuAllowed(cpu) then RunningCpu(begin)
    else
      var domain := top.DomainForCpu(cpu);
      if domain >= |available| then RunningCpu(begin) else Attempting(domain, available[domain])
  }

  // A callback returns when its rows are done, or with an error.
  predicate CanReturn<V>(work: Work<V>, t: nat, onSme: bool, next: nat)
    requires t < |work.batches|
  {
    next >= work.batches[t].end || work.Result(onSme, work.batches[t]) != Ok
  }

  ghost predicate CanStep<V>(work: Work<V>, s: State<V>, t: nat, step: Step) {
    && t < |s.pcs| == |work.batches| && |s.output| == |s.writes| == work.rows
    && work.batches[t].end <= work.rows
    && match (step, s.pcs[t])
       case (Start(_), Idle) => true
       case (AcquireSlot, Attempting(d, slots)) => slots > 0 && d < |s.available| && s.available[d] == slots
       case (RetryAcquire, Attempting(d, slots)) => slots > 0 && d < |s.available|
       case (Refuse, Attempting(_, slots)) => slots == 0
       case (ProcessRow, RunningSme(_, next)) => next < work.batches[t].end
       case (ProcessRow, RunningCpu(next)) => next < work.batches[t].end
       case (Finish, RunningSme(d, next)) => CanReturn(work, t, true, next) && d < |s.available|
       case (Finish, RunningCpu(next)) => CanReturn(work, t, false, next)
       case (Report, Reporting(_, _, _)) => true
       case _ => false
  }

  function Take<V>(top: Topology, work: Work<V>, s: State<V>, t: nat, step: Step): State<V>
    requires CanStep(work, s, t, step)
  {
    var pc, begin := s.pcs[t], work.batches[t].begin;
    match step
    case Start(cpu) => s.(pcs := s.pcs[t := StartPc(top, s.available, cpu, begin)])
    case AcquireSlot =>
      s.(pcs := s.pcs[t := RunningSme(pc.domain, begin)], available := s.available[pc.domain := pc.slots - 1])
    case RetryAcquire => s.(pcs := s.pcs[t := Attempting(pc.domain, s.available[pc.domain])])
    case Refuse => s.(pcs := s.pcs[t := RunningCpu(begin)])
    case ProcessRow =>
      var row := pc.next;
      s.(pcs := s.pcs[t := if pc.RunningSme? then RunningSme(pc.domain, row + 1) else RunningCpu(row + 1)],
         output := s.output[row := Some(work.Row(pc.RunningSme?, row))],
         writes := s.writes[row := s.writes[row] + 1])
    case Finish =>
      var returned := Reporting(pc.RunningSme?, pc.next, work.Result(pc.RunningSme?, work.batches[t]));
      if pc.RunningCpu? then s.(pcs := s.pcs[t := returned])
      else s.(pcs := s.pcs[t := returned],
              available := s.available[pc.domain := (s.available[pc.domain] + 1) % TWO_TO_THE_32])
    case Report =>
      s.(pcs := s.pcs[t := Done(pc.onSme, pc.next, pc.error)], result := if pc.error != Ok then pc.error else s.result)
  }

  ghost predicate Next<V>(top: Topology, work: Work<V>, s: State<V>, s': State<V>) {
    exists t: nat, step: Step :: CanStep(work, s, t, step) && s' == Take(top, work, s, t, step)
  }

  // A run from the initial state, in any interleaving.
  ghost predicate IsRun<V>(top: Topology, work: Work<V>, run: seq<State<V>>) {
    && run != [] && Init(top, work, run[0])
    && forall i :: 0 < i < |run| ==> Next(top, work, run[i - 1], run[i])
  }

  // --- The slot invariant -----------------------------------------------------------------------

  // The number of SME callbacks running in a domain.
  function Running(pcs: seq<Pc>, domain: nat): nat {
    if pcs == [] then 0
    else Running(pcs[..|pcs| - 1], domain) + Weight(pcs[|pcs| - 1], domain)
  }

  function Weight(pc: Pc, domain: nat): nat {
    if pc.RunningSme? && pc.domain == domain then 1 else 0
  }

  lemma {:induction false} RunningAfter(pcs: seq<Pc>, t: nat, pc: Pc, domain: nat)
    requires t < |pcs|
    ensures Running(pcs[t := pc], domain) == Running(pcs, domain) - Weight(pcs[t], domain) + Weight(pc, domain)
  {
    var front := pcs[..|pcs| - 1];
    if t == |pcs| - 1 {
      assert pcs[t := pc][..|pcs| - 1] == front;
    } else {
      RunningAfter(front, t, pc, domain);
      assert pcs[t := pc][..|pcs| - 1] == front[t := pc];
    }
  }

  lemma {:induction false} RunningIsPositive(pcs: seq<Pc>, t: nat, domain: nat)
    requires t < |pcs|
    ensures Running(pcs, domain) >= Weight(pcs[t], domain)
  {
    if t < |pcs| - 1 {
      RunningIsPositive(pcs[..|pcs| - 1], t, domain);
    }
  }

  lemma {:induction false} NobodyRuns(pcs: seq<Pc>, domain: nat)
    requires forall t :: 0 <= t < |pcs| ==> Weight(pcs[t], domain) == 0
    ensures Running(pcs, domain) == 0
  {
    if pcs != [] { NobodyRuns(pcs[..|pcs| - 1], domain); }
  }

  lemma {:induction false} RunningIsCardinality(pcs: seq<Pc>, domain: nat)
    ensures Running(pcs, domain) == |set t | 0 <= t < |pcs| && pcs[t].RunningSme? && pcs[t].domain == domain|
  {
    if pcs != [] {
      var n := |pcs| - 1;
      RunningIsCardinality(pcs[..n], domain);
      var all := set t | 0 <= t < |pcs| && pcs[t].RunningSme? && pcs[t].domain == domain;
      var front := set t | 0 <= t < n && pcs[..n][t].RunningSme? && pcs[..n][t].domain == domain;
      assert all == front + if pcs[n].RunningSme? && pcs[n].domain == domain then {n} else {};
    }
  }

  // Available slots plus running SME callbacks make the slot count of every domain; tasks only deal with domains
  // that exist and belong to an allowed CPU.
  ghost predicate SlotsBalance<V>(top: Topology, s: State<V>) {
    && |s.available| == |top.slotCounts|
    && (forall d :: 0 <= d < |s.available| ==> s.available[d] + Running(s.pcs, d) == top.slotCounts[d])
    && (forall t :: 0 <= t < |s.pcs| && (s.pcs[t].Attempting? || s.pcs[t].RunningSme?) ==>
          s.pcs[t].domain < |s.available| && IsDomainOfAllowedCpu(top, s.pcs[t].domain))
  }

  ghost predicate IsDomainOfAllowedCpu(top: Topology, domain: nat) {
    exists cpu: nat :: top.IsCpuAllowed(cpu) && top.DomainForCpu(cpu) == domain
  }

  lemma StartedDomain(top: Topology, available: seq<nat>, cpu: int, begin: nat)
    ensures var pc := StartPc(top, available, cpu, begin);
            && Weight(pc, 0) == 0 && (pc.RunningCpu? || pc.Attempting?)
            && (pc.Attempting? ==> pc.domain < |available| && IsDomainOfAllowedCpu(top, pc.domain))
  {
  }

  lemma StepKeepsBalance<V>(top: Topology, work: Work<V>, s: State<V>, t: nat, step: Step)
    requires top.Valid() && SlotsBalance(top, s) && CanStep(work, s, t, step)
    ensures SlotsBalance(top, Take(top, work, s, t, step))
  {
    hide IsDomainOfAllowedCpu, StartPc;
    var s', pc := Take(top, work, s, t, step), s.pcs[t];
    if step.Start? {
      StartedDomain(top, s.available, step.cpu, work.batches[t].begin);
    }
    RunningIsPositive(s.pcs, t, if pc.RunningSme? then pc.domain else 0);
    forall d | 0 <= d < |s'.available| ensures s'.available[d] + Running(s'.pcs, d) == top.slotCounts[d] {
      RunningAfter(s.pcs, t, s'.pcs[t], d);
      assert s.available[d] + Running(s.pcs, d) == top.slotCounts[d];
    }
  }

  // --- The row invariant ------------------------------------------------------------------------

  predicate HasStarted(pc: Pc) {
    !pc.Idle? && !pc.Attempting?
  }

  // Whether a task has already processed a row of its batch.
  predicate HasWritten(pc: Pc, row: int) {
    HasStarted(pc) && row < pc.next
  }

  predicate IsOnSme(pc: Pc) {
    pc.RunningSme? || ((pc.Reporting? || pc.Done?) && pc.onSme)
  }

  ghost predicate RowIsRight<V>(work: Work<V>, s: State<V>, t: nat, row: nat)
    requires t < |s.pcs| && row < |s.output| == |s.writes|
  {
    if HasWritten(s.pcs[t], row)
    then s.writes[row] == 1 && s.output[row] == Some(work.Row(IsOnSme(s.pcs[t]), row))
    else s.writes[row] == 0 && s.output[row] == None
  }

  // Every row has been written at most once, by the callback its batch runs on.
  ghost predicate RowsAreRight<V>(work: Work<V>, s: State<V>) {
    && |s.pcs| == |work.batches| && |s.output| == |s.writes| == work.rows
    && (forall t :: 0 <= t < |s.pcs| ==> StaysInBatch(work, s.pcs[t], work.batches[t]))
    && (forall t, row :: 0 <= t < |s.pcs| && 0 <= row < work.rows && InRange(work.batches[t], row) ==>
          RowIsRight(work, s, t, row))
  }

  // A task stays in its batch, and once its callback has returned, the task knows the result; success means that the
  // rows are done.
  predicate StaysInBatch<V>(work: Work<V>, pc: Pc, batch: Range) {
    && (HasStarted(pc) ==> batch.begin <= pc.next <= batch.end)
    && (pc.Reporting? || pc.Done? ==>
          pc.error == work.Result(pc.onSme, batch) && (pc.error == Ok ==> pc.next == batch.end))
  }

  lemma StepKeepsRows<V>(top: Topology, work: Work<V>, s: State<V>, t: nat, step: Step)
    requires IsSplit(work.batches, work.rows)
    requires RowsAreRight(work, s) && CanStep(work, s, t, step)
    ensures RowsAreRight(work, Take(top, work, s, t, step))
  {
    hide IsCovered, Topology.IsCpuAllowed, Topology.DomainForCpu;
    var s' := Take(top, work, s, t, step);
    forall u, row | 0 <= u < |s'.pcs| && 0 <= row < work.rows && InRange(work.batches[u], row)
      ensures RowIsRight(work, s', u, row)
    {
      assert RowIsRight(work, s, u, row);
      assert InRange(work.batches[t], row) ==> u == t;
    }
  }

  // --- Whole runs -------------------------------------------------------------------------------

  lemma InitIsBalanced<V>(top: Topology, work: Work<V>, s: State<V>)
    requires Init(top, work, s)
    ensures SlotsBalance(top, s)
  {
    forall d | 0 <= d < |s.available| ensures s.available[d] + Running(s.pcs, d) == top.slotCounts[d] {
      NobodyRuns(s.pcs, d);
    }
  }

  // The balance does not depend on what the tasks work on: they may belong to any number of overlapping calls.
  lemma {:induction false} RunKeepsBalance<V>(top: Topology, work: Work<V>, run: seq<State<V>>, i: nat)
    requires top.Valid() && IsRun(top, work, run) && i < |run|
    ensures SlotsBalance(top, run[i])
  {
    if i == 0 {
      InitIsBalanced(top, work, run[0]);
    } else {
      RunKeepsBalance(top, work, run, i - 1);
      assert Next(top, work, run[i - 1], run[i]);
      var t: nat, step: Step :| CanStep(work, run[i - 1], t, step) && run[i] == Take(top, work, run[i - 1], t, step);
      StepKeepsBalance(top, work, run[i - 1], t, step);
    }
  }

  lemma {:induction false} RunKeepsRows<V>(top: Topology, work: Work<V>, run: seq<State<V>>, i: nat)
    requires IsSplit(work.batches, work.rows) && IsRun(top, work, run) && i < |run|
    ensures RowsAreRight(work, run[i])
  {
    if i > 0 {
      RunKeepsRows(top, work, run, i - 1);
      assert Next(top, work, run[i - 1], run[i]);
      var t: nat, step: Step :| CanStep(work, run[i - 1], t, step) && run[i] == Take(top, work, run[i - 1], t, step);
      StepKeepsRows(top, work, run[i - 1], t, step);
    }
  }

  // In every interleaving: no counter exceeds its slot count, never more SME callbacks run in a domain than it has
  // slots, and when none runs all slots are available again.
  lemma LimiterIsSafe<V>(top: Topology, work: Work<V>, run: seq<State<V>>, i: nat, d: nat)
    requires top.Valid() && IsRun(top, work, run)
    requires i < |run| && d < |top.slotCounts|
    ensures |run[i].available| == |top.slotCounts|
    ensures run[i].available[d] + Running(run[i].pcs, d) == top.slotCounts[d]
    ensures run[i].available[d] <= top.slotCounts[d] && Running(run[i].pcs, d) <= top.slotCounts[d]
    ensures (forall t :: 0 <= t < |run[i].pcs| ==> !run[i].pcs[t].RunningSme?) ==>
              run[i].available[d] == top.slotCounts[d]
    ensures var pcs := run[i].pcs;
            && |set t | 0 <= t < |pcs| && pcs[t].RunningSme? && pcs[t].domain == d| <= top.slotCounts[d]
            && forall t :: 0 <= t < |pcs| && pcs[t].RunningSme? ==>
                 exists cpu: nat :: cpu < |top.cpuAllowed| && top.cpuAllowed[cpu]
                   && pcs[t].domain == if cpu < |top.cpuToDomain| then top.cpuToDomain[cpu] else SIZE_MAX
  {
    RunKeepsBalance(top, work, run, i);
    RunningIsCardinality(run[i].pcs, d);
    forall t | 0 <= t < |run[i].pcs| && run[i].pcs[t].RunningSme?
      ensures exists cpu: nat :: cpu < |top.cpuAllowed| && top.cpuAllowed[cpu]
                && run[i].pcs[t].domain == if cpu < |top.cpuToDomain| then top.cpuToDomain[cpu] else SIZE_MAX
    {
      var cpu: nat :| top.IsCpuAllowed(cpu) && top.DomainForCpu(cpu) == run[i].pcs[t].domain;
    }
    if forall t :: 0 <= t < |run[i].pcs| ==> !run[i].pcs[t].RunningSme? {
      NobodyRuns(run[i].pcs, d);
    }
  }

  // The counter never wraps: a successful compare-and-swap finds it positive, and a release below the slot count.
  lemma CounterNeverWraps<V>(top: Topology, work: Work<V>, run: seq<State<V>>, i: nat, t: nat, step: Step)
    requires top.Valid() && IsRun(top, work, run)
    requires i < |run| && CanStep(work, run[i], t, step)
    ensures step == AcquireSlot ==>
              var d := run[i].pcs[t].domain;
              && run[i].available[d] > 0
              && Take(top, work, run[i], t, step).available == run[i].available[d := run[i].available[d] - 1]
    ensures step == Finish && run[i].pcs[t].RunningSme? ==>
              var d := run[i].pcs[t].domain;
              && d < |top.slotCounts| && run[i].available[d] < top.slotCounts[d]
              && Take(top, work, run[i], t, step).available == run[i].available[d := run[i].available[d] + 1]
  {
    RunKeepsBalance(top, work, run, i);
    if step == Finish && run[i].pcs[t].RunningSme? {
      var d := run[i].pcs[t].domain;
      RunningIsPositive(run[i].pcs, t, d);
      assert run[i].available[d] + Running(run[i].pcs, d) == top.slotCounts[d];
    }
  }

  // A task that attempts after a step either did so before, or has just read the counter.
  lemma StepOfAttempt<V>(top: Topology, work: Work<V>, s: State<V>, s': State<V>, t: nat)
    requires Next(top, work, s, s') && t < |s'.pcs| && s'.pcs[t].Attempting?
    ensures t < |s.pcs|
    ensures s.pcs[t] == s'.pcs[t]
         || (s'.pcs[t].domain < |s.available| && s.available[s'.pcs[t].domain] == s'.pcs[t].slots)
  {
    var u: nat, step: Step :| CanStep(work, s, u, step) && s' == Take(top, work, s, u, step);
  }

  // What an attempting task remembers was the value of the counter at a moment since when it has not moved on.
  lemma {:induction false} AttemptSawCounter<V>(top: Topology, work: Work<V>, run: seq<State<V>>, i: nat, t: nat)
    returns (j: nat)
    requires IsRun(top, work, run) && i < |run|
    requires t < |run[i].pcs| && run[i].pcs[t].Attempting?
    ensures j < i && run[i].pcs[t].domain < |run[j].available|
    ensures run[j].available[run[i].pcs[t].domain] == run[i].pcs[t].slots
    ensures forall k :: j < k <= i ==> t < |run[k].pcs| && run[k].pcs[t] == run[i].pcs[t]
  {
    hide Next;
    assert i > 0;
    StepOfAttempt(top, work, run[i - 1], run[i], t);
    if run[i - 1].pcs[t] == run[i].pcs[t] {
      j := AttemptSawCounter(top, work, run, i - 1, t);
    } else {
      j := i - 1;
    }
  }

  // A task is only refused if, during its attempt, every slot of the domain was in use by a running SME callback.
  lemma RefusedOnlyWhenFull<V>(top: Topology, work: Work<V>, run: seq<State<V>>, i: nat, t: nat) returns (j: nat)
    requires top.Valid() && IsRun(top, work, run) && i < |run|
    requires CanStep(work, run[i], t, Refuse)
    ensures var d := run[i].pcs[t].domain;
            && j < i && d < |top.slotCounts|
            && |set u | 0 <= u < |run[j].pcs| && run[j].pcs[u].RunningSme? && run[j].pcs[u].domain == d|
               == top.slotCounts[d]
            && forall k :: j < k <= i ==> t < |run[k].pcs| && run[k].pcs[t] == run[i].pcs[t]
  {
    j := AttemptSawCounter(top, work, run, i, t);
    RunKeepsBalance(top, work, run, j);
    var d := run[i].pcs[t].domain;
    assert run[j].available[d] + Running(run[j].pcs, d) == top.slotCounts[d];
    RunningIsCardinality(run[j].pcs, d);
  }

  // --- Progress ---------------------------------------------------------------------------------

  // The number of steps a task has ahead of it, not counting retries.
  function StepsAhead(pc: Pc, batch: Range): int {
    match pc
    case Idle => Max(0, batch.end - batch.begin) + 4
    case Attempting(_, _) => Max(0, batch.end - batch.begin) + 3
    case RunningSme(_, next) => Max(0, batch.end - next) + 2
    case RunningCpu(next) => Max(0, batch.end - next) + 2
    case Reporting(_, _, _) => 1
    case Done(_, _, _) => 0
  }

  function TotalAhead(pcs: seq<Pc>, batches: seq<Range>): (total: int)
    requires |pcs| == |batches|
    ensures total >= 0
  {
    if pcs == [] then 0
    else
      var n := |pcs| - 1;
      TotalAhead(pcs[..n], batches[..n]) + StepsAhead(pcs[n], batches[n])
  }

  lemma {:induction false} AheadAfter(pcs: seq<Pc>, batches: seq<Range>, t: nat, pc: Pc)
    requires t < |pcs| == |batches|
    ensures TotalAhead(pcs[t := pc], batches)
         == TotalAhead(pcs, batches) - StepsAhead(pcs[t], batches[t]) + StepsAhead(pc, batches[t])
  {
    var n := |pcs| - 1;
    if t == n {
      assert pcs[t := pc][..n] == pcs[..n];
    } else {
      AheadAfter(pcs[..n], batches[..n], t, pc);
      assert pcs[t := pc][..n] == pcs[..n][t := pc];
    }
  }

  // Every step but a retry takes the call closer to its end, and a retry changes nothing but what the task remembers:
  // only repeated failures of the weak compare-and-swap can keep a run going.
  lemma StepMakesProgress<V>(top: Topology, work: Work<V>, s: State<V>, t: nat, step: Step)
    requires CanStep(work, s, t, step)
    ensures var s' := Take(top, work, s, t, step);
            if step == RetryAcquire
            then TotalAhead(s'.pcs, work.batches) == TotalAhead(s.pcs, work.batches)
                 && s' == s.(pcs := s'.pcs) && s'.pcs == s.pcs[t := s'.pcs[t]]
            else TotalAhead(s'.pcs, work.batches) < TotalAhead(s.pcs, work.batches)
  {
    hide TotalAhead, Topology.IsCpuAllowed, Topology.DomainForCpu;
    AheadAfter(s.pcs, work.batches, t, Take(top, work, s, t, step).pcs[t]);
  }

  // Unless it is done, a task can always take a step, and only needs a retry if the counter has moved since it looked.
  lemma TaskIsNeverStuck<V>(top: Topology, work: Work<V>, run: seq<State<V>>, i: nat, t: nat) returns (step: Step)
    requires top.Valid() && IsSplit(work.batches, work.rows) && IsRun(top, work, run) && i < |run|
    requires t < |run[i].pcs| && !run[i].pcs[t].Done?
    ensures CanStep(work, run[i], t, step)
    ensures step == RetryAcquire ==>
              var pc := run[i].pcs[t];
              pc.Attempting? && pc.domain < |run[i].available| && run[i].available[pc.domain] != pc.slots
  {
    RunKeepsBalance(top, work, run, i);
    RunKeepsRows(top, work, run, i);
    hide SlotsBalance;
    var s := run[i];
    assert work.batches[t].end <= work.rows;
    DomainExists(top, s, t);
    step := match s.pcs[t]
      case Idle => Start(0)
      case Attempting(d, slots) =>
        if slots == 0 then Refuse else if s.available[d] == slots then AcquireSlot else RetryAcquire
      case RunningSme(_, next) => if next < work.batches[t].end then ProcessRow else Finish
      case RunningCpu(next) => if next < work.batches[t].end then ProcessRow else Finish
      case Reporting(_, _, _) => Report
      case Done(_, _, _) => Report;
  }

  lemma DomainExists<V>(top: Topology, s: State<V>, t: nat)
    requires SlotsBalance(top, s) && t < |s.pcs|
    ensures s.pcs[t].Attempting? || s.pcs[t].RunningSme? ==> s.pcs[t].domain < |s.available|
  {
  }

  // --- What complete runs have done -------------------------------------------------------------

  ghost predicate IsComplete<V>(s: State<V>) {
    forall t :: 0 <= t < |s.pcs| ==> s.pcs[t].Done?
  }

  // The result is success exactly as long as no reported callback failed, and otherwise comes from one that did.
  ghost predicate ResultIsRight<V>(s: State<V>) {
    && (s.result == Ok ==> forall t :: 0 <= t < |s.pcs| && s.pcs[t].Done? ==> s.pcs[t].error == Ok)
    && (s.result != Ok ==> exists t :: 0 <= t < |s.pcs| && s.pcs[t].Done? && s.pcs[t].error == s.result)
  }

  lemma StepKeepsResult<V>(top: Topology, work: Work<V>, s: State<V>, t: nat, step: Step)
    requires ResultIsRight(s) && CanStep(work, s, t, step)
    ensures ResultIsRight(Take(top, work, s, t, step))
  {
    hide Topology.IsCpuAllowed, Topology.DomainForCpu;
    var s' := Take(top, work, s, t, step);
    if s.result != Ok {
      var u :| 0 <= u < |s.pcs| && s.pcs[u].Done? && s.pcs[u].error == s.result;
      assert s'.pcs[u] == s.pcs[u];
    }
    if step == Report {
      assert s'.pcs[t].Done? && s'.pcs[t].error == s.pcs[t].error;
    }
  }

  lemma {:induction false} RunKeepsResult<V>(top: Topology, work: Work<V>, run: seq<State<V>>, i: nat)
    requires IsRun(top, work, run) && i < |run|
    ensures ResultIsRight(run[i])
  {
    if i > 0 {
      RunKeepsResult(top, work, run, i - 1);
      assert Next(top, work, run[i - 1], run[i]);
      var t: nat, step: Step :| CanStep(work, run[i - 1], t, step) && run[i] == Take(top, work, run[i - 1], t, step);
      StepKeepsResult(top, work, run[i - 1], t, step);
    }
  }

  // A task that has not started its callback has never held a slot.
  lemma {:induction false} NeverStarted<V>(top: Topology, work: Work<V>, run: seq<State<V>>, i: nat, t: nat, j: nat)
    requires IsRun(top, work, run) && j <= i < |run| && t < |run[i].pcs|
    requires run[i].pcs[t].Idle? || run[i].pcs[t].Attempting?
    ensures t < |run[j].pcs| && (run[j].pcs[t].Idle? || run[j].pcs[t].Attempting?)
  {
    if j < i {
      assert Next(top, work, run[i - 1], run[i]);
      NeverStarted(top, work, run, i - 1, t, j);
    }
  }

  // A step leaves a task on its backend, and starts it on the SME backend only with a slot.
  lemma StepKeepsBackend<V>(top: Topology, work: Work<V>, s: State<V>, s': State<V>, t: nat)
    requires Next(top, work, s, s') && t < |s'.pcs| && HasStarted(s'.pcs[t])
    ensures t < |s.pcs|
    ensures if HasStarted(s.pcs[t])
            then IsOnSme(s'.pcs[t]) == IsOnSme(s.pcs[t]) && (s'.pcs[t].RunningSme? ==> s.pcs[t].RunningSme?)
            else IsOnSme(s'.pcs[t]) == s'.pcs[t].RunningSme?
  {
    hide Topology.IsCpuAllowed, Topology.DomainForCpu;
    var u: nat, step: Step :| CanStep(work, s, u, step) && s' == Take(top, work, s, u, step);
  }

  // A task that has started is on the SME backend if and only if it ever held a slot.
  lemma {:induction false} OnSmeWithSlot<V>(top: Topology, work: Work<V>, run: seq<State<V>>, i: nat, t: nat)
    requires IsRun(top, work, run) && i < |run| && t < |run[i].pcs| && HasStarted(run[i].pcs[t])
    ensures IsOnSme(run[i].pcs[t]) <==> exists j :: 0 <= j <= i && t < |run[j].pcs| && run[j].pcs[t].RunningSme?
  {
    assert i > 0;
    assert Next(top, work, run[i - 1], run[i]);
    StepKeepsBackend(top, work, run[i - 1], run[i], t);
    hide Next;
    if HasStarted(run[i - 1].pcs[t]) {
      OnSmeWithSlot(top, work, run, i - 1, t);
    } else {
      forall j | 0 <= j < i ensures t < |run[j].pcs| && !run[j].pcs[t].RunningSme? {
        NeverStarted(top, work, run, i - 1, t, j);
      }
    }
  }

  // However slots were granted, a complete call returns success if and only if every callback did, on whichever backend
  // it ran, and otherwise the error of one of them. The backend is SME exactly for tasks that held a slot.
  lemma ResultOfCall<V>(top: Topology, work: Work<V>, run: seq<State<V>>, i: nat)
    requires IsSplit(work.batches, work.rows) && IsRun(top, work, run)
    requires i < |run| && IsComplete(run[i])
    ensures |run[i].pcs| == |work.batches|
    ensures forall t :: 0 <= t < |work.batches| ==>
              run[i].pcs[t].Done?
              && (run[i].pcs[t].onSme <==> exists j :: 0 <= j <= i && t < |run[j].pcs| && run[j].pcs[t].RunningSme?)
    ensures run[i].result == Ok <==>
              forall t :: 0 <= t < |work.batches| ==>
                Ok == if run[i].pcs[t].onSme then work.smeResult(work.batches[t]) else work.cpuResult(work.batches[t])
    ensures run[i].result != Ok ==>
              exists t :: 0 <= t < |work.batches|
                && run[i].result == if run[i].pcs[t].onSme then work.smeResult(work.batches[t])
                                    else work.cpuResult(work.batches[t])
  {
    RunKeepsRows(top, work, run, i);
    RunKeepsResult(top, work, run, i);
    hide IsRun;
    forall t | 0 <= t < |work.batches|
      ensures run[i].pcs[t].Done?
      ensures run[i].pcs[t].error == if run[i].pcs[t].onSme then work.smeResult(work.batches[t])
                                     else work.cpuResult(work.batches[t])
      ensures run[i].pcs[t].onSme <==> exists j :: 0 <= j <= i && t < |run[j].pcs| && run[j].pcs[t].RunningSme?
    {
      assert StaysInBatch(work, run[i].pcs[t], work.batches[t]);
      OnSmeWithSlot(top, work, run, i, t);
    }
  }

  // In every state no row has been processed twice, and every processed row has the value of the one callback that its
  // batch runs on: the SME callback for tasks that held a slot, and the CPU callback for all others.
  lemma NoRowTwice<V>(top: Topology, work: Work<V>, run: seq<State<V>>, i: nat, row: nat)
    requires IsSplit(work.batches, work.rows) && IsRun(top, work, run) && i < |run| && row < work.rows
    ensures |run[i].writes| == |run[i].output| == work.rows && run[i].writes[row] <= 1
    ensures run[i].writes[row] == 1 ==>
              exists t :: 0 <= t < |work.batches| && work.batches[t].begin <= row < work.batches[t].end
                && run[i].output[row]
                   == Some(if exists j :: 0 <= j <= i && t < |run[j].pcs| && run[j].pcs[t].RunningSme?
                           then work.sme(row) else work.cpu(row))
  {
    RunKeepsRows(top, work, run, i);
    assert IsCovered(work.batches, row);
    var t :| 0 <= t < |work.batches| && InRange(work.batches[t], row);
    assert RowIsRight(work, run[i], t, row);
    if run[i].writes[row] == 1 {
      OnSmeWithSlot(top, work, run, i, t);
    }
  }

  // A complete call that returns success has processed every row exactly once.
  lemma EachRowOnce<V>(top: Topology, work: Work<V>, run: seq<State<V>>, i: nat, row: nat)
    requires IsSplit(work.batches, work.rows) && IsRun(top, work, run)
    requires i < |run| && IsComplete(run[i]) && run[i].result == Ok && row < work.rows
    ensures |run[i].writes| == |run[i].output| == work.rows && run[i].writes[row] == 1
    ensures exists t :: 0 <= t < |work.batches| && work.batches[t].begin <= row < work.batches[t].end
              && run[i].output[row]
                 == Some(if exists j :: 0 <= j <= i && t < |run[j].pcs| && run[j].pcs[t].RunningSme?
                         then work.sme(row) else work.cpu(row))
  {
    NoRowTwice(top, work, run, i, row);
    RunKeepsRows(top, work, run, i);
    RunKeepsResult(top, work, run, i);
    hide IsRun;
    assert IsCovered(work.batches, row);
    var t :| 0 <= t < |work.batches| && InRange(work.batches[t], row);
    assert RowIsRight(work, run[i], t, row);
    assert StaysInBatch(work, run[i].pcs[t], work.batches[t]);
  }

  // With callbacks that agree on rows and results, hybrid dispatch returns success if and only if every CPU callback
  // would, and then gives the image of one sequential call on the CPU. All slots are available again either way.
  lemma HybridRefinesCpuOnly<V>(top: Topology, work: Work<V>, run: seq<State<V>>, i: nat)
    requires top.Valid() && IsSplit(work.batches, work.rows) && IsRun(top, work, run)
    requires i < |run| && IsComplete(run[i])
    requires forall row :: 0 <= row < work.rows ==> work.sme(row) == work.cpu(row)
    requires forall t :: 0 <= t < |work.batches| ==> work.smeResult(work.batches[t]) == work.cpuResult(work.batches[t])
    ensures run[i].result == Ok <==> forall t :: 0 <= t < |work.batches| ==> work.cpuResult(work.batches[t]) == Ok
    ensures run[i].result == Ok ==>
              run[i].output == seq(work.rows, row requires 0 <= row < work.rows => Some(work.cpu(row)))
    ensures run[i].available == top.slotCounts
  {
    RunKeepsBalance(top, work, run, i);
    RunKeepsRows(top, work, run, i);
    ResultOfCall(top, work, run, i);
    hide IsRun;
    if run[i].result == Ok {
      forall row | 0 <= row < work.rows ensures run[i].output[row] == Some(work.cpu(row)) {
        EachRowOnce(top, work, run, i, row);
      }
    }
    forall d | 0 <= d < |top.slotCounts| ensures run[i].available[d] == top.slotCounts[d] {
      LimiterIsSafe(top, work, run, i, d);
    }
  }

  // --- Runs exist -------------------------------------------------------------------------------

  // Every call starts, with all slots available and nothing written.
  lemma StartOfRun<V>(top: Topology, work: Work<V>) returns (run: seq<State<V>>)
    ensures |run| == 1 && IsRun(top, work, run)
    ensures run[0].available == top.slotCounts && |run[0].pcs| == |work.batches|
    ensures forall t :: 0 <= t < |run[0].pcs| ==> run[0].pcs[t] == Idle
  {
    run := [State(top.slotCounts, seq(|work.batches|, _ => Idle), seq(work.rows, _ => None), seq(work.rows, _ => 0),
                  Ok)];
  }

  lemma ExtendRun<V>(top: Topology, work: Work<V>, run: seq<State<V>>, t: nat, step: Step) returns (run': seq<State<V>>)
    requires IsRun(top, work, run) && CanStep(work, run[|run| - 1], t, step)
    ensures run' == run + [Take(top, work, run[|run| - 1], t, step)] && IsRun(top, work, run')
  {
    hide CanStep, Take, Init;
    run' := run + [Take(top, work, run[|run| - 1], t, step)];
    forall i | 0 < i < |run'| ensures Next(top, work, run'[i - 1], run'[i]) {
      if i < |run| { assert Next(top, work, run[i - 1], run[i]); }
    }
  }

  // Whether a task remembers a value that its counter does not have.
  function Stale<V>(s: State<V>, t: nat): nat
    requires t < |s.pcs|
  {
    var pc := s.pcs[t];
    if pc.Attempting? && pc.domain < |s.available| && s.available[pc.domain] != pc.slots then 1 else 0
  }

  // From wherever a run has got to, it can be completed: there is no deadlock.
  lemma {:induction false} RunCompletes<V>(top: Topology, work: Work<V>, run: seq<State<V>>, s: State<V>, t: nat)
    returns (run': seq<State<V>>, s': State<V>)
    requires top.Valid() && IsSplit(work.batches, work.rows) && IsRun(top, work, run) && s == run[|run| - 1]
    requires |s.pcs| == |work.batches| && t <= |work.batches|
    requires forall u :: 0 <= u < t ==> s.pcs[u].Done?
    ensures run <= run' && IsRun(top, work, run') && s' == run'[|run'| - 1]
    ensures |s'.pcs| == |work.batches| && forall u :: 0 <= u < |work.batches| ==> s'.pcs[u].Done?
    decreases |work.batches| - t, if t < |work.batches| then TotalAhead(s.pcs, work.batches) else 0,
              if t < |work.batches| then Stale(s, t) else 0
  {
    if t == |work.batches| {
      run', s' := run, s;
    } else if s.pcs[t].Done? {
      run', s' := RunCompletes(top, work, run, s, t + 1);
    } else {
      var step := TaskIsNeverStuck(top, work, run, |run| - 1, t);
      var longer := ExtendRun(top, work, run, t, step);
      var after := longer[|longer| - 1];
      hide IsRun;
      StepMakesProgress(top, work, s, t, step);
      StepOfOne(top, work, s, t, step);
      run', s' := RunCompletes(top, work, longer, after, t);
    }
  }

  // A step changes its own task only, and a retry makes its memory of the counter current.
  lemma StepOfOne<V>(top: Topology, work: Work<V>, s: State<V>, t: nat, step: Step)
    requires CanStep(work, s, t, step)
    ensures var s' := Take(top, work, s, t, step);
            && |s'.pcs| == |s.pcs| && (forall u :: 0 <= u < |s.pcs| && u != t ==> s'.pcs[u] == s.pcs[u])
            && (step == RetryAcquire ==> Stale(s', t) == 0)
  {
    hide Topology.IsCpuAllowed, Topology.DomainForCpu;
  }
}
