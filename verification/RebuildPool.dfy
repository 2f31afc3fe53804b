/**
 The budget-guarded worker pool of scripts/rebuild_knowledge_graph.py as a step system.

 Every coroutine is a program counter; a step is the code between two awaits, which
 asyncio runs without interruption.  Which coroutine moves next, and whether a rebuild
 raises, is left to the schedule.
 */
module RebuildPool {
  import opened Prelude

  datatype Outcome = Skipped | Failed | Processed

  /** Where one `_run_one_worker` coroutine stands. */
  datatype Pc =
    | Created                       // not yet looked at the flag
    | AwaitPermit                   // suspended in `async with semaphore`
    | HoldsPermit                   // permit granted, flag not yet re-read
    | Rebuilding                    // suspended in `_rebuild_one`
    | AwaitLock                     // recorded as processed, suspended in `async with budget.lock`
    | HoldsLock                     // lock granted, flag not yet re-read
    | OpenSession                   // opening the cost session, snapshot not yet taken
    | Querying(ids: seq<nat>)       // the cost query runs over this snapshot
    | ClosingSession(cost: int)     // the query answered, the session is closing
    | Finished(outcome: Outcome)
  {
    predicate InsidePermit() { !(Created? || AwaitPermit? || Finished?) }

    predicate InsideLock() { HoldsLock? || OpenSession? || Querying? || ClosingSession? }

    predicate Checking() { AwaitLock? || InsideLock() }

    predicate Succeeded() { Checking() || this == Finished(Processed) }

    /** A rebuild was begun for this candidate. */
    predicate Started() { Rebuilding? || Succeeded() || this == Finished(Failed) }

    /** Steps this coroutine can still take. */
    function StepsLeft(): nat {
      match this
      case Created => 9
      case AwaitPermit => 8
      case HoldsPermit => 7
      case Rebuilding => 6
      case AwaitLock => 5
      case HoldsLock => 4
      case OpenSession => 3
      case Querying(_) => 2
      case ClosingSession(_) => 1
      case Finished(_) => 0
    }
  }

  /** Command line and environment.  Candidate i is rebuilt by run i, whose model calls cost
      `cost[i]`; all amounts are integers in one common decimal unit of the USD. */
  datatype Config = Config(workers: nat, budget: Option<int>, cost: seq<int>) {
    ghost predicate Valid() {
      workers >= 1 && forall i :: 0 <= i < |cost| ==> cost[i] >= 0
    }

    /** What the budget allows: a negative one allows nothing. */
    function Allowance(): int
      requires budget.Some?
    {
      if budget.value < 0 then 0 else budget.value
    }
  }

  /** `_RunStats`, `_BudgetState`, the semaphore, and the program counters. */
  datatype State = State(
    pc: seq<Pc>,
    permits: nat,
    lockOwner: Option<nat>,
    exceeded: bool,
    processed: nat,
    failed: nat,
    failedIds: seq<nat>,
    runIds: seq<nat>)

  function Init(cfg: Config): State {
    State(seq(|cfg.cost|, _ => Created), cfg.workers, None, false, 0, 0, [], [])
  }

  /** `_running_cost_usd`: what the listed runs have cost. */
  function CostOf(cfg: Config, ids: seq<nat>): int {
    if ids == [] then 0
    else CostOf(cfg, ids[..|ids| - 1])
         + if ids[|ids| - 1] < |cfg.cost| then cfg.cost[ids[|ids| - 1]] else 0
  }

  predicate Enabled(s: State, i: nat) {
    i < |s.pc|
    && !s.pc[i].Finished?
    && (s.pc[i].AwaitPermit? ==> s.permits > 0)
    && (s.pc[i].AwaitLock? ==> s.lockOwner.None?)
  }

  function Move(s: State, i: nat, p: Pc): State
    requires i < |s.pc|
  {
    s.(pc := s.pc[i := p])
  }

  /** Leaving `async with semaphore`. */
  function Leave(s: State, i: nat, outcome: Outcome): State
    requires i < |s.pc|
  {
    Move(s, i, Finished(outcome)).(permits := s.permits + 1)
  }

  /** One uninterrupted stretch of coroutine i; `ok` says whether `_rebuild_one` returned. */
  function Step(cfg: Config, s: State, i: nat, ok: bool): State
    requires Enabled(s, i)
  {
    match s.pc[i]
    case Created =>
      Move(s, i, if s.exceeded then Finished(Skipped) else AwaitPermit)
    case AwaitPermit =>
      Move(s, i, HoldsPermit).(permits := s.permits - 1)
    case HoldsPermit =>
      if s.exceeded then Leave(s, i, Skipped) else Move(s, i, Rebuilding)
    case Rebuilding =>
      if !ok then
        Leave(s, i, Failed).(failed := s.failed + 1, failedIds := s.failedIds + [i])
      else
        var t := s.(processed := s.processed + 1, runIds := s.runIds + [i]);
        if cfg.budget.None? then Leave(t, i, Processed) else Move(t, i, AwaitLock)
    case AwaitLock =>
      Move(s, i, HoldsLock).(lockOwner := Some(i))
    case HoldsLock =>
      if s.exceeded then Leave(s, i, Processed).(lockOwner := None) else Move(s, i, OpenSession)
    case OpenSession =>
      Move(s, i, Querying(s.runIds))
    case Querying(ids) =>
      Move(s, i, ClosingSession(CostOf(cfg, ids)))
    case ClosingSession(cost) =>
      Leave(s, i, Processed).(
        lockOwner := None,
        exceeded := s.exceeded || (cfg.budget.Some? && cost > cfg.budget.value))
  }

  /** One decision of the event loop. */
  datatype Turn = Turn(i: nat, ok: bool)

  /** The state after a schedule, if every turn of it was possible. */
  function Exec(cfg: Config, s: State, schedule: seq<Turn>): Option<State>
    decreases schedule
  {
    if schedule == [] then Some(s)
    else if !Enabled(s, schedule[0].i) then None
    else Exec(cfg, Step(cfg, s, schedule[0].i, schedule[0].ok), schedule[1..])
  }

  predicate Quiescent(s: State) {
    forall i :: 0 <= i < |s.pc| ==> s.pc[i].Finished?
  }

  // ---------------------------------------------------------------------------
  // Sums over the program counters
  // ---------------------------------------------------------------------------

  /** What is added up over the coroutines: heads, steps, or money. */
  datatype Measure =
    | InsidePermits        // coroutines holding a permit
    | Successes            // coroutines whose run is in `pipeline_run_ids`
    | Failures
    | Skips
    | Steps                // steps still to take
    | SucceededCost        // spent by runs in `pipeline_run_ids`
    | CheckedCost          // spent by processed runs whose coroutine has returned
    | InFlightCost         // spent or to be spent by runs begun and still behind a permit
    | CommittedCost        // spent or to be spent by all runs begun and not failed

  function CostAt(cfg: Config, i: nat): int {
    if i < |cfg.cost| then cfg.cost[i] else 0
  }

  function Weigh(cfg: Config, m: Measure, i: nat, p: Pc): int {
    match m
    case InsidePermits => if p.InsidePermit() then 1 else 0
    case Successes => if p.Succeeded() then 1 else 0
    case Failures => if p == Finished(Failed) then 1 else 0
    case Skips => if p == Finished(Skipped) then 1 else 0
    case Steps => p.StepsLeft()
    case SucceededCost => if p.Succeeded() then CostAt(cfg, i) else 0
    case CheckedCost => if p == Finished(Processed) then CostAt(cfg, i) else 0
    case InFlightCost => if p.Rebuilding? || p.Checking() then CostAt(cfg, i) else 0
    case CommittedCost => if p.Rebuilding? || p.Succeeded() then CostAt(cfg, i) else 0
  }

  function Total(cfg: Config, m: Measure, pc: seq<Pc>): int {
    if pc == [] then 0
    else Total(cfg, m, pc[..|pc| - 1]) + Weigh(cfg, m, |pc| - 1, pc[|pc| - 1])
  }

  lemma {:induction false} TotalMove(cfg: Config, m: Measure, pc: seq<Pc>, i: nat, p: Pc)
    requires i < |pc|
    ensures Total(cfg, m, pc[i := p]) == Total(cfg, m, pc) - Weigh(cfg, m, i, pc[i]) + Weigh(cfg, m, i, p)
  {
    var init := pc[..|pc| - 1];
    if i == |pc| - 1 {
      assert pc[i := p][..|pc| - 1] == init;
    } else {
      assert pc[i := p][..|pc| - 1] == init[i := p];
      TotalMove(cfg, m, init, i, p);
    }
  }

  lemma {:induction false} TotalZero(cfg: Config, m: Measure, pc: seq<Pc>)
    requires forall i: nat :: i < |pc| ==> Weigh(cfg, m, i, pc[i]) == 0
    ensures Total(cfg, m, pc) == 0
  {
    if pc != [] {
      TotalZero(cfg, m, pc[..|pc| - 1]);
    }
  }

  lemma {:induction false} TotalBelow(cfg: Config, m: Measure, n: Measure, pc: seq<Pc>)
    requires forall i: nat :: i < |pc| ==> Weigh(cfg, m, i, pc[i]) <= Weigh(cfg, n, i, pc[i])
    ensures Total(cfg, m, pc) <= Total(cfg, n, pc)
  {
    if pc != [] {
      TotalBelow(cfg, m, n, pc[..|pc| - 1]);
    }
  }

  lemma Distribute(c: int, a: int, b: int)
    ensures c * (a + b) == c * a + c * b
  {
  }

  lemma {:induction false} TotalScale(cfg: Config, m: Measure, c: int, n: Measure, pc: seq<Pc>)
    requires forall i: nat :: i < |pc| ==> Weigh(cfg, m, i, pc[i]) <= c * Weigh(cfg, n, i, pc[i])
    ensures Total(cfg, m, pc) <= c * Total(cfg, n, pc)
  {
    if pc != [] {
      var init, last := pc[..|pc| - 1], |pc| - 1;
      assert forall i: nat :: i < |init| ==> init[i] == pc[i];
      TotalScale(cfg, m, c, n, init);
      Distribute(c, Total(cfg, n, init), Weigh(cfg, n, last, pc[last]));
    }
  }

  /** What is committed is what was checked plus what is still behind a permit. */
  lemma {:induction false} CommittedSplit(cfg: Config, pc: seq<Pc>)
    ensures Total(cfg, CommittedCost, pc) == Total(cfg, InFlightCost, pc) + Total(cfg, CheckedCost, pc)
  {
    if pc != [] {
      CommittedSplit(cfg, pc[..|pc| - 1]);
    }
  }

  /** Once every coroutine has finished, each one was processed, failed or skipped. */
  lemma {:induction false} OutcomesAddUp(cfg: Config, pc: seq<Pc>)
    requires forall i: nat :: i < |pc| ==> pc[i].Finished?
    ensures Total(cfg, Successes, pc) + Total(cfg, Failures, pc) + Total(cfg, Skips, pc) == |pc|
  {
    if pc != [] {
      OutcomesAddUp(cfg, pc[..|pc| - 1]);
      match pc[|pc| - 1].outcome
      case Skipped =>
      case Failed =>
      case Processed =>
    }
  }
}
