/** The objects and the driver of scripts/rebuild_knowledge_graph.py, updated in place. */
module RebuildScript {
  import opened Prelude
  import opened RebuildPool
  import opened RebuildInvariant
  import opened RebuildTheorems

  const DELTA_TOLERANCE_PCT := 5.0
  const EXIT_OK := 0
  const EXIT_DELTA_OUT_OF_TOLERANCE := 1
  const EXIT_BUDGET_EXCEEDED := 2

  /** `_RunStats`. */
  class RunStats {
    var processed: nat
    var failed: nat
    var failedIds: seq<nat>
    var pipelineRunIds: seq<nat>

    constructor ()
      ensures processed == 0 && failed == 0 && failedIds == [] && pipelineRunIds == []
    {
      processed, failed, failedIds, pipelineRunIds := 0, 0, [], [];
    }
  }

  /** `_BudgetState`; the lock is represented by the coroutine that holds it. */
  class BudgetState {
    var exceeded: bool
    var lockOwner: Option<nat>

    constructor ()
      ensures !exceeded && lockOwner == None
    {
      exceeded, lockOwner := false, None;
    }
  }

  /** One `asyncio.gather` over all candidates. */
  class Pool {
    const cfg: Config
    const stats: RunStats
    const budget: BudgetState
    var permits: nat
    var pc: seq<Pc>

    constructor (cfg: Config)
      ensures this.cfg == cfg && View() == Init(cfg)
      ensures fresh(stats) && fresh(budget)
    {
      this.cfg := cfg;
      stats := new RunStats();
      budget := new BudgetState();
      permits := cfg.workers;
      pc := seq(|cfg.cost|, _ => Created);
    }

    function View(): State
      reads this, stats, budget
    {
      State(pc, permits, budget.lockOwner, budget.exceeded,
            stats.processed, stats.failed, stats.failedIds, stats.pipelineRunIds)
    }

    /** Resume coroutine i until its next await. */
    method Resume(i: nat, ok: bool)
      requires Enabled(View(), i)
      modifies this, stats, budget
      ensures View() == Step(cfg, old(View()), i, ok)
    {
      match pc[i] {
        case Created =>
          pc := pc[i := if budget.exceeded then Finished(Skipped) else AwaitPermit];
        case AwaitPermit =>
          permits := permits - 1;
          pc := pc[i := HoldsPermit];
        case HoldsPermit =>
          if budget.exceeded {
            Release(i, Skipped);
          } else {
            pc := pc[i := Rebuilding];
          }
        case Rebuilding =>
          if !ok {
            stats.failed := stats.failed + 1;
            stats.failedIds := stats.failedIds + [i];
            Release(i, Failed);
          } else {
            stats.processed := stats.processed + 1;
            stats.pipelineRunIds := stats.pipelineRunIds + [i];
            if cfg.budget.None? {
              Release(i, Processed);
            } else {
              pc := pc[i := AwaitLock];
            }
          }
        case AwaitLock =>
          budget.lockOwner := Some(i);
          pc := pc[i := HoldsLock];
        case HoldsLock =>
          if budget.exceeded {
            budget.lockOwner := None;
            Release(i, Processed);
          } else {
            pc := pc[i := OpenSession];
          }
        case OpenSession =>
          pc := pc[i := Querying(stats.pipelineRunIds)];
        case Querying(ids) =>
          pc := pc[i := ClosingSession(CostOf(cfg, ids))];
        case ClosingSession(cost) =>
          if cfg.budget.Some? && cost > cfg.budget.value {
            budget.exceeded := true;
          }
          budget.lockOwner := None;
          Release(i, Processed);
      }
    }

    /** Leave `async with semaphore` and return. */
    method Release(i: nat, outcome: Outcome)
      requires i < |pc|
      modifies this
      ensures pc == old(pc)[i := Finished(outcome)] && permits == old(permits) + 1
    {
      permits := permits + 1;
      pc := pc[i := Finished(outcome)];
    }
  }

  /** `_Report`, as far as the exit code and the operator depend on it. */
  datatype Report = Report(
    totalCandidates: nat,
    processed: nat,
    failed: nat,
    failedIds: seq<nat>,
    totalCost: int,
    budgetExceeded: bool)

  function DeltaPct(pre: nat, post: nat): real {
    if pre == 0 then if post == 0 then 0.0 else 100.0
    else (post - pre) as real / pre as real * 100.0
  }

  predicate OutOfTolerance(pre: nat, post: nat) {
    DeltaPct(pre, post) > DELTA_TOLERANCE_PCT || DeltaPct(pre, post) < -DELTA_TOLERANCE_PCT
  }

  /** The Concept count moved by more than a twentieth; from nothing, by anything. */
  predicate MovedTooFar(pre: nat, post: nat) {
    if pre == 0 then post != 0 else 20 * (post - pre) > pre || 20 * (pre - post) > pre
  }

  /** A share compared with a bound, without dividing. */
  lemma ShareBeyond(part: real, whole: real, bound: real)
    requires whole > 0.0
    ensures part / whole > bound <==> part > bound * whole
    ensures part / whole < bound <==> part < bound * whole
  {
    var share := part / whole;
    assert share * whole == part;
    if share > bound {
      assert (share - bound) * whole > 0.0;
    } else if share < bound {
      assert (bound - share) * whole > 0.0;
    }
  }

  lemma OutOfToleranceIff(pre: nat, post: nat)
    ensures OutOfTolerance(pre, post) <==> MovedTooFar(pre, post)
  {
    if pre != 0 {
      ShareBeyond((post - pre) as real, pre as real, 0.05);
      ShareBeyond((post - pre) as real, pre as real, -0.05);
    }
  }

  /** The candidates whose rebuild succeeds, or fails, if it is begun. */
  function With(outcome: seq<bool>, ok: bool): set<nat> {
    set i: nat | i < |outcome| && outcome[i] == ok
  }

  /** What all succeeding rebuilds cost together. */
  function Spent(cost: seq<int>, outcome: seq<bool>): int
    requires |outcome| == |cost|
  {
    if cost == [] then 0
    else Spent(cost[..|cost| - 1], outcome[..|cost| - 1]) + if outcome[|cost| - 1] then cost[|cost| - 1] else 0
  }

  /** Whoever's rebuild has ended is on the list its outcome calls for. */
  ghost predicate Follows(s: State, outcome: seq<bool>) {
    && (forall i: nat :: i in s.runIds ==> i in With(outcome, true))
    && (forall i: nat :: i in s.failedIds ==> i in With(outcome, false))
  }

  lemma {:induction false} SpentInTotal(cfg: Config, pc: seq<Pc>, cost: seq<int>, outcome: seq<bool>)
    requires |pc| == |outcome| == |cost| && cost <= cfg.cost
    requires forall i: nat :: i < |pc| ==> (pc[i].Succeeded() <==> outcome[i])
    ensures Total(cfg, SucceededCost, pc) == Spent(cost, outcome)
  {
    if pc != [] {
      var n := |pc| - 1;
      SpentInTotal(cfg, pc[..n], cost[..n], outcome[..n]);
    }
  }

  /** Nobody is skipped under a clear flag, so the report follows from the outcomes alone. */
  lemma UnbudgetedReport(cfg: Config, t: State, outcome: seq<bool>)
    requires Inv(cfg, t) && Quiescent(t) && !t.exceeded && |outcome| == |cfg.cost| && Follows(t, outcome)
    ensures Elements(t.failedIds) == With(outcome, false)
    ensures t.processed == |With(outcome, true)|
    ensures CostOf(cfg, t.runIds) == Spent(cfg.cost, outcome)
  {
    forall i: nat | i < |t.pc| ensures (i in t.runIds <==> outcome[i]) && (i in t.failedIds <==> !outcome[i]) {
      assert t.pc[i].Finished? && t.pc[i] != Finished(Skipped);
      assert t.pc[i].outcome == Processed || t.pc[i].outcome == Failed;
      assert i in t.runIds || i in t.failedIds;
    }
    assert Elements(t.runIds) == With(outcome, true);
    assert Elements(t.failedIds) == With(outcome, false);
    DistinctCount(t.runIds);
    SpentInTotal(cfg, t.pc, cfg.cost, outcome);
  }

  /** `run`: every order in which the event loop may resume the coroutines gives an exit code and a
      report that agree.  `outcome[i]` says whether rebuilding candidate i returns or raises, should
      it be begun. */
  method Run(cfg: Config, dryRun: bool, outcome: seq<bool>, pre: nat, post: nat) returns (code: int, report: Report)
    requires cfg.Valid() && |outcome| == |cfg.cost|
    ensures report.totalCandidates == |cfg.cost|
    ensures dryRun ==> code == EXIT_OK && report.processed == 0 == report.failed
    ensures report.budgetExceeded <==>
              cfg.budget.Some? && report.processed > 0 && report.totalCost > cfg.budget.value
    ensures code == 2 <==> report.budgetExceeded
    ensures code == 1 <==> !report.budgetExceeded && report.processed > 0 && MovedTooFar(pre, post)
    ensures code in {0, 1, 2}
    ensures report.processed + report.failed <= |cfg.cost|
    ensures |report.failedIds| == report.failed && NoDuplicates(report.failedIds)
    ensures Elements(report.failedIds) <= With(outcome, false)
    ensures exists ids: seq<nat> :: NoDuplicates(ids) && Elements(ids) <= With(outcome, true)
              && report.processed == |ids| && report.totalCost == CostOf(cfg, ids)
    ensures !dryRun && !report.budgetExceeded ==> report.processed + report.failed == |cfg.cost|
    ensures !dryRun && !report.budgetExceeded ==>
              && report.processed == |With(outcome, true)| && report.totalCost == Spent(cfg.cost, outcome)
              && Elements(report.failedIds) == With(outcome, false)
    ensures cfg.budget.Some? ==>
              forall top: nat :: Priced(cfg, top) ==> report.totalCost <= cfg.Allowance() + top * cfg.workers
  {
    if dryRun || |cfg.cost| == 0 {
      assert CostOf(cfg, []) == 0 && NoDuplicates<nat>([]);
      assert |cfg.cost| == 0 ==> With(outcome, true) == {} == With(outcome, false);
      return EXIT_OK, Report(|cfg.cost|, 0, 0, [], 0, false);
    }
    var pool := new Pool(cfg);
    ghost var schedule: seq<Turn> := [];
    InitEstablishes(cfg, 0);
    while !Quiescent(pool.View())
      invariant pool.cfg == cfg && fresh(pool) && fresh(pool.stats) && fresh(pool.budget)
      invariant Inv(cfg, pool.View()) && Follows(pool.View(), outcome)
      invariant Reaches(cfg, schedule, pool.View())
      decreases Total(cfg, Steps, pool.pc)
    {
      NeverDeadlocks(cfg, pool.View());
      var i: nat :| i < |pool.pc| && Enabled(pool.View(), i);
      StepKeepsInv(cfg, pool.View(), i, outcome[i]);
      StepDecreases(cfg, pool.View(), i, outcome[i]);
      ExecSnoc(cfg, Init(cfg), schedule, pool.View(), Turn(i, outcome[i]));
      schedule := schedule + [Turn(i, outcome[i])];
      StepFollows(cfg, pool.View(), i, outcome);
      pool.Resume(i, outcome[i]);
    }
    ghost var t := pool.View();
    QuiescentFlag(cfg, t);
    QuiescentAccounts(cfg, t);
    if !t.exceeded {
      UnbudgetedReport(cfg, t, outcome);
    }
    if cfg.budget.Some? {
      forall top: nat | Priced(cfg, top) ensures CostOf(cfg, t.runIds) <= cfg.Allowance() + top * cfg.workers {
        OvershootBounded(cfg, schedule, t, top);
      }
    }
    SkipsNonNegative(cfg, t.pc);
    OutOfToleranceIff(pre, post);
    report := Report(|cfg.cost|, pool.stats.processed, pool.stats.failed, pool.stats.failedIds,
                     CostOf(cfg, pool.stats.pipelineRunIds), pool.budget.exceeded);
    if pool.budget.exceeded {
      code := EXIT_BUDGET_EXCEEDED;
    } else if OutOfTolerance(pre, post) && pool.stats.processed > 0 {
      code := EXIT_DELTA_OUT_OF_TOLERANCE;
    } else {
      code := EXIT_OK;
    }
    assert NoDuplicates(t.runIds) && Elements(t.runIds) <= With(outcome, true);
  }

  lemma StepFollows(cfg: Config, s: State, i: nat, outcome: seq<bool>)
    requires Enabled(s, i) && |outcome| == |s.pc| && Follows(s, outcome)
    ensures Follows(Step(cfg, s, i, outcome[i]), outcome)
  {
  }

  lemma {:induction false} SkipsNonNegative(cfg: Config, pc: seq<Pc>)
    ensures 0 <= Total(cfg, Skips, pc)
  {
    if pc != [] {
      SkipsNonNegative(cfg, pc[..|pc| - 1]);
    }
  }

  /** A schedule can be continued by any turn that is possible where it ends. */
  lemma {:induction false} ExecSnoc(cfg: Config, s: State, schedule: seq<Turn>, t: State, turn: Turn)
    requires Exec(cfg, s, schedule) == Some(t) && Enabled(t, turn.i)
    ensures Exec(cfg, s, schedule + [turn]) == Some(Step(cfg, t, turn.i, turn.ok))
    decreases schedule
  {
    if schedule == [] {
      assert ([turn])[1..] == [];
    } else {
      assert (schedule + [turn])[1..] == schedule[1..] + [turn];
      ExecSnoc(cfg, Step(cfg, s, schedule[0].i, schedule[0].ok), schedule[1..], t, turn);
    }
  }
}
