/** What holds of every schedule of the worker pool. */
module RebuildTheorems {
  import opened Prelude
  import opened RebuildPool
  import opened RebuildInvariant

  /** State t can be reached by some schedule. */
  ghost predicate Reaches(cfg: Config, schedule: seq<Turn>, t: State) {
    Exec(cfg, Init(cfg), schedule) == Some(t)
  }

  lemma {:induction false} ExecKeepsInv(cfg: Config, s: State, schedule: seq<Turn>, t: State, top: nat)
    requires cfg.Valid() && Priced(cfg, top) && Inv(cfg, s) && WithinOvershoot(cfg, s, top)
    requires Exec(cfg, s, schedule) == Some(t)
    ensures Inv(cfg, t) && WithinOvershoot(cfg, t, top)
    decreases schedule
  {
    if schedule != [] {
      var turn := schedule[0];
      StepKeepsInv(cfg, s, turn.i, turn.ok);
      StepOvershoot(cfg, s, turn.i, turn.ok, top);
      ExecKeepsInv(cfg, Step(cfg, s, turn.i, turn.ok), schedule[1..], t, top);
    }
  }

  lemma {:induction false} TopPrice(cost: seq<int>) returns (top: nat)
    ensures forall i :: 0 <= i < |cost| ==> cost[i] <= top
  {
    if cost == [] {
      top := 0;
    } else {
      top := TopPrice(cost[1..]);
      top := if cost[0] > top then cost[0] else top;
      assert forall i :: 1 <= i < |cost| ==> cost[i] == cost[1..][i - 1];
    }
  }

  lemma ReachableInv(cfg: Config, schedule: seq<Turn>, t: State)
    requires cfg.Valid() && Reaches(cfg, schedule, t)
    ensures Inv(cfg, t)
  {
    var top := TopPrice(cfg.cost);
    InitEstablishes(cfg, top);
    ExecKeepsInv(cfg, Init(cfg), schedule, t, top);
  }

  // ---------------------------------------------------------------------------
  // Every outcome is recorded as what it was
  // ---------------------------------------------------------------------------

  /** The coroutines whose rebuild ended along a schedule, in that order: those that returned for
      `ok`, those that raised for `!ok`. */
  function Ended(cfg: Config, s: State, schedule: seq<Turn>, ok: bool): seq<nat>
    decreases schedule
  {
    if schedule == [] || !Enabled(s, schedule[0].i) then []
    else
      var turn := schedule[0];
      (if s.pc[turn.i].Rebuilding? && turn.ok == ok then [turn.i] else [])
      + Ended(cfg, Step(cfg, s, turn.i, turn.ok), schedule[1..], ok)
  }

  lemma StepRecordsOutcome(cfg: Config, s: State, i: nat, ok: bool)
    requires Enabled(s, i)
    ensures Step(cfg, s, i, ok).runIds == s.runIds + if s.pc[i].Rebuilding? && ok then [i] else []
    ensures Step(cfg, s, i, ok).failedIds == s.failedIds + if s.pc[i].Rebuilding? && !ok then [i] else []
  {
  }

  lemma Associates(a: seq<nat>, b: seq<nat>, c: seq<nat>)
    ensures (a + b) + c == a + (b + c)
  {
  }

  lemma {:induction false} EndedRecorded(cfg: Config, s: State, schedule: seq<Turn>, t: State)
    requires Exec(cfg, s, schedule) == Some(t)
    ensures t.runIds == s.runIds + Ended(cfg, s, schedule, true)
    ensures t.failedIds == s.failedIds + Ended(cfg, s, schedule, false)
    decreases schedule
  {
    if schedule != [] {
      var turn := schedule[0];
      var u := Step(cfg, s, turn.i, turn.ok);
      StepRecordsOutcome(cfg, s, turn.i, turn.ok);
      EndedRecorded(cfg, u, schedule[1..], t);
      Associates(s.runIds, if s.pc[turn.i].Rebuilding? && turn.ok then [turn.i] else [], Ended(cfg, u, schedule[1..], true));
      Associates(s.failedIds, if s.pc[turn.i].Rebuilding? && !turn.ok then [turn.i] else [], Ended(cfg, u, schedule[1..], false));
    }
  }

  /** In every reachable state `pipeline_run_ids` lists exactly the rebuilds that returned and
      `failed_ids` exactly those that raised, in the order in which they did, and the two counters
      count them. */
  lemma OutcomesRecorded(cfg: Config, schedule: seq<Turn>, t: State)
    requires cfg.Valid() && Reaches(cfg, schedule, t)
    ensures t.runIds == Ended(cfg, Init(cfg), schedule, true) && t.processed == |t.runIds|
    ensures t.failedIds == Ended(cfg, Init(cfg), schedule, false) && t.failed == |t.failedIds|
  {
    EndedRecorded(cfg, Init(cfg), schedule, t);
    ReachableInv(cfg, schedule, t);
  }

  // ---------------------------------------------------------------------------
  // The racy flag is exact at the end
  // ---------------------------------------------------------------------------

  /** The last check saw every processed run, so at the end the flag tells the truth:
      it is up exactly when something was processed and the total is over budget. */
  lemma FlagExact(cfg: Config, schedule: seq<Turn>, t: State)
    requires cfg.Valid() && Reaches(cfg, schedule, t) && Quiescent(t)
    ensures t.exceeded <==>
              cfg.budget.Some? && t.processed > 0 && CostOf(cfg, t.runIds) > cfg.budget.value
  {
    ReachableInv(cfg, schedule, t);
    QuiescentFlag(cfg, t);
  }

  lemma QuiescentFlag(cfg: Config, t: State)
    requires Inv(cfg, t) && Quiescent(t)
    ensures t.exceeded <==>
              cfg.budget.Some? && t.processed > 0 && CostOf(cfg, t.runIds) > cfg.budget.value
  {
    if t.runIds != [] {
      var i := t.runIds[0];
      assert i in t.runIds && t.pc[i] == Finished(Processed);
      TotalBelow(cfg, SucceededCost, CheckedCost, t.pc);
    }
  }

  /** For the budgets an operator means, zero or more, the flag is simply `total > budget`. */
  lemma FlagExactForRealBudget(cfg: Config, schedule: seq<Turn>, t: State)
    requires cfg.Valid() && Reaches(cfg, schedule, t) && Quiescent(t)
    requires cfg.budget.Some? && cfg.budget.value >= 0
    ensures t.exceeded <==> CostOf(cfg, t.runIds) > cfg.budget.value
  {
    ReachableInv(cfg, schedule, t);
    QuiescentFlag(cfg, t);
    assert t.processed == 0 ==> t.runIds == [];
  }

  /** Pool in which the first k rebuilds have failed and no other coroutine has moved. */
  function FailedFirst(cfg: Config, k: nat): State
    requires k <= |cfg.cost|
  {
    State(seq(|cfg.cost|, i => if i < k then Finished(Failed) else Created),
          cfg.workers, None, false, 0, k, seq(k, i => i), [])
  }

  /** Four turns take a coroutine from its start to a failed rebuild; here one after the other,
      from coroutine k on. */
  function FailingTurns(cfg: Config, k: nat): seq<Turn>
    requires k <= |cfg.cost|
    decreases |cfg.cost| - k
  {
    if k == |cfg.cost| then []
    else [Turn(k, false)] + ([Turn(k, false)] + ([Turn(k, false)] + ([Turn(k, false)] + FailingTurns(cfg, k + 1))))
  }

  lemma ExecTurn(cfg: Config, s: State, i: nat, rest: seq<Turn>)
    requires Enabled(s, i)
    ensures Exec(cfg, s, [Turn(i, false)] + rest) == Exec(cfg, Step(cfg, s, i, false), rest)
  {
    assert ([Turn(i, false)] + rest)[1..] == rest;
  }

  lemma {:induction false} FailingRun(cfg: Config, k: nat)
    requires cfg.Valid() && k <= |cfg.cost|
    ensures Exec(cfg, FailedFirst(cfg, k), FailingTurns(cfg, k)) == Some(FailedFirst(cfg, |cfg.cost|))
    decreases |cfg.cost| - k
  {
    if k < |cfg.cost| {
      var last := FailingTurns(cfg, k + 1);
      var s0, turn := FailedFirst(cfg, k), [Turn(k, false)];
      var s1 := Step(cfg, s0, k, false);
      var s2 := Step(cfg, s1, k, false);
      var s3 := Step(cfg, s2, k, false);
      var s4 := Step(cfg, s3, k, false);
      ExecTurn(cfg, s0, k, turn + (turn + (turn + last)));
      ExecTurn(cfg, s1, k, turn + (turn + last));
      ExecTurn(cfg, s2, k, turn + last);
      ExecTurn(cfg, s3, k, last);
      assert s4.pc == FailedFirst(cfg, k + 1).pc;
      assert s4.failedIds == FailedFirst(cfg, k + 1).failedIds;
      FailingRun(cfg, k + 1);
    }
  }

  /** A schedule in which every rebuild fails. */
  lemma AllCanFail(cfg: Config) returns (schedule: seq<Turn>, t: State)
    requires cfg.Valid()
    ensures Reaches(cfg, schedule, t) && Quiescent(t) && t.runIds == [] && !t.exceeded
  {
    schedule, t := FailingTurns(cfg, 0), FailedFirst(cfg, |cfg.cost|);
    assert FailedFirst(cfg, 0) == Init(cfg) by {
      assert FailedFirst(cfg, 0).pc == Init(cfg).pc;
    }
    FailingRun(cfg, 0);
  }

  /** Whatever the schedule, the final flag says whether the total is over budget. */
  ghost predicate FlagTellsTotal(cfg: Config)
    requires cfg.budget.Some?
  {
    forall schedule, t :: Reaches(cfg, schedule, t) && Quiescent(t) ==>
      (t.exceeded <==> CostOf(cfg, t.runIds) > cfg.budget.value)
  }

  /** The flag is simply `total > budget` exactly for budgets of zero or more.  `--budget-usd`
      accepts a negative amount; if then every rebuild fails, the reported total 0 is over budget
      and the flag stays down, because only successes are followed by a check. */
  lemma FlagTellsTotalIff(cfg: Config)
    requires cfg.Valid() && cfg.budget.Some?
    ensures FlagTellsTotal(cfg) <==> cfg.budget.value >= 0
  {
    if cfg.budget.value >= 0 {
      forall schedule, t | Reaches(cfg, schedule, t) && Quiescent(t)
        ensures t.exceeded <==> CostOf(cfg, t.runIds) > cfg.budget.value
      {
        FlagExactForRealBudget(cfg, schedule, t);
      }
    } else {
      var schedule, t := AllCanFail(cfg);
      assert Reaches(cfg, schedule, t);
    }
  }

  /** Concretely: one candidate, a budget of -1, and its rebuild fails. */
  lemma NegativeBudgetCanBeMissed() returns (cfg: Config, schedule: seq<Turn>, t: State)
    ensures cfg == Config(1, Some(-1), [5])
    ensures cfg.Valid() && Reaches(cfg, schedule, t) && Quiescent(t)
    ensures CostOf(cfg, t.runIds) > cfg.budget.value && !t.exceeded
  {
    cfg := Config(1, Some(-1), [5]);
    schedule, t := AllCanFail(cfg);
  }

  // ---------------------------------------------------------------------------
  // Overshoot
  // ---------------------------------------------------------------------------

  /** Whatever happens, the successful runs, and even those together with the ones still
      running, cost at most the budget plus one largest run per worker. */
  lemma OvershootBounded(cfg: Config, schedule: seq<Turn>, t: State, top: nat)
    requires cfg.Valid() && cfg.budget.Some? && Priced(cfg, top) && Reaches(cfg, schedule, t)
    ensures CostOf(cfg, t.runIds) <= Total(cfg, CommittedCost, t.pc)
                                  <= cfg.Allowance() + top * cfg.workers
  {
    InitEstablishes(cfg, top);
    ExecKeepsInv(cfg, Init(cfg), schedule, t, top);
    TotalBelow(cfg, SucceededCost, CommittedCost, t.pc);
  }

  /** The coroutines inside the permit, as a set. */
  function Inside(pc: seq<Pc>): set<nat> {
    set i: nat | i < |pc| && pc[i].InsidePermit()
  }

  lemma {:induction false} InsideCount(cfg: Config, pc: seq<Pc>)
    ensures |Inside(pc)| == Total(cfg, InsidePermits, pc)
  {
    if pc == [] {
      assert Inside(pc) == {};
    } else {
      var init, last := pc[..|pc| - 1], |pc| - 1;
      InsideCount(cfg, init);
      assert Inside(pc) == Inside(init) + if pc[last].InsidePermit() then {last} else {};
    }
  }

  /** At most `workers` coroutines are inside the permit at any time. */
  lemma AtMostWorkersInside(cfg: Config, schedule: seq<Turn>, t: State)
    requires cfg.Valid() && Reaches(cfg, schedule, t)
    ensures |Inside(t.pc)| <= cfg.workers
  {
    ReachableInv(cfg, schedule, t);
    InsideCount(cfg, t.pc);
  }

  /** The runs whose budget check was completed along a schedule, in that order, after `done`. */
  function ChecksDone(cfg: Config, s: State, schedule: seq<Turn>, done: seq<nat>): seq<nat>
    decreases schedule
  {
    if schedule == [] || !Enabled(s, schedule[0].i) then done
    else
      var i := schedule[0].i;
      ChecksDone(cfg, Step(cfg, s, i, schedule[0].ok), schedule[1..], if s.pc[i].ClosingSession? then done + [i] else done)
  }

  /** `done` lists completed checks, each once; under a clear flag nobody was processed without
      one, so their cost is what the finished processed runs have cost. */
  ghost predicate Tracks(cfg: Config, s: State, done: seq<nat>) {
    && NoDuplicates(done)
    && (forall i: nat :: i in done ==> i < |s.pc| && s.pc[i] == Finished(Processed))
    && (!s.exceeded ==>
          && (forall i: nat :: i < |s.pc| && s.pc[i] == Finished(Processed) ==> i in done)
          && CostOf(cfg, done) == Total(cfg, CheckedCost, s.pc))
  }

  lemma StepTracks(cfg: Config, s: State, i: nat, ok: bool, done: seq<nat>)
    requires cfg.budget.Some? && Enabled(s, i) && Tracks(cfg, s, done)
    ensures Tracks(cfg, Step(cfg, s, i, ok), if s.pc[i].ClosingSession? then done + [i] else done)
  {
    var t := Step(cfg, s, i, ok);
    StepRecords(cfg, s, i, ok);
    TotalMove(cfg, CheckedCost, s.pc, i, t.pc[i]);
    assert i !in done;
    if s.pc[i].ClosingSession? {
      CostOfAppend(cfg, done, i);
    } else if !s.exceeded {
      UncheckedStep(cfg, s, i, ok);
    }
  }

  lemma {:induction false} ChecksTracked(cfg: Config, s: State, schedule: seq<Turn>, t: State, done: seq<nat>)
    requires cfg.budget.Some? && Tracks(cfg, s, done) && Exec(cfg, s, schedule) == Some(t)
    ensures Tracks(cfg, t, ChecksDone(cfg, s, schedule, done))
    decreases schedule
  {
    if schedule != [] {
      var turn := schedule[0];
      StepTracks(cfg, s, turn.i, turn.ok, done);
      ChecksTracked(cfg, Step(cfg, s, turn.i, turn.ok), schedule[1..], t,
                    if s.pc[turn.i].ClosingSession? then done + [turn.i] else done);
    }
  }

  /** While the flag is down, the runs that completed their check cost no more than the budget
      allows, and every other run that was begun and did not fail is still behind one of the
      `workers` permits. */
  lemma ClearFlagMeansWithinBudget(cfg: Config, schedule: seq<Turn>, t: State)
    requires cfg.Valid() && cfg.budget.Some? && Reaches(cfg, schedule, t) && !t.exceeded
    ensures var checked := ChecksDone(cfg, Init(cfg), schedule, []);
      && NoDuplicates(checked) && (forall i :: i in checked ==> i in t.runIds)
      && CostOf(cfg, checked) <= cfg.Allowance()
      && (forall i: nat :: i < |t.pc| && t.pc[i].Started() && t.pc[i] != Finished(Failed) && i !in checked ==>
            i in Inside(t.pc))
      && |Inside(t.pc)| <= cfg.workers
  {
    ReachableInv(cfg, schedule, t);
    var top := TopPrice(cfg.cost);
    ClearFlagBound(cfg, t, top);
    TotalZero(cfg, CheckedCost, Init(cfg).pc);
    ChecksTracked(cfg, Init(cfg), schedule, t, []);
    AtMostWorkersInside(cfg, schedule, t);
  }

  /** Once the flag is up it stays up and no further rebuild begins. */
  lemma {:induction false} NothingStartsAfterFlag(cfg: Config, s: State, schedule: seq<Turn>, t: State)
    requires s.exceeded && Exec(cfg, s, schedule) == Some(t)
    ensures t.exceeded && |t.pc| == |s.pc|
    ensures forall i: nat :: i < |s.pc| ==> (t.pc[i].Started() <==> s.pc[i].Started())
    decreases schedule
  {
    if schedule != [] {
      var turn := schedule[0];
      var u := Step(cfg, s, turn.i, turn.ok);
      StepRecords(cfg, s, turn.i, turn.ok);
      NothingStartsAfterFlag(cfg, u, schedule[1..], t);
      forall i: nat | i < |s.pc| ensures u.pc[i].Started() <==> s.pc[i].Started() {
        if i == turn.i {
          assert s.pc[i].Rebuilding? || s.pc[i].Started() || !u.pc[i].Started();
        }
      }
    }
  }

  // ---------------------------------------------------------------------------
  // Safety and termination of the pool
  // ---------------------------------------------------------------------------

  /** When all coroutines have finished, every candidate is accounted for exactly once. */
  lemma FinalAccounts(cfg: Config, schedule: seq<Turn>, t: State)
    requires cfg.Valid() && Reaches(cfg, schedule, t) && Quiescent(t)
    ensures AccountsBalance(cfg, t)
  {
    ReachableInv(cfg, schedule, t);
    QuiescentAccounts(cfg, t);
  }

  ghost predicate AccountsBalance(cfg: Config, t: State) {
    var skipped := Total(cfg, Skips, t.pc);
    && t.processed + t.failed + skipped == |cfg.cost|
    && |t.runIds| == t.processed && |t.failedIds| == t.failed
    && NoDuplicates(t.runIds + t.failedIds)
    && (skipped > 0 ==> t.exceeded)
  }

  lemma QuiescentAccounts(cfg: Config, t: State)
    requires Inv(cfg, t) && Quiescent(t)
    ensures AccountsBalance(cfg, t)
  {
    OutcomesAddUp(cfg, t.pc);
    if !t.exceeded {
      TotalZero(cfg, Skips, t.pc);
    }
    forall i, j | 0 <= i < |t.runIds| && 0 <= j < |t.failedIds| ensures t.runIds[i] != t.failedIds[j] {
      assert t.runIds[i] in t.runIds && t.failedIds[j] in t.failedIds;
    }
  }

  /** No schedule is longer than nine turns per candidate. */
  lemma {:induction false} SchedulesEnd(cfg: Config, s: State, schedule: seq<Turn>, t: State)
    requires Exec(cfg, s, schedule) == Some(t)
    ensures |schedule| + Total(cfg, Steps, t.pc) <= Total(cfg, Steps, s.pc)
    decreases schedule
  {
    if schedule != [] {
      var turn := schedule[0];
      StepDecreases(cfg, s, turn.i, turn.ok);
      SchedulesEnd(cfg, Step(cfg, s, turn.i, turn.ok), schedule[1..], t);
    }
  }

  lemma {:induction false} StepsAtStart(cfg: Config, pc: seq<Pc>)
    requires forall i :: 0 <= i < |pc| ==> pc[i] == Created
    ensures Total(cfg, Steps, pc) == 9 * |pc|
  {
    if pc != [] {
      StepsAtStart(cfg, pc[..|pc| - 1]);
    }
  }

  /** Every schedule ends within nine turns per candidate, and one that cannot be continued
      has finished every coroutine: no deadlock between the semaphore and the lock. */
  lemma PoolTerminates(cfg: Config, schedule: seq<Turn>, t: State)
    requires cfg.Valid() && Reaches(cfg, schedule, t)
    ensures |schedule| <= 9 * |cfg.cost|
    ensures (forall i: nat :: !Enabled(t, i)) <==> Quiescent(t)
  {
    ReachableInv(cfg, schedule, t);
    SchedulesEnd(cfg, Init(cfg), schedule, t);
    StepsAtStart(cfg, Init(cfg).pc);
    StepsNonNegative(cfg, t.pc);
    if !Quiescent(t) {
      NeverDeadlocks(cfg, t);
    }
  }
}
