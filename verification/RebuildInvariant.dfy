/** What every step of the worker pool keeps. */
module RebuildInvariant {
  import opened Prelude
  import opened RebuildPool

  /** Permits are conserved: `workers` of them, each free or held by one coroutine. */
  ghost predicate PermitsConserved(cfg: Config, s: State) {
    |s.pc| == |cfg.cost| && s.permits + Total(cfg, InsidePermits, s.pc) == cfg.workers
  }

  /** The lock has the one owner it records, and only a budgeted pool uses it. */
  ghost predicate LockExclusive(cfg: Config, s: State) {
    && (forall i: nat :: i < |s.pc| ==> (s.pc[i].InsideLock() <==> s.lockOwner == Some(i)))
    && (s.lockOwner.Some? ==> s.lockOwner.value < |s.pc|)
    && (forall i: nat :: i < |s.pc| && s.pc[i].Checking() ==> cfg.budget.Some?)
  }

  /** The lists name exactly those who succeeded and those who failed, each once; nobody was
      skipped without the flag. */
  ghost predicate ListsExact(s: State) {
    && NoDuplicates(s.runIds) && NoDuplicates(s.failedIds)
    && (forall i: nat :: i in s.runIds <==> i < |s.pc| && s.pc[i].Succeeded())
    && (forall i: nat :: i in s.failedIds <==> i < |s.pc| && s.pc[i] == Finished(Failed))
    && (forall i: nat :: i < |s.pc| && s.pc[i] == Finished(Skipped) ==> s.exceeded)
  }

  /** The counters agree with the lists, and the lists with the program counters. */
  ghost predicate CountsExact(cfg: Config, s: State) {
    && s.processed == |s.runIds| == Total(cfg, Successes, s.pc)
    && s.failed == |s.failedIds| == Total(cfg, Failures, s.pc)
    && CostOf(cfg, s.runIds) == Total(cfg, SucceededCost, s.pc)
  }

  /** Whether a coroutine that is comparing costs knows enough: its figure covers itself and
      every run checked so far, and does not exceed what was really spent. */
  ghost predicate Informed(cfg: Config, s: State, i: nat)
    requires i < |s.pc|
  {
    match s.pc[i]
    case Querying(ids) =>
      && ids <= s.runIds
      && (!s.exceeded ==> Total(cfg, CheckedCost, s.pc) + CostAt(cfg, i) <= CostOf(cfg, ids))
    case ClosingSession(cost) =>
      && cost <= CostOf(cfg, s.runIds)
      && (!s.exceeded ==> Total(cfg, CheckedCost, s.pc) + CostAt(cfg, i) <= cost)
    case _ => true
  }

  /** A raised flag is justified; under a clear flag everything already checked is within budget. */
  ghost predicate Justified(cfg: Config, s: State) {
    && (s.exceeded ==> cfg.budget.Some? && s.runIds != [] && CostOf(cfg, s.runIds) > cfg.budget.value)
    && (cfg.budget.Some? && !s.exceeded ==>
          forall i: nat :: i < |s.pc| && s.pc[i] == Finished(Processed) ==>
            Total(cfg, CheckedCost, s.pc) <= cfg.budget.value)
  }

  ghost predicate FlagJustified(cfg: Config, s: State) {
    && Justified(cfg, s)
    && (forall i: nat :: i < |s.pc| ==> Informed(cfg, s, i))
  }

  /** Everything spent or still to be spent stays within one price per worker of the budget. */
  ghost predicate WithinOvershoot(cfg: Config, s: State, top: nat) {
    cfg.budget.Some? ==> Total(cfg, CommittedCost, s.pc) <= cfg.Allowance() + top * cfg.workers
  }

  /** No single run costs more than `top`. */
  ghost predicate Priced(cfg: Config, top: nat) {
    forall i :: 0 <= i < |cfg.cost| ==> cfg.cost[i] <= top
  }

  ghost predicate Inv(cfg: Config, s: State) {
    && PermitsConserved(cfg, s) && LockExclusive(cfg, s)
    && ListsExact(s) && CountsExact(cfg, s) && FlagJustified(cfg, s)
  }

  // ---------------------------------------------------------------------------
  // Costs of lists
  // ---------------------------------------------------------------------------

  lemma {:induction false} CostOfPrefix(cfg: Config, ids: seq<nat>, all: seq<nat>)
    requires cfg.Valid() && ids <= all
    ensures 0 <= CostOf(cfg, ids) <= CostOf(cfg, all)
    decreases |all|
  {
    if all != [] {
      if ids == all {
        CostOfPrefix(cfg, ids[..|ids| - 1], all[..|all| - 1]);
      } else {
        assert ids <= all[..|all| - 1];
        CostOfPrefix(cfg, ids, all[..|all| - 1]);
      }
    }
  }

  lemma CostOfAppend(cfg: Config, ids: seq<nat>, i: nat)
    ensures CostOf(cfg, ids + [i]) == CostOf(cfg, ids) + CostAt(cfg, i)
  {
    assert (ids + [i])[..|ids|] == ids;
  }

  // ---------------------------------------------------------------------------
  // Initially
  // ---------------------------------------------------------------------------

  lemma InitEstablishes(cfg: Config, top: nat)
    requires cfg.Valid()
    ensures Inv(cfg, Init(cfg)) && WithinOvershoot(cfg, Init(cfg), top)
  {
    var pc := Init(cfg).pc;
    TotalZero(cfg, InsidePermits, pc);
    TotalZero(cfg, Successes, pc);
    TotalZero(cfg, Failures, pc);
    TotalZero(cfg, SucceededCost, pc);
    TotalZero(cfg, CommittedCost, pc);
  }

  // ---------------------------------------------------------------------------
  // One step
  // ---------------------------------------------------------------------------

  lemma StepPermits(cfg: Config, s: State, i: nat, ok: bool)
    requires PermitsConserved(cfg, s) && Enabled(s, i)
    ensures PermitsConserved(cfg, Step(cfg, s, i, ok))
  {
    TotalMove(cfg, InsidePermits, s.pc, i, Step(cfg, s, i, ok).pc[i]);
  }

  lemma StepLock(cfg: Config, s: State, i: nat, ok: bool)
    requires LockExclusive(cfg, s) && Enabled(s, i)
    ensures LockExclusive(cfg, Step(cfg, s, i, ok))
  {
  }

  /** What a step of coroutine i may write besides its own program counter. */
  ghost predicate Records(s: State, t: State, i: nat) {
    && i < |s.pc| == |t.pc| && t.pc == s.pc[i := t.pc[i]]
    && (s.exceeded || t.pc[i] == Finished(Skipped) ==> t.exceeded)
    && if t.pc[i].Succeeded() && !s.pc[i].Succeeded() then
         && s.pc[i].Rebuilding?
         && t.runIds == s.runIds + [i] && t.processed == s.processed + 1
         && t.failedIds == s.failedIds && t.failed == s.failed
       else if t.pc[i] == Finished(Failed) then
         && s.pc[i].Rebuilding?
         && t.runIds == s.runIds && t.processed == s.processed
         && t.failedIds == s.failedIds + [i] && t.failed == s.failed + 1
       else
         && (t.pc[i].Succeeded() <==> s.pc[i].Succeeded()) && !(s.pc[i] == Finished(Failed))
         && t.runIds == s.runIds && t.processed == s.processed
         && t.failedIds == s.failedIds && t.failed == s.failed
  }

  lemma StepRecords(cfg: Config, s: State, i: nat, ok: bool)
    requires Enabled(s, i)
    ensures Records(s, Step(cfg, s, i, ok), i)
  {
  }

  lemma RecordsKeepLists(s: State, t: State, i: nat)
    requires ListsExact(s) && Records(s, t, i)
    ensures ListsExact(t)
  {
    assert forall j: nat :: j < |s.pc| && j != i ==> t.pc[j] == s.pc[j];
    assert s.pc[i].Rebuilding? ==> i !in s.runIds && i !in s.failedIds;
  }

  lemma RecordsKeepCounts(cfg: Config, s: State, t: State, i: nat)
    requires CountsExact(cfg, s) && Records(s, t, i)
    ensures CountsExact(cfg, t)
  {
    TotalMove(cfg, Successes, s.pc, i, t.pc[i]);
    TotalMove(cfg, Failures, s.pc, i, t.pc[i]);
    TotalMove(cfg, SucceededCost, s.pc, i, t.pc[i]);
    CostOfAppend(cfg, s.runIds, i);
  }

  lemma StepFlag(cfg: Config, s: State, i: nat, ok: bool)
    requires cfg.Valid() && Inv(cfg, s) && Enabled(s, i)
    ensures FlagJustified(cfg, Step(cfg, s, i, ok))
  {
    var t := Step(cfg, s, i, ok);
    StepRecords(cfg, s, i, ok);
    StepVerdict(cfg, s, i, ok);
    StepInformsSelf(cfg, s, i, ok);
    forall j: nat | j < |t.pc| && j != i ensures Informed(cfg, t, j) {
      StepInformsOther(cfg, s, i, ok, j);
    }
  }

  lemma StepVerdict(cfg: Config, s: State, i: nat, ok: bool)
    requires cfg.Valid() && Inv(cfg, s) && Enabled(s, i)
    ensures Justified(cfg, Step(cfg, s, i, ok))
  {
    var t := Step(cfg, s, i, ok);
    StepRecords(cfg, s, i, ok);
    CostOfPrefix(cfg, s.runIds, t.runIds);
    if s.pc[i].ClosingSession? {
      assert Informed(cfg, s, i);
      TotalMove(cfg, CheckedCost, s.pc, i, t.pc[i]);
    } else if cfg.budget.Some? && !t.exceeded {
      UncheckedStep(cfg, s, i, ok);
      TotalMove(cfg, CheckedCost, s.pc, i, t.pc[i]);
    }
  }

  /** In a budgeted pool under a clear flag, a processed run returns only from its own check. */
  lemma UncheckedStep(cfg: Config, s: State, i: nat, ok: bool)
    requires Enabled(s, i) && cfg.budget.Some? && !s.exceeded && !s.pc[i].ClosingSession?
    ensures Step(cfg, s, i, ok).pc[i] != Finished(Processed)
  {
  }

  lemma StepInformsOther(cfg: Config, s: State, i: nat, ok: bool, j: nat)
    requires cfg.Valid() && Inv(cfg, s) && Enabled(s, i) && j < |s.pc| && j != i
    ensures Step(cfg, s, i, ok).pc[j] == s.pc[j] && Informed(cfg, Step(cfg, s, i, ok), j)
  {
    var t := Step(cfg, s, i, ok);
    StepRecords(cfg, s, i, ok);
    if s.pc[j].InsideLock() {
      assert Informed(cfg, s, j) && s.lockOwner == Some(j) && !s.pc[i].InsideLock() && cfg.budget.Some?;
      CostOfPrefix(cfg, s.runIds, t.runIds);
      if !s.exceeded {
        UncheckedStep(cfg, s, i, ok);
      }
      TotalMove(cfg, CheckedCost, s.pc, i, t.pc[i]);
    }
  }

  lemma StepInformsSelf(cfg: Config, s: State, i: nat, ok: bool)
    requires cfg.Valid() && Inv(cfg, s) && Enabled(s, i)
    ensures Informed(cfg, Step(cfg, s, i, ok), i)
  {
    var t := Step(cfg, s, i, ok);
    TotalMove(cfg, CheckedCost, s.pc, i, t.pc[i]);
    match s.pc[i]
    case OpenSession =>
      SnapshotCoversChecked(cfg, s, i);
    case Querying(ids) =>
      assert Informed(cfg, s, i);
      CostOfPrefix(cfg, ids, s.runIds);
    case _ =>
  }

  /** The snapshot a check takes contains its own run and every run checked before. */
  lemma SnapshotCoversChecked(cfg: Config, s: State, i: nat)
    requires cfg.Valid() && CountsExact(cfg, s) && i < |s.pc| == |cfg.cost| && s.pc[i].InsideLock()
    ensures Total(cfg, CheckedCost, s.pc) + CostAt(cfg, i) <= CostOf(cfg, s.runIds)
  {
    var pc := s.pc[i := Finished(Processed)];
    TotalMove(cfg, CheckedCost, s.pc, i, Finished(Processed));
    TotalMove(cfg, SucceededCost, s.pc, i, Finished(Processed));
    TotalBelow(cfg, CheckedCost, SucceededCost, pc);
  }

  lemma StepOvershoot(cfg: Config, s: State, i: nat, ok: bool, top: nat)
    requires cfg.Valid() && Priced(cfg, top) && Inv(cfg, s) && WithinOvershoot(cfg, s, top) && Enabled(s, i)
    ensures WithinOvershoot(cfg, Step(cfg, s, i, ok), top)
  {
    var t := Step(cfg, s, i, ok);
    TotalMove(cfg, CommittedCost, s.pc, i, t.pc[i]);
    if s.pc[i].HoldsPermit? && !s.exceeded && cfg.budget.Some? {
      StepPermits(cfg, s, i, ok);
      StepFlag(cfg, s, i, ok);
      ClearFlagBound(cfg, t, top);
    }
  }

  lemma ScaleUp(c: nat, a: int, b: int)
    requires a <= b
    ensures c * a <= c * b
  {
  }

  /** Under a clear flag: checked runs within the allowance, all others behind a permit. */
  lemma ClearFlagBound(cfg: Config, s: State, top: nat)
    requires cfg.Valid() && Priced(cfg, top) && cfg.budget.Some? && !s.exceeded
    requires PermitsConserved(cfg, s) && FlagJustified(cfg, s)
    ensures Total(cfg, CheckedCost, s.pc) <= cfg.Allowance()
    ensures Total(cfg, InFlightCost, s.pc) <= top * cfg.workers
    ensures WithinOvershoot(cfg, s, top)
  {
    if forall i: nat :: i < |s.pc| ==> s.pc[i] != Finished(Processed) {
      TotalZero(cfg, CheckedCost, s.pc);
    }
    TotalScale(cfg, InFlightCost, top, InsidePermits, s.pc);
    ScaleUp(top, Total(cfg, InsidePermits, s.pc), cfg.workers);
    CommittedSplit(cfg, s.pc);
  }

  lemma StepKeepsInv(cfg: Config, s: State, i: nat, ok: bool)
    requires cfg.Valid() && Inv(cfg, s) && Enabled(s, i)
    ensures Inv(cfg, Step(cfg, s, i, ok))
  {
    StepPermits(cfg, s, i, ok);
    StepLock(cfg, s, i, ok);
    var t := Step(cfg, s, i, ok);
    StepRecords(cfg, s, i, ok);
    RecordsKeepLists(s, t, i);
    RecordsKeepCounts(cfg, s, t, i);
    StepFlag(cfg, s, i, ok);
  }

  // ---------------------------------------------------------------------------
  // Progress
  // ---------------------------------------------------------------------------

  /** Semaphore first, lock second: somebody can always move. */
  lemma NeverDeadlocks(cfg: Config, s: State)
    requires cfg.Valid() && PermitsConserved(cfg, s) && LockExclusive(cfg, s) && !Quiescent(s)
    ensures exists i: nat :: Enabled(s, i)
  {
    if forall i: nat :: !Enabled(s, i) {
      forall i: nat | i < |s.pc| ensures !s.pc[i].InsideLock() {
        assert !Enabled(s, i);
      }
      forall i: nat | i < |s.pc| ensures !s.pc[i].InsidePermit() {
        assert !Enabled(s, i);
      }
      TotalZero(cfg, InsidePermits, s.pc);
      var i: nat :| i < |s.pc| && !s.pc[i].Finished?;
      assert !Enabled(s, i);
    }
  }

  /** Every step uses up one of the finitely many steps left. */
  lemma StepDecreases(cfg: Config, s: State, i: nat, ok: bool)
    requires Enabled(s, i)
    ensures 0 <= Total(cfg, Steps, Step(cfg, s, i, ok).pc) < Total(cfg, Steps, s.pc)
  {
    var t := Step(cfg, s, i, ok);
    TotalMove(cfg, Steps, s.pc, i, t.pc[i]);
    StepsNonNegative(cfg, t.pc);
  }

  lemma {:induction false} StepsNonNegative(cfg: Config, pc: seq<Pc>)
    ensures 0 <= Total(cfg, Steps, pc)
  {
    if pc != [] {
      StepsNonNegative(cfg, pc[..|pc| - 1]);
    }
  }
}
