/** What every interleaving of the coordinator and the workers keeps
    (src/core/db/worker.c:136-226, 254-268, 796-817). */
module PhaseBarrier {
  import opened Common
  import opened Scheduler

  ghost predicate Next(cfg: Config, s: State, s': State) {
    exists step :: Enabled(cfg, s, step) && s' == After(cfg, s, step)
  }

  ghost predicate IsRun(cfg: Config, run: seq<State>) {
    && 0 < |run| && Init(cfg, run[0])
    && forall k :: 0 < k < |run| ==> Next(cfg, run[k - 1], run[k])
  }

  ghost predicate Entered(th: Thread) {
    !th.status.Waiting?
  }

  ghost predicate Left(th: Thread) {
    th.status.Closing? || th.status.Exited?
  }

  /** Once a worker has entered its critical section, every worker of an earlier phase has
      left its own. */
  ghost predicate Barrier(s: State) {
    forall t, u :: 0 <= t < |s.threads| && 0 <= u < |s.threads| ==>
      Entered(s.threads[t]) && s.threads[u].epoch < s.threads[t].epoch ==> Left(s.threads[u])
  }

  /** Later threads belong to later phases; a system has one thread in a phase. */
  ghost predicate EpochsGrow(s: State) {
    forall t, u :: 0 <= t < u < |s.threads| ==>
      && s.threads[t].epoch <= s.threads[u].epoch
      && (s.threads[t].sys == s.threads[u].sys ==> s.threads[t].epoch < s.threads[u].epoch)
  }

  ghost predicate Safe(cfg: Config, s: State) {
    Live(cfg, s) && Barrier(s) && EpochsGrow(s)
  }

  // ----- one step -----

  lemma StepKeepsLive(cfg: Config, s: State, step: Step)
    requires Live(cfg, s) && Enabled(cfg, s, step)
    ensures Live(cfg, After(cfg, s, step))
  {
    hide Live, After;
    if step.Create? {
      CreateKeepsLive(cfg, s);
    } else if ByWorker(step) {
      WorkerKeepsLive(cfg, s, step);
    } else {
      CoordinatorKeepsLive(cfg, s, step);
    }
  }

  /** Nothing of an earlier phase is waiting or inside when the mutex is free. */
  lemma LockFindsPhaseOver(cfg: Config, s: State, t: nat, u: nat)
    requires Live(cfg, s) && Enabled(cfg, s, Lock(t)) && u < |s.threads|
    requires s.threads[u].epoch < s.threads[t].epoch
    ensures Left(s.threads[u])
  {
    assert ThreadOk(cfg, s, t) && ThreadOk(cfg, s, u);
  }

  lemma StepKeepsBarrier(cfg: Config, s: State, step: Step)
    requires Safe(cfg, s) && Enabled(cfg, s, step)
    ensures Barrier(After(cfg, s, step))
  {
    hide SystemsOk, JoinedOk, EpochsGrow, Ops;
    var s' := After(cfg, s, step);
    forall t, u | 0 <= t < |s'.threads| && 0 <= u < |s'.threads|
                  && Entered(s'.threads[t]) && s'.threads[u].epoch < s'.threads[t].epoch
      ensures Left(s'.threads[u])
    {
      if t < |s.threads| {
        assert ThreadOk(cfg, s, t);
      }
      if step == Lock(t) {
        LockFindsPhaseOver(cfg, s, t, u);
      }
    }
  }

  lemma CreateKeepsEpochsGrow(cfg: Config, s: State)
    requires Safe(cfg, s) && Enabled(cfg, s, Create)
    ensures EpochsGrow(After(cfg, s, Create))
  {
    var s' := After(cfg, s, Create);
    assert SystemOk(cfg, s, s.pc.i);
    forall t | 0 <= t < |s.threads|
      ensures s.threads[t].epoch <= s.epoch && (s.threads[t].sys == s.pc.i ==> s.threads[t].epoch < s.epoch)
    {
      assert ThreadOk(cfg, s, t);
    }
  }

  lemma StepKeepsSafe(cfg: Config, s: State, step: Step)
    requires Safe(cfg, s) && Enabled(cfg, s, step)
    ensures Safe(cfg, After(cfg, s, step))
  {
    hide Live, Barrier, Ops, PhaseOf;
    StepKeepsLive(cfg, s, step);
    StepKeepsBarrier(cfg, s, step);
    if step.Create? {
      CreateKeepsEpochsGrow(cfg, s);
    }
  }

  // ----- every run -----

  /** Every state of every run is safe. */
  lemma {:induction false} RunIsSafe(cfg: Config, run: seq<State>, k: nat)
    requires IsRun(cfg, run) && k < |run|
    ensures Safe(cfg, run[k])
  {
    if k == 0 {
      InitLive(cfg, run[0]);
    } else {
      RunIsSafe(cfg, run, k - 1);
      assert Next(cfg, run[k - 1], run[k]);
      var step :| Enabled(cfg, run[k - 1], step) && run[k] == After(cfg, run[k - 1], step);
      StepKeepsSafe(cfg, run[k - 1], step);
    }
  }

  /** No worker of a phase has entered its critical section while a worker of an earlier
      phase is still to enter or to leave its own. */
  lemma PhasesDoNotOverlap(cfg: Config, run: seq<State>, k: nat, t: nat, u: nat)
    requires IsRun(cfg, run) && k < |run|
    requires t < |run[k].threads| && u < |run[k].threads|
    requires run[k].threads[u].epoch < run[k].threads[t].epoch
    ensures run[k].threads[t].status.Waiting? || Left(run[k].threads[u])
  {
    RunIsSafe(cfg, run, k);
  }

  /** A new worker finds no live worker of its system and no worker of a later phase. */
  lemma OneLiveWorker(cfg: Config, run: seq<State>, k: nat, t: nat)
    requires IsRun(cfg, run) && k < |run|
    requires Enabled(cfg, run[k], Create) && t < |run[k].threads|
    ensures run[k].threads[t].sys == run[k].pc.i ==> run[k].threads[t].status.Exited?
    ensures run[k].threads[t].epoch <= run[k].epoch
  {
    var s := run[k];
    RunIsSafe(cfg, run, k);
    assert ThreadOk(cfg, s, t) && SystemOk(cfg, s, s.pc.i);
  }

  /** A join waits for the thread spawned for that system in this very phase, and no thread
      is joined twice. */
  lemma JoinsOwnPhaseOnce(cfg: Config, run: seq<State>, k: nat)
    requires IsRun(cfg, run) && k < |run| && run[k].pc.InJoin?
    ensures
      && Shape(cfg, run[k])
      && run[k].handle[run[k].pc.i].Some?
      && var t := run[k].handle[run[k].pc.i].value;
         t < |run[k].threads| && t !in run[k].joined
         && run[k].threads[t].sys == run[k].pc.i && run[k].threads[t].epoch == run[k].epoch
  {
    RunIsSafe(cfg, run, k);
    assert SystemOk(cfg, run[k], run[k].pc.i);
  }

  /** The failure flag of a system goes up only, and only in a step of the worker of that
      system that holds the mutex. */
  lemma FlagNeedsMutex(cfg: Config, run: seq<State>, k: nat, i: nat)
    requires IsRun(cfg, run) && k + 1 < |run| && i < |cfg.systems|
    ensures |run[k].failure| == |run[k + 1].failure| == |cfg.systems|
    ensures run[k].failure[i] ==> run[k + 1].failure[i]
    ensures !run[k].failure[i] && run[k + 1].failure[i] ==>
              && run[k].mutex.Some? && run[k].mutex == run[k + 1].mutex
              && run[k].mutex.value < |run[k].threads|
              && run[k].threads[run[k].mutex.value].sys == i
  {
    hide Ops, PhaseOf;
    RunIsSafe(cfg, run, k);
    assert Next(cfg, run[k + 1 - 1], run[k + 1]);
    var step :| Enabled(cfg, run[k], step) && run[k + 1] == After(cfg, run[k], step);
    if step.RunOp? || step.LoadFile? {
      assert ThreadOk(cfg, run[k], step.t);
    }
  }

  /** The exit that keeps the mutex locked (line 268) is never taken: a worker that gets the
      mutex finds its flag down. */
  lemma NeverStuck(cfg: Config, run: seq<State>, k: nat, t: nat)
    requires IsRun(cfg, run) && k < |run| && t < |run[k].threads|
    ensures !run[k].threads[t].status.Stuck?
    ensures Enabled(cfg, run[k], Lock(t)) ==> !run[k].failure[run[k].threads[t].sys]
  {
    RunIsSafe(cfg, run, k);
    assert ThreadOk(cfg, run[k], t);
  }
}
