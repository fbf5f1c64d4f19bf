/** Every phase and every cycle of the scheduler comes to an end
    (src/core/db/worker.c:132-237, 254-268, 408-817). */
module SchedulerProgress {
  import opened Common
  import opened PhaseBarrier
  import opened Scheduler

  /** The coordinator has finished the workflow or left its loop. */
  ghost predicate AtRest(s: State) {
    s.pc.Resting? || s.pc.Stopped?
  }

  // ----- no deadlock -----

  lemma WorkerCanStep(cfg: Config, s: State, t: nat)
    requires Live(cfg, s) && t < |s.threads| && s.threads[t].Inside()
    ensures
      || Enabled(cfg, s, LoadFile(t, true))
      || Enabled(cfg, s, RunOp(t, true)) || Enabled(cfg, s, NextQuery(t)) || Enabled(cfg, s, Unlock(t))
  {
    hide Ops, PhaseOf, SystemOk;
    assert ThreadOk(cfg, s, t);
  }

  /** As long as a thread has not ended, some worker can step. */
  lemma LiveThreadMeansWork(cfg: Config, s: State, t: nat)
    requires Live(cfg, s) && t < |s.threads| && !s.threads[t].status.Exited?
    ensures exists step :: Enabled(cfg, s, step) && ByWorker(step)
  {
    hide Ops, PhaseOf, SystemOk, HasOp, AtEndOfQuery;
    assert ThreadOk(cfg, s, t);
    if s.mutex.Some? {
      var u := s.mutex.value;
      WorkerCanStep(cfg, s, u);
      var step := if Enabled(cfg, s, LoadFile(u, true)) then LoadFile(u, true)
                  else if Enabled(cfg, s, RunOp(u, true)) then RunOp(u, true)
                  else if Enabled(cfg, s, NextQuery(u)) then NextQuery(u) else Unlock(u);
      assert Enabled(cfg, s, step) && ByWorker(step);
    } else {
      var step := if s.threads[t].status.Waiting? then Lock(t) else Exit(t);
      assert Enabled(cfg, s, step) && ByWorker(step);
    }
  }

  /** Until the coordinator rests, somebody can step: a join never waits for a worker that
      waits for ever. */
  lemma NoDeadlock(cfg: Config, s: State)
    requires Live(cfg, s) && !AtRest(s)
    ensures exists step :: Enabled(cfg, s, step)
  {
    hide Ops, PhaseOf, HasOp, AtEndOfQuery;
    match s.pc
    case Spawning(i) =>
      assert Enabled(cfg, s, if i < |cfg.systems| then CheckSpawn else EndSpawns);
    case Creating(i) =>
      assert Enabled(cfg, s, Create);
    case Joining(i) =>
      assert Enabled(cfg, s, if i < |cfg.systems| then CheckJoin else EndJoins);
    case InJoin(i) =>
      assert SystemOk(cfg, s, i);
      if Finished(s, i) {
        assert Enabled(cfg, s, Join);
      } else {
        LiveThreadMeansWork(cfg, s, s.handle[i].value);
      }
  }

  // ----- no run without end -----

  /** What a worker of the phase still has to do from query q on. */
  ghost function QueryWork(queries: seq<Query>, p: Phase, q: nat): nat
    decreases |queries| - q
  {
    if q < |queries| then |Ops(queries[q], p)| + 1 + QueryWork(queries, p, q + 1) else 0
  }

  ghost function ThreadWork(cfg: Config, th: Thread): (r: int)
    requires th.sys < |cfg.systems|
    ensures StatusOk(cfg, th) ==> 0 <= r
  {
    var queries := cfg.systems[th.sys].queries;
    match th.status
    case Waiting => 4 + QueryWork(queries, PhaseOf(th.epoch), 0)
    case Preloading => 3 + QueryWork(queries, PhaseOf(th.epoch), 0)
    case Running(q, k) => 2 + if q < |queries| then QueryWork(queries, PhaseOf(th.epoch), q) - k else 0
    case Closing => 1
    case Exited => 0
    case Stuck => 0
  }

  ghost function Work(cfg: Config, threads: seq<Thread>): (r: int)
    requires forall t :: 0 <= t < |threads| ==> threads[t].sys < |cfg.systems|
    ensures (forall t :: 0 <= t < |threads| ==> StatusOk(cfg, threads[t])) ==> 0 <= r
  {
    if threads == [] then 0 else Work(cfg, threads[..|threads| - 1]) + ThreadWork(cfg, threads[|threads| - 1])
  }

  lemma {:induction false} WorkAfterUpdate(cfg: Config, threads: seq<Thread>, t: nat, th: Thread)
    requires forall u :: 0 <= u < |threads| ==> threads[u].sys < |cfg.systems|
    requires t < |threads| && th.sys < |cfg.systems|
    ensures Work(cfg, threads[t := th]) == Work(cfg, threads) - ThreadWork(cfg, threads[t]) + ThreadWork(cfg, th)
  {
    hide ThreadWork;
    var last := |threads| - 1;
    if t == last {
      assert threads[t := th][..last] == threads[..last];
    } else {
      WorkAfterUpdate(cfg, threads[..last], t, th);
      assert threads[t := th][..last] == threads[..last][t := th];
    }
  }

  /** The steps the coordinator still takes before it rests. */
  ghost function CoordinatorWork(cfg: Config, s: State): (r: nat)
    requires Shape(cfg, s)
  {
    var n := |cfg.systems|;
    var later := if AtRest(s) then 0 else (2 - s.epoch % 3) * (4 * n + 4);
    later + match s.pc
            case Spawning(i) => 4 * n + 3 - 2 * i
            case Creating(i) => 4 * n + 2 - 2 * i
            case Joining(i) => 2 * n + 2 - 2 * i
            case InJoin(i) => 2 * n + 1 - 2 * i
            case Resting => 0
            case Stopped(_) => 0
  }

  lemma CoordinatorProgress(cfg: Config, s: State, step: Step)
    requires Live(cfg, s) && Enabled(cfg, s, step) && !AtRest(s) && ByCoordinator(step)
    ensures Shape(cfg, After(cfg, s, step)) && CoordinatorWork(cfg, After(cfg, s, step)) < CoordinatorWork(cfg, s)
  {
    StepKeepsLive(cfg, s, step);
  }

  lemma ShapeOfLive(cfg: Config, s: State)
    requires Live(cfg, s)
    ensures Shape(cfg, s)
  {
  }

  lemma WorkerFrame(cfg: Config, s: State, step: Step)
    requires Live(cfg, s) && Enabled(cfg, s, step) && ByWorker(step)
    ensures
      var s' := After(cfg, s, step);
      && |s'.threads| == |s.threads| && s'.threads == s.threads[step.t := s'.threads[step.t]]
      && s'.threads[step.t].sys == s.threads[step.t].sys && s'.threads[step.t].epoch == s.threads[step.t].epoch
      && s'.pc == s.pc && s'.epoch == s.epoch
  {
    hide Ops, PhaseOf, ThreadsOk, SystemsOk, JoinedOk;
  }

  lemma ThreadProgress(cfg: Config, s: State, step: Step)
    requires Live(cfg, s) && Enabled(cfg, s, step) && ByWorker(step)
    ensures
      var s' := After(cfg, s, step);
      && step.t < |s'.threads| && s'.threads[step.t].sys < |cfg.systems|
      && ThreadWork(cfg, s'.threads[step.t]) < ThreadWork(cfg, s.threads[step.t])
  {
    hide SystemsOk, JoinedOk, PhaseOf, Ops;
    assert ThreadOk(cfg, s, step.t);
  }

  lemma WorkerProgress(cfg: Config, s: State, step: Step)
    requires Live(cfg, s) && Enabled(cfg, s, step) && ByWorker(step)
    ensures Shape(cfg, After(cfg, s, step)) && CoordinatorWork(cfg, After(cfg, s, step)) == CoordinatorWork(cfg, s)
    ensures Work(cfg, After(cfg, s, step).threads) < Work(cfg, s.threads)
  {
    hide After, Live, Work, ThreadWork;
    var s' := After(cfg, s, step);
    assert Shape(cfg, s') by {
      StepKeepsLive(cfg, s, step);
      ShapeOfLive(cfg, s');
    }
    WorkerFrame(cfg, s, step);
    assert Work(cfg, s'.threads) < Work(cfg, s.threads) by {
      ThreadProgress(cfg, s, step);
      WorkAfterUpdate(cfg, s.threads, step.t, s'.threads[step.t]);
    }
  }

  lemma WorkIsNat(cfg: Config, s: State)
    requires Live(cfg, s)
    ensures 0 <= Work(cfg, s.threads)
  {
    forall t | 0 <= t < |s.threads|
      ensures StatusOk(cfg, s.threads[t])
    {
      assert ThreadOk(cfg, s, t);
    }
  }

  /** A schedule says who steps next; it may look at the whole state and trace. */
  ghost predicate IsSchedule(cfg: Config, pick: State -> Step) {
    forall s :: Live(cfg, s) && !AtRest(s) ==> Enabled(cfg, s, pick(s))
  }

  ghost function SomeStep(cfg: Config, s: State): (step: Step)
    requires Live(cfg, s) && !AtRest(s)
    ensures Enabled(cfg, s, step)
  {
    NoDeadlock(cfg, s);
    var step :| Enabled(cfg, s, step);
    step
  }

  lemma SchedulesExist(cfg: Config)
    ensures exists pick: State -> Step :: IsSchedule(cfg, pick)
  {
    var pick := (s: State) => if Live(cfg, s) && !AtRest(s) then SomeStep(cfg, s) else Stop;
    assert IsSchedule(cfg, pick);
  }

  /** One step lowers the work that is left. */
  lemma StepProgress(cfg: Config, s: State, step: Step)
    requires Live(cfg, s) && Enabled(cfg, s, step) && !AtRest(s)
    ensures
      var s' := After(cfg, s, step);
      && Live(cfg, s') && 0 <= Work(cfg, s.threads)
      && (CoordinatorWork(cfg, s') < CoordinatorWork(cfg, s)
          || (CoordinatorWork(cfg, s') == CoordinatorWork(cfg, s) && Work(cfg, s'.threads) < Work(cfg, s.threads)))
  {
    hide Live, After, Enabled, Work, CoordinatorWork;
    StepKeepsLive(cfg, s, step);
    ShapeOfLive(cfg, s);
    ShapeOfLive(cfg, After(cfg, s, step));
    WorkIsNat(cfg, s);
    if ByWorker(step) {
      WorkerProgress(cfg, s, step);
    } else {
      CoordinatorProgress(cfg, s, step);
    }
  }

  /** The coordinator is not at rest, and the next step is the one the schedule picks. */
  ghost predicate Follows(cfg: Config, pick: State -> Step, s: State, s': State) {
    !AtRest(s) && Enabled(cfg, s, pick(s)) && s' == After(cfg, s, pick(s))
  }

  /** Following a schedule from `s`: the run goes where the schedule says, and ends at rest. */
  lemma {:induction false} RunToRest(cfg: Config, pick: State -> Step, s: State) returns (run: seq<State>)
    requires Live(cfg, s) && IsSchedule(cfg, pick)
    ensures run != [] && run[0] == s && AtRest(run[|run| - 1])
    ensures forall k :: 0 <= k < |run| ==> Live(cfg, run[k])
    ensures forall k :: 0 < k < |run| ==> Follows(cfg, pick, run[k - 1], run[k])
    decreases CoordinatorWork(cfg, s), Work(cfg, s.threads)
  {
    hide Live, After, Enabled, Work, CoordinatorWork, AtRest;
    if AtRest(s) {
      return [s];
    }
    StepProgress(cfg, s, pick(s));
    var rest := RunToRest(cfg, pick, After(cfg, s, pick(s)));
    run := [s] + rest;
  }

  // ----- every interleaving -----

  /** A run without end, in which any thread may step at any time. */
  ghost predicate Endless(cfg: Config, run: nat -> State) {
    forall i: nat :: Next(cfg, run(i), run(i + 1))
  }

  /** From every state of it on, the coordinator comes to rest. */
  lemma {:induction false} RestsFrom(cfg: Config, run: nat -> State, i: nat) returns (k: nat)
    requires Endless(cfg, run) && Live(cfg, run(i))
    ensures i <= k && AtRest(run(k)) && Live(cfg, run(k))
    decreases CoordinatorWork(cfg, run(i)), Work(cfg, run(i).threads)
  {
    hide Live, After, Enabled, Work, CoordinatorWork, AtRest;
    if AtRest(run(i)) {
      return i;
    }
    assert Next(cfg, run(i), run(i + 1));
    var step :| Enabled(cfg, run(i), step) && run(i + 1) == After(cfg, run(i), step);
    StepProgress(cfg, run(i), step);
    k := RestsFrom(cfg, run, i + 1);
  }

  ghost predicate RestsAt(run: nat -> State, k: nat) {
    AtRest(run(k))
  }

  ghost predicate ComesToRest(run: nat -> State, i: nat) {
    exists k: nat :: i <= k && RestsAt(run, k)
  }

  lemma {:induction false} StaysLive(cfg: Config, run: nat -> State, i: nat)
    requires Endless(cfg, run) && Init(cfg, run(0))
    ensures Live(cfg, run(i))
  {
    hide Live, After, Enabled;
    if i == 0 {
      InitLive(cfg, run(0));
    } else {
      StaysLive(cfg, run, i - 1);
      assert Next(cfg, run(i - 1), run(i - 1 + 1));
      var step :| Enabled(cfg, run(i - 1), step) && run(i) == After(cfg, run(i - 1), step);
      StepKeepsLive(cfg, run(i - 1), step);
    }
  }

  /** No interleaving, however unfair, keeps a cycle from ending. */
  lemma CyclesEnd(cfg: Config, run: nat -> State)
    requires Endless(cfg, run) && Init(cfg, run(0))
    ensures forall i: nat :: ComesToRest(run, i)
  {
    hide Init, Endless, AtRest;
    forall i: nat
      ensures ComesToRest(run, i)
    {
      StaysLive(cfg, run, i);
      var k := RestsFrom(cfg, run, i);
      assert RestsAt(run, k);
    }
  }
}
