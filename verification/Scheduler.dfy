/** The ETL/ELT phase scheduler (src/core/db/worker.c): one coordinator, one worker thread
    per system and phase, one mutex, as a transition system. Connections open, and no flat
    file has a preprocessor. */
module Scheduler {
  import opened Common

  datatype Mode = ETL | ELT

  datatype Query = Query(mode: Mode, hasTransform: bool)

  /** A source system: its queries, and whether it has a flat file. */
  datatype System = System(queries: seq<Query>, flatFile: bool)

  datatype Config = Config(systems: seq<System>)

  datatype Phase = Extract | Transform | Load

  datatype Kind =
    | ExtractInserted | ExtractDeleted | ExtractModified
    | TransformInserted | TransformDeleted | TransformModified
    | LoadInserted | LoadDeleted | LoadModified

  /** Phases are numbered through all cycles, three to a cycle. */
  function PhaseOf(epoch: nat): Phase {
    if epoch % 3 == 0 then Extract else if epoch % 3 == 1 then Transform else Load
  }

  const EXTRACTS: seq<Kind> := [ExtractInserted, ExtractDeleted, ExtractModified]
  const TRANSFORMS: seq<Kind> := [TransformInserted, TransformDeleted, TransformModified]
  const LOADS: seq<Kind> := [LoadInserted, LoadDeleted, LoadModified]

  /** What a worker of the phase does for a query: the second and third phase are Transform
      and Load in ETL mode, and the other way round in ELT mode; transforming is optional. */
  function Ops(q: Query, p: Phase): seq<Kind> {
    match p
    case Extract => EXTRACTS
    case Transform => if q.mode == ETL then (if q.hasTransform then TRANSFORMS else []) else LOADS
    case Load => if q.mode == ETL then LOADS else (if q.hasTransform then TRANSFORMS else [])
  }

  // ----- states -----

  datatype Status =
    | Waiting                          // created, has not locked the mutex yet
    | Preloading                       // in its critical section, before loading the flat file
    | Running(query: nat, op: nat)     // in its critical section, before this operation
    | Closing                          // has unlocked the mutex
    | Exited
    | Stuck                            // exited on the failure flag without unlocking

  /** A worker: its system, its phase, how far it is, and whether it loaded the flat file. */
  datatype Thread = Thread(sys: nat, epoch: nat, status: Status, preload: Option<bool>)
  {
    predicate Inside() { status.Preloading? || status.Running? }
  }

  datatype Coordinator =
    | Spawning(i: nat)     // about to look at the flag of system i
    | Creating(i: nat)     // found no failure: about to create its thread
    | Joining(i: nat)      // about to look at the flag of system i
    | InJoin(i: nat)       // found no failure: in pthread_join
    | Resting              // the workflow is finished
    | Stopped(i: nat)      // left the loop; systems from i on were not given a thread

  datatype Event =
    | Preload(thread: nat, sys: nat, epoch: nat, ok: bool)
    | Operation(thread: nat, sys: nat, epoch: nat, ok: bool, query: nat, kind: Kind)

  datatype State = State(
    epoch: nat,
    pc: Coordinator,
    threads: seq<Thread>,            // every thread ever created
    handle: seq<Option<nat>>,        // w_watcher_thread: the last thread of each system
    failure: seq<bool>,
    mutex: Option<nat>,              // the thread that holds it
    joined: set<nat>,
    trace: seq<Event>)

  ghost predicate Init(cfg: Config, s: State) {
    var n := |cfg.systems|;
    s == State(0, Spawning(0), [], seq(n, _ => None), seq(n, _ => false), None, {}, [])
  }

  datatype Step =
    | CheckSpawn | Create | CreateFails | EndSpawns
    | CheckJoin | Join | EndJoins
    | Again | Stop
    | Lock(t: nat) | LoadFile(t: nat, ok: bool) | RunOp(t: nat, ok: bool) | NextQuery(t: nat)
    | Unlock(t: nat) | Exit(t: nat)

  ghost predicate Enabled(cfg: Config, s: State, step: Step) {
    && Shape(cfg, s)
    && match step
       case CheckSpawn => s.pc.Spawning? && s.pc.i < |cfg.systems|
       case Create => s.pc.Creating?
       case CreateFails => s.pc.Creating?
       case EndSpawns => s.pc == Spawning(|cfg.systems|)
       case CheckJoin => s.pc.Joining? && s.pc.i < |cfg.systems|
       case Join => s.pc.InJoin? && Finished(s, s.pc.i)
       case EndJoins => s.pc == Joining(|cfg.systems|)
       case Again => s.pc.Resting?
       case Stop => s.pc.Resting?
       case Lock(t) => t < |s.threads| && s.threads[t].status.Waiting? && s.mutex.None?
       case LoadFile(t, _) => t < |s.threads| && s.threads[t].status.Preloading?
       case RunOp(t, _) => InSection(cfg, s, t) && HasOp(cfg, s.threads[t])
       case NextQuery(t) => InSection(cfg, s, t) && AtEndOfQuery(cfg, s.threads[t])
       case Unlock(t) => InSection(cfg, s, t) && s.threads[t].status.query == |cfg.systems[s.threads[t].sys].queries|
       case Exit(t) => t < |s.threads| && s.threads[t].status.Closing?
  }

  /** The thread a join of system i waits for has ended. */
  ghost predicate Finished(s: State, i: nat)
    requires i < |s.handle|
  {
    s.handle[i].Some? && s.handle[i].value < |s.threads|
    && (s.threads[s.handle[i].value].status.Exited? || s.threads[s.handle[i].value].status.Stuck?)
  }

  ghost predicate InSection(cfg: Config, s: State, t: nat) {
    t < |s.threads| && s.threads[t].status.Running? && s.threads[t].sys < |cfg.systems|
  }

  ghost predicate HasOp(cfg: Config, th: Thread)
    requires th.status.Running? && th.sys < |cfg.systems|
  {
    var queries := cfg.systems[th.sys].queries;
    th.status.query < |queries| && th.status.op < |Ops(queries[th.status.query], PhaseOf(th.epoch))|
  }

  ghost predicate AtEndOfQuery(cfg: Config, th: Thread)
    requires th.status.Running? && th.sys < |cfg.systems|
  {
    var queries := cfg.systems[th.sys].queries;
    th.status.query < |queries| && th.status.op == |Ops(queries[th.status.query], PhaseOf(th.epoch))|
  }

  ghost function SetStatus(s: State, t: nat, status: Status): State
    requires t < |s.threads|
  {
    s.(threads := s.threads[t := s.threads[t].(status := status)])
  }

  /** A worker that loads the flat file. */
  ghost predicate Preloads(cfg: Config, th: Thread)
    requires th.sys < |cfg.systems|
  {
    cfg.systems[th.sys].flatFile && PhaseOf(th.epoch) == Extract
  }

  /** Where a worker stands once it has the mutex: an Extract worker loads the flat file first. */
  ghost function LockedStatus(cfg: Config, s: State, th: Thread): Status
    requires Shape(cfg, s) && th.sys < |cfg.systems|
  {
    if s.failure[th.sys] then Stuck
    else if Preloads(cfg, th) then Preloading
    else Running(0, 0)
  }

  /** Loading the flat file sets the flag, up or down; a file that cannot be loaded makes the
      worker skip all queries. */
  ghost function AfterLoadFile(cfg: Config, s: State, t: nat, ok: bool): State
    requires Shape(cfg, s) && t < |s.threads|
  {
    var th := s.threads[t];
    var status := if ok then Running(0, 0) else Running(|cfg.systems[th.sys].queries|, 0);
    s.(threads := s.threads[t := th.(status := status, preload := Some(ok))],
       trace := s.trace + [Preload(t, th.sys, th.epoch, ok)],
       failure := s.failure[th.sys := !ok])
  }

  ghost function After(cfg: Config, s: State, step: Step): State
    requires Enabled(cfg, s, step)
  {
    match step
    case CheckSpawn => s.(pc := if s.failure[s.pc.i] then Spawning(s.pc.i + 1) else Creating(s.pc.i))
    case Create =>
      s.(threads := s.threads + [Thread(s.pc.i, s.epoch, Waiting, None)],
         handle := s.handle[s.pc.i := Some(|s.threads|)],
         pc := Spawning(s.pc.i + 1))
    case CreateFails => s.(pc := Stopped(s.pc.i))
    case EndSpawns => s.(pc := Joining(0))
    case CheckJoin => s.(pc := if s.failure[s.pc.i] then Joining(s.pc.i + 1) else InJoin(s.pc.i))
    case Join => s.(pc := Joining(s.pc.i + 1), joined := s.joined + {s.handle[s.pc.i].value})
    case EndJoins => if PhaseOf(s.epoch) == Load then s.(pc := Resting) else s.(pc := Spawning(0), epoch := s.epoch + 1)
    case Again => s.(pc := Spawning(0), epoch := s.epoch + 1)
    case Stop => s.(pc := Stopped(|cfg.systems|))
    case Lock(t) => SetStatus(s, t, LockedStatus(cfg, s, s.threads[t])).(mutex := Some(t))
    case LoadFile(t, ok) => AfterLoadFile(cfg, s, t, ok)
    case RunOp(t, ok) => AfterOp(cfg, s, t, ok)
    case NextQuery(t) => SetStatus(s, t, Running(s.threads[t].status.query + 1, 0))
    case Unlock(t) => SetStatus(s, t, Closing).(mutex := None)
    case Exit(t) => SetStatus(s, t, Exited)
  }

  /** An operation that fails raises the flag, and the rest of its query is skipped. */
  ghost function AfterOp(cfg: Config, s: State, t: nat, ok: bool): State
    requires Shape(cfg, s) && InSection(cfg, s, t) && HasOp(cfg, s.threads[t])
  {
    var th := s.threads[t];
    var q, k := th.status.query, th.status.op;
    var event := Operation(t, th.sys, th.epoch, ok, q, Ops(cfg.systems[th.sys].queries[q], PhaseOf(th.epoch))[k]);
    var next := SetStatus(s, t, if ok then Running(q, k + 1) else Running(q + 1, 0));
    next.(trace := s.trace + [event], failure := if ok then s.failure else s.failure[th.sys := true])
  }

  // ----- the invariant -----

  ghost predicate Shape(cfg: Config, s: State) {
    var n := |cfg.systems|;
    && |s.handle| == n && |s.failure| == n
    && (forall t :: 0 <= t < |s.threads| ==> s.threads[t].sys < n)
    && match s.pc
       case Spawning(i) => i <= n
       case Creating(i) => i < n && !s.failure[i]
       case Joining(i) => i <= n
       case InJoin(i) => i < n
       case Resting => true
       case Stopped(i) => i <= n
  }

  /** System i has not been looked at in this phase yet. */
  ghost predicate YetToSpawn(s: State, i: nat) {
    match s.pc
    case Spawning(j) => j <= i
    case Creating(j) => j <= i
    case Stopped(j) => j <= i
    case _ => false
  }

  /** System i is past its join in this phase. */
  ghost predicate PastJoin(s: State, i: nat) {
    match s.pc
    case Joining(j) => i < j
    case InJoin(j) => i < j
    case Resting => true
    case Stopped(j) => j == |s.failure|
    case _ => false
  }

  /** A worker that is past loading the flat file. */
  ghost predicate Begun(th: Thread) {
    !th.status.Waiting? && !th.status.Preloading?
  }

  ghost predicate StatusOk(cfg: Config, th: Thread)
    requires th.sys < |cfg.systems|
  {
    var queries := cfg.systems[th.sys].queries;
    && !th.status.Stuck?
    && (th.status.Preloading? ==> Preloads(cfg, th))
    && (th.preload.Some? <==> Preloads(cfg, th) && Begun(th))
    && (th.status.Running? ==>
          && th.status.query <= |queries|
          && (th.preload == Some(false) ==> th.status.query == |queries|)
          && (th.status.query < |queries| ==> th.status.op <= |Ops(queries[th.status.query], PhaseOf(th.epoch))|))
  }

  ghost predicate ThreadOk(cfg: Config, s: State, t: nat)
    requires Shape(cfg, s) && t < |s.threads|
  {
    var th := s.threads[t];
    && th.sys < |cfg.systems| && th.epoch <= s.epoch && StatusOk(cfg, th)
    && s.handle[th.sys].Some? && t <= s.handle[th.sys].value
    && (t < s.handle[th.sys].value ==> th.status.Exited?)
    && (th.Inside() <==> s.mutex == Some(t))
    && (th.status.Waiting? || th.status.Preloading? ==> !s.failure[th.sys] && th.epoch == s.epoch)
    && (th.preload == Some(false) ==> s.failure[th.sys])
    && (th.status.Running? && th.epoch < s.epoch ==> s.failure[th.sys])
  }

  ghost predicate SystemOk(cfg: Config, s: State, i: nat)
    requires Shape(cfg, s) && i < |cfg.systems|
  {
    match s.handle[i]
    case None => !s.failure[i] && s.epoch == 0 && YetToSpawn(s, i)
    case Some(h) =>
      && h < |s.threads| && s.threads[h].sys == i
      && (s.pc == InJoin(i) ==> s.threads[h].epoch == s.epoch)
      && (!s.failure[i] ==>
            if YetToSpawn(s, i) then s.threads[h].epoch + 1 == s.epoch && s.threads[h].status.Exited?
            else s.threads[h].epoch == s.epoch && (PastJoin(s, i) ==> s.threads[h].status.Exited?))
  }

  ghost predicate MutexOk(s: State) {
    s.mutex.Some? ==> s.mutex.value < |s.threads| && s.threads[s.mutex.value].Inside()
  }

  ghost predicate JoinedOk(s: State) {
    forall t :: t in s.joined ==>
      t < |s.threads| && (s.pc.Stopped? || s.threads[t].epoch < s.epoch || PastJoin(s, s.threads[t].sys))
  }

  ghost predicate ThreadsOk(cfg: Config, s: State)
    requires Shape(cfg, s)
  {
    forall t :: 0 <= t < |s.threads| ==> ThreadOk(cfg, s, t)
  }

  ghost predicate SystemsOk(cfg: Config, s: State)
    requires Shape(cfg, s)
  {
    forall i :: 0 <= i < |cfg.systems| ==> SystemOk(cfg, s, i)
  }

  /** The invariant about threads and the coordinator. */
  ghost predicate Live(cfg: Config, s: State) {
    Shape(cfg, s) && ThreadsOk(cfg, s) && SystemsOk(cfg, s) && MutexOk(s) && JoinedOk(s)
  }

  lemma InitLive(cfg: Config, s: State)
    requires Init(cfg, s)
    ensures Live(cfg, s)
  {
  }

  // ----- the coordinator keeps it -----

  ghost predicate ByCoordinator(step: Step) {
    step.CheckSpawn? || step.Create? || step.CreateFails? || step.EndSpawns?
    || step.CheckJoin? || step.Join? || step.EndJoins? || step.Again? || step.Stop?
  }

  lemma CoordinatorKeepsThreads(cfg: Config, s: State, step: Step, t: nat)
    requires Live(cfg, s) && Enabled(cfg, s, step) && ByCoordinator(step) && !step.Create?
    requires t < |s.threads|
    ensures Shape(cfg, After(cfg, s, step)) && ThreadOk(cfg, After(cfg, s, step), t)
  {
    assert ThreadOk(cfg, s, t);
    assert SystemOk(cfg, s, s.threads[t].sys);
  }

  lemma CoordinatorKeepsSystems(cfg: Config, s: State, step: Step, i: nat)
    requires Live(cfg, s) && Enabled(cfg, s, step) && ByCoordinator(step) && !step.Create?
    requires i < |cfg.systems|
    ensures Shape(cfg, After(cfg, s, step)) && SystemOk(cfg, After(cfg, s, step), i)
  {
    assert SystemOk(cfg, s, i);
    if s.handle[i].Some? {
      assert ThreadOk(cfg, s, s.handle[i].value);
    }
  }

  lemma CoordinatorKeepsJoined(cfg: Config, s: State, step: Step)
    requires Live(cfg, s) && Enabled(cfg, s, step) && ByCoordinator(step) && !step.Create?
    ensures JoinedOk(After(cfg, s, step))
  {
    var s' := After(cfg, s, step);
    if step.Join? {
      assert SystemOk(cfg, s, s.pc.i);
    }
    forall t | t in s'.joined
      ensures t < |s'.threads| && (s'.pc.Stopped? || s'.threads[t].epoch < s'.epoch || PastJoin(s', s'.threads[t].sys))
    {
      if t in s.joined {
        assert ThreadOk(cfg, s, t);
      }
    }
  }

  lemma CoordinatorKeepsLive(cfg: Config, s: State, step: Step)
    requires Live(cfg, s) && Enabled(cfg, s, step) && ByCoordinator(step) && !step.Create?
    ensures Live(cfg, After(cfg, s, step))
  {
    hide ThreadOk, SystemOk, PastJoin, YetToSpawn;
    var s' := After(cfg, s, step);
    forall t | 0 <= t < |s'.threads|
      ensures Shape(cfg, s') && ThreadOk(cfg, s', t)
    {
      CoordinatorKeepsThreads(cfg, s, step, t);
    }
    forall i | 0 <= i < |cfg.systems|
      ensures Shape(cfg, s') && SystemOk(cfg, s', i)
    {
      CoordinatorKeepsSystems(cfg, s, step, i);
    }
    CoordinatorKeepsJoined(cfg, s, step);
  }

  lemma CreateKeepsLive(cfg: Config, s: State)
    requires Live(cfg, s) && Enabled(cfg, s, Create)
    ensures Live(cfg, After(cfg, s, Create))
  {
    var s' := After(cfg, s, Create);
    assert Shape(cfg, s');
    assert SystemOk(cfg, s, s.pc.i);
    forall t | 0 <= t < |s'.threads|
      ensures ThreadOk(cfg, s', t)
    {
      if t < |s.threads| {
        assert ThreadOk(cfg, s, t);
      }
    }
    forall i | 0 <= i < |cfg.systems|
      ensures SystemOk(cfg, s', i)
    {
      assert SystemOk(cfg, s, i);
    }
  }

  // ----- the workers keep it -----

  ghost predicate ByWorker(step: Step) {
    step.Lock? || step.LoadFile? || step.RunOp? || step.NextQuery? || step.Unlock? || step.Exit?
  }

  lemma WorkerKeepsItself(cfg: Config, s: State, step: Step)
    requires Live(cfg, s) && Enabled(cfg, s, step) && ByWorker(step)
    ensures Shape(cfg, After(cfg, s, step)) && ThreadOk(cfg, After(cfg, s, step), step.t)
  {
    assert ThreadOk(cfg, s, step.t);
    assert SystemOk(cfg, s, s.threads[step.t].sys);
  }

  lemma WorkerKeepsOther(cfg: Config, s: State, step: Step, u: nat)
    requires Live(cfg, s) && Enabled(cfg, s, step) && ByWorker(step)
    requires u < |s.threads| && u != step.t
    ensures Shape(cfg, After(cfg, s, step)) && ThreadOk(cfg, After(cfg, s, step), u)
  {
    hide StatusOk, Ops;
    WorkerKeepsItself(cfg, s, step);
    assert ThreadOk(cfg, s, u);
    assert ThreadOk(cfg, s, step.t);
    assert SystemOk(cfg, s, s.threads[step.t].sys);
  }

  lemma WorkerKeepsSystems(cfg: Config, s: State, step: Step, i: nat)
    requires Live(cfg, s) && Enabled(cfg, s, step) && ByWorker(step)
    requires i < |cfg.systems|
    ensures Shape(cfg, After(cfg, s, step)) && SystemOk(cfg, After(cfg, s, step), i)
  {
    hide StatusOk, Ops;
    WorkerKeepsItself(cfg, s, step);
    assert SystemOk(cfg, s, i);
    assert ThreadOk(cfg, s, step.t);
    assert SystemOk(cfg, s, s.threads[step.t].sys);
  }

  lemma WorkerKeepsLive(cfg: Config, s: State, step: Step)
    requires Live(cfg, s) && Enabled(cfg, s, step) && ByWorker(step)
    ensures Live(cfg, After(cfg, s, step))
  {
    hide SystemOk, StatusOk, Ops;
    var s' := After(cfg, s, step);
    assert ThreadOk(cfg, s, step.t);
    WorkerKeepsItself(cfg, s, step);
    forall t | 0 <= t < |s'.threads|
      ensures Shape(cfg, s') && ThreadOk(cfg, s', t)
    {
      if t != step.t {
        WorkerKeepsOther(cfg, s, step, t);
      }
    }
    forall i | 0 <= i < |cfg.systems|
      ensures Shape(cfg, s') && SystemOk(cfg, s', i)
    {
      WorkerKeepsSystems(cfg, s, step, i);
    }
  }
}
