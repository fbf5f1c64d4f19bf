/** What the workers do to each query, read off the trace of operations
    (src/core/db/worker.c:361-514, 529-642, 679-683). */
module WorkflowTrace {
  import opened Common
  import opened PhaseBarrier
  import opened Scheduler

  ghost predicate IsAbout(e: Event, sys: nat, query: nat) {
    e.Operation? && e.sys == sys && e.query == query
  }

  /** The operations of one phase on one query, in the order they were made. */
  ghost function EventsOf(trace: seq<Event>, sys: nat, epoch: nat, query: nat): (r: seq<Event>)
    ensures AllOperations(r)
  {
    if trace == [] then []
    else
      var last := trace[|trace| - 1];
      var rest := EventsOf(trace[..|trace| - 1], sys, epoch, query);
      if IsAbout(last, sys, query) && last.epoch == epoch then rest + [last] else rest
  }

  /** The operations of one whole cycle on one query. */
  ghost function CycleEvents(trace: seq<Event>, sys: nat, cycle: nat, query: nat): (r: seq<Event>)
    ensures AllOperations(r)
  {
    if trace == [] then []
    else
      var last := trace[|trace| - 1];
      var rest := CycleEvents(trace[..|trace| - 1], sys, cycle, query);
      if IsAbout(last, sys, query) && last.epoch / 3 == cycle then rest + [last] else rest
  }

  /** What a worker did about the flat file. */
  ghost function PreloadsOf(trace: seq<Event>, thread: nat): seq<Event> {
    if trace == [] then []
    else
      var last := trace[|trace| - 1];
      PreloadsOf(trace[..|trace| - 1], thread) + if last.Preload? && last.thread == thread then [last] else []
  }

  ghost predicate AllOperations(events: seq<Event>) {
    forall i :: 0 <= i < |events| ==> events[i].Operation?
  }

  ghost function Kinds(events: seq<Event>): seq<Kind>
    requires AllOperations(events)
  {
    seq(|events|, i requires 0 <= i < |events| => events[i].kind)
  }

  ghost predicate AllOk(events: seq<Event>) {
    forall i :: 0 <= i < |events| ==> events[i].ok
  }

  /** The operations in order, up to the first that failed. */
  ghost predicate UpToFailure(ops: seq<Kind>, events: seq<Event>)
    requires AllOperations(events)
  {
    && |events| <= |ops| && Kinds(events) == ops[..|events|]
    && forall i :: 0 <= i < |events| - 1 ==> events[i].ok
  }

  ghost predicate Done(ops: seq<Kind>, events: seq<Event>)
    requires AllOperations(events)
  {
    && UpToFailure(ops, events)
    && (|events| < |ops| ==> 0 < |events| && !events[|events| - 1].ok)
  }

  // ----- the invariant -----

  /** After the failure `e` its worker does only later queries, and none if the flat file could
      not be loaded. */
  ghost predicate IsBehind(cfg: Config, e: Event, th: Thread)
    requires e.sys < |cfg.systems|
  {
    th.status.Running? ==>
      if e.Operation? then e.query < th.status.query else |cfg.systems[e.sys].queries| <= th.status.query
  }

  ghost predicate EventOk(cfg: Config, s: State, a: nat)
    requires Shape(cfg, s) && a < |s.trace|
  {
    var e := s.trace[a];
    && e.sys < |cfg.systems| && e.thread < |s.threads|
    && s.threads[e.thread].sys == e.sys && s.threads[e.thread].epoch == e.epoch && Begun(s.threads[e.thread])
    && (!e.ok ==> s.failure[e.sys] && s.handle[e.sys] == Some(e.thread) && IsBehind(cfg, e, s.threads[e.thread]))
  }

  ghost predicate InPhaseOrder(trace: seq<Event>) {
    forall a, b :: 0 <= a < b < |trace| ==> trace[a].epoch <= trace[b].epoch
  }

  /** After a failed operation the same worker goes on with its later queries, and that is all
      that happens to the system. After a failure to load the flat file nothing does. */
  ghost predicate FailureStops(trace: seq<Event>) {
    forall a, b :: 0 <= a < b < |trace| && trace[a].sys == trace[b].sys && !trace[a].ok ==> GoesOn(trace[a], trace[b])
  }

  ghost predicate GoesOn(failed: Event, next: Event) {
    failed.Operation? && next.Operation? && next.thread == failed.thread && failed.query < next.query
  }

  /** A worker that loads the flat file has done so before its first operation. */
  ghost predicate FileFirst(cfg: Config, trace: seq<Event>) {
    forall b :: 0 <= b < |trace| && NeedsFile(cfg, trace[b]) ==> LoadedBefore(trace, b)
  }

  ghost predicate NeedsFile(cfg: Config, e: Event) {
    e.Operation? && e.sys < |cfg.systems| && cfg.systems[e.sys].flatFile && PhaseOf(e.epoch) == Extract
  }

  ghost predicate LoadedBefore(trace: seq<Event>, b: nat)
    requires b < |trace|
  {
    exists a :: 0 <= a < b && trace[a] == Preload(trace[b].thread, trace[b].sys, trace[b].epoch, true)
  }

  /** What a worker has done about the flat file. */
  ghost predicate FileOk(s: State, t: nat)
    requires t < |s.threads|
  {
    var th := s.threads[t];
    PreloadsOf(s.trace, t) == if th.preload.Some? then [Preload(t, th.sys, th.epoch, th.preload.value)] else []
  }

  ghost predicate TraceOk(cfg: Config, s: State)
    requires Shape(cfg, s)
  {
    && (forall a :: 0 <= a < |s.trace| ==> EventOk(cfg, s, a))
    && InPhaseOrder(s.trace) && FailureStops(s.trace) && FileFirst(cfg, s.trace)
    && (forall t :: 0 <= t < |s.threads| ==> FileOk(s, t))
  }

  /** What has happened to query q when its worker has come this far. */
  ghost predicate Expected(cfg: Config, th: Thread, q: nat, events: seq<Event>)
    requires th.sys < |cfg.systems| && q < |cfg.systems[th.sys].queries| && AllOperations(events)
  {
    var ops := Ops(cfg.systems[th.sys].queries[q], PhaseOf(th.epoch));
    if th.preload == Some(false) then events == []
    else
    match th.status
    case Waiting => events == []
    case Preloading => events == []
    case Running(at, k) =>
      if q < at then Done(ops, events)
      else if q == at then k <= |ops| && Kinds(events) == ops[..k] && AllOk(events)
      else events == []
    case Closing => Done(ops, events)
    case Exited => Done(ops, events)
    case Stuck => events == []
  }

  ghost predicate WorkersOk(cfg: Config, s: State)
    requires Shape(cfg, s)
  {
    forall t, q :: 0 <= t < |s.threads| && 0 <= q < |cfg.systems[s.threads[t].sys].queries| ==>
      Expected(cfg, s.threads[t], q, EventsOf(s.trace, s.threads[t].sys, s.threads[t].epoch, q))
  }

  /** The coordinator is past the phase. */
  ghost predicate PhaseOver(cfg: Config, s: State, epoch: nat) {
    epoch < s.epoch || (epoch == s.epoch && (s.pc == Resting || s.pc == Stopped(|cfg.systems|)))
  }

  ghost predicate Complete(cfg: Config, s: State, i: nat, epoch: nat, q: nat)
    requires i < |cfg.systems| && q < |cfg.systems[i].queries|
  {
    var events := EventsOf(s.trace, i, epoch, q);
    Kinds(events) == Ops(cfg.systems[i].queries[q], PhaseOf(epoch)) && AllOk(events)
  }

  ghost predicate PhasesComplete(cfg: Config, s: State)
    requires Shape(cfg, s)
  {
    forall i, epoch, q :: 0 <= i < |cfg.systems| && 0 <= q < |cfg.systems[i].queries| && 0 <= epoch ==>
      !s.failure[i] && PhaseOver(cfg, s, epoch) ==> Complete(cfg, s, i, epoch, q)
  }

  ghost predicate Traced(cfg: Config, s: State) {
    Safe(cfg, s) && TraceOk(cfg, s) && WorkersOk(cfg, s) && PhasesComplete(cfg, s)
  }

  // ----- TraceOk -----

  /** A step that is seen in the trace. */
  ghost predicate MakesEvent(step: Step) {
    step.RunOp? || step.LoadFile?
  }

  /** What the worker that makes an event finds in the trace. */
  lemma EventsBehind(cfg: Config, s: State, step: Step, a: nat)
    requires Safe(cfg, s) && TraceOk(cfg, s) && Enabled(cfg, s, step) && MakesEvent(step) && a < |s.trace|
    ensures s.trace[a].epoch <= s.threads[step.t].epoch
    ensures s.trace[a].sys == s.threads[step.t].sys && !s.trace[a].ok ==>
              step.RunOp? && s.trace[a].Operation? && s.trace[a].thread == step.t
              && s.trace[a].query < s.threads[step.t].status.query
  {
    hide Ops, PhaseOf, SystemsOk, JoinedOk, FileFirst;
    assert ThreadOk(cfg, s, step.t) && EventOk(cfg, s, a);
  }

  lemma OldEventStays(cfg: Config, s: State, step: Step, a: nat)
    requires Safe(cfg, s) && TraceOk(cfg, s) && Enabled(cfg, s, step) && a < |s.trace|
    requires Shape(cfg, After(cfg, s, step)) && a < |After(cfg, s, step).trace|
    ensures EventOk(cfg, After(cfg, s, step), a)
  {
    hide Ops, PhaseOf, SystemsOk, JoinedOk, FileFirst, FileOk, EpochsGrow, Barrier;
    assert EventOk(cfg, s, a);
    if MakesEvent(step) {
      EventsBehind(cfg, s, step, a);
    }
    if ByWorker(step) {
      assert ThreadOk(cfg, s, step.t);
    }
  }

  lemma NewEventFits(cfg: Config, s: State, step: Step)
    requires Safe(cfg, s) && Enabled(cfg, s, step) && MakesEvent(step)
    requires Shape(cfg, After(cfg, s, step)) && |s.trace| < |After(cfg, s, step).trace|
    ensures EventOk(cfg, After(cfg, s, step), |s.trace|)
  {
    hide Ops, PhaseOf, SystemsOk, JoinedOk, EpochsGrow, Barrier;
    assert ThreadOk(cfg, s, step.t);
  }

  lemma StepKeepsEvent(cfg: Config, s: State, step: Step, a: nat)
    requires Safe(cfg, s) && TraceOk(cfg, s) && Enabled(cfg, s, step) && a < |After(cfg, s, step).trace|
    ensures Shape(cfg, After(cfg, s, step)) && EventOk(cfg, After(cfg, s, step), a)
  {
    hide ThreadsOk, SystemsOk, MutexOk, JoinedOk, TraceOk, EventOk, EpochsGrow, Barrier;
    StepKeepsLive(cfg, s, step);
    if a < |s.trace| {
      OldEventStays(cfg, s, step, a);
    } else {
      NewEventFits(cfg, s, step);
    }
  }

  lemma PreloadsOfSnoc(trace: seq<Event>, event: Event, thread: nat)
    ensures PreloadsOf(trace + [event], thread)
         == PreloadsOf(trace, thread) + if event.Preload? && event.thread == thread then [event] else []
  {
    assert (trace + [event])[..|trace|] == trace;
  }

  /** No event is about a thread that does not exist yet. */
  lemma {:induction false} NoPreloadYet(trace: seq<Event>, thread: nat)
    requires forall a :: 0 <= a < |trace| ==> trace[a].thread < thread
    ensures PreloadsOf(trace, thread) == []
  {
    if trace != [] {
      NoPreloadYet(trace[..|trace| - 1], thread);
    }
  }

  lemma StepKeepsFile(cfg: Config, s: State, step: Step, t: nat)
    requires Safe(cfg, s) && TraceOk(cfg, s) && Enabled(cfg, s, step) && t < |After(cfg, s, step).threads|
    ensures FileOk(After(cfg, s, step), t)
  {
    hide Ops, PhaseOf, SystemsOk, JoinedOk, FileFirst, PreloadsOf;
    var s' := After(cfg, s, step);
    if t < |s.threads| {
      assert FileOk(s, t) && ThreadOk(cfg, s, t);
      if MakesEvent(step) {
        PreloadsOfSnoc(s.trace, s'.trace[|s.trace|], t);
      }
    } else {
      forall a | 0 <= a < |s.trace|
        ensures s.trace[a].thread < t
      {
        assert EventOk(cfg, s, a);
      }
      NoPreloadYet(s.trace, t);
    }
  }

  /** A preload is in the trace. */
  lemma {:induction false} PreloadsAreTraced(trace: seq<Event>, thread: nat, e: Event)
    requires e in PreloadsOf(trace, thread)
    ensures exists a :: 0 <= a < |trace| && trace[a] == e
  {
    var last := |trace| - 1;
    if e in PreloadsOf(trace[..last], thread) {
      PreloadsAreTraced(trace[..last], thread, e);
      var a :| 0 <= a < last && trace[..last][a] == e;
      assert trace[a] == e;
    } else {
      assert trace[last] == e;
    }
  }

  lemma StaysLoaded(trace: seq<Event>, event: Event, b: nat)
    requires b < |trace| && LoadedBefore(trace, b)
    ensures LoadedBefore(trace + [event], b)
  {
    var a :| 0 <= a < b && trace[a] == Preload(trace[b].thread, trace[b].sys, trace[b].epoch, true);
    assert (trace + [event])[a] == trace[a];
  }

  lemma LoadedAlready(trace: seq<Event>, event: Event)
    requires Preload(event.thread, event.sys, event.epoch, true) in PreloadsOf(trace, event.thread)
    ensures LoadedBefore(trace + [event], |trace|)
  {
    PreloadsAreTraced(trace, event.thread, Preload(event.thread, event.sys, event.epoch, true));
    var a :| 0 <= a < |trace| && trace[a] == Preload(event.thread, event.sys, event.epoch, true);
    assert (trace + [event])[a] == trace[a];
  }

  lemma StepKeepsFileFirst(cfg: Config, s: State, step: Step)
    requires Safe(cfg, s) && TraceOk(cfg, s) && Enabled(cfg, s, step)
    ensures FileFirst(cfg, After(cfg, s, step).trace)
  {
    hide Ops, PhaseOf, SystemsOk, JoinedOk, PreloadsOf, LoadedBefore, EpochsGrow, Barrier;
    if MakesEvent(step) {
      var event := After(cfg, s, step).trace[|s.trace|];
      forall b | 0 <= b < |s.trace| && LoadedBefore(s.trace, b)
        ensures LoadedBefore(s.trace + [event], b)
      {
        StaysLoaded(s.trace, event, b);
      }
      assert ThreadOk(cfg, s, step.t) && FileOk(s, step.t);
      if step.RunOp? && Preloads(cfg, s.threads[step.t]) {
        LoadedAlready(s.trace, event);
      }
    }
  }

  lemma StepKeepsTraceOk(cfg: Config, s: State, step: Step)
    requires Safe(cfg, s) && TraceOk(cfg, s) && Enabled(cfg, s, step)
    ensures Shape(cfg, After(cfg, s, step)) && TraceOk(cfg, After(cfg, s, step))
  {
    hide Ops, PhaseOf, ThreadsOk, SystemsOk, JoinedOk, Barrier, EpochsGrow, EventOk, FileOk, FileFirst;
    var s' := After(cfg, s, step);
    StepKeepsLive(cfg, s, step);
    forall a | 0 <= a < |s'.trace|
      ensures EventOk(cfg, s', a)
    {
      StepKeepsEvent(cfg, s, step, a);
    }
    forall t | 0 <= t < |s'.threads|
      ensures FileOk(s', t)
    {
      StepKeepsFile(cfg, s, step, t);
    }
    if MakesEvent(step) {
      forall a | 0 <= a < |s.trace|
        ensures s.trace[a].epoch <= s.threads[step.t].epoch
        ensures s.trace[a].sys == s.threads[step.t].sys && !s.trace[a].ok ==> GoesOn(s.trace[a], s'.trace[|s.trace|])
      {
        EventsBehind(cfg, s, step, a);
      }
    }
    StepKeepsFileFirst(cfg, s, step);
  }

  // ----- WorkersOk -----

  lemma EventsOfSnoc(trace: seq<Event>, event: Event, sys: nat, epoch: nat, query: nat)
    ensures EventsOf(trace + [event], sys, epoch, query)
         == EventsOf(trace, sys, epoch, query)
            + if IsAbout(event, sys, query) && event.epoch == epoch then [event] else []
  {
    assert (trace + [event])[..|trace|] == trace;
  }

  /** Events of a query come from the trace. */
  lemma {:induction false} EventsAreTraced(trace: seq<Event>, sys: nat, epoch: nat, query: nat, k: nat)
    requires k < |EventsOf(trace, sys, epoch, query)|
    ensures
      var e := EventsOf(trace, sys, epoch, query)[k];
      e in trace && IsAbout(e, sys, query) && e.epoch == epoch
  {
    var rest := EventsOf(trace[..|trace| - 1], sys, epoch, query);
    if k < |rest| {
      EventsAreTraced(trace[..|trace| - 1], sys, epoch, query, k);
    }
  }

  /** A worker with something left to do has loaded the flat file if it had to. */
  lemma RunningHasNotFailed(cfg: Config, s: State, t: nat)
    requires Live(cfg, s) && InSection(cfg, s, t) && s.threads[t].status.query < |cfg.systems[s.threads[t].sys].queries|
    ensures s.threads[t].preload != Some(false)
  {
    assert ThreadOk(cfg, s, t);
  }

  lemma RunOpExpected(cfg: Config, s: State, t: nat, ok: bool, q: nat)
    requires Traced(cfg, s) && Enabled(cfg, s, RunOp(t, ok))
    requires q < |cfg.systems[s.threads[t].sys].queries|
    ensures
      var s' := After(cfg, s, RunOp(t, ok));
      Expected(cfg, s'.threads[t], q, EventsOf(s'.trace, s.threads[t].sys, s.threads[t].epoch, q))
  {
    hide PhaseOf, EventsOf, PhasesComplete, TraceOk, Ops, Barrier, EpochsGrow, ThreadsOk, SystemsOk;
    RunningHasNotFailed(cfg, s, t);
    var s' := After(cfg, s, RunOp(t, ok));
    var th := s.threads[t];
    var event := s'.trace[|s.trace|];
    var events := EventsOf(s.trace, th.sys, th.epoch, q);
    EventsOfSnoc(s.trace, event, th.sys, th.epoch, q);
    assert Expected(cfg, th, q, events) && th.preload != Some(false);
    if q == th.status.query {
      assert Kinds(events + [event]) == Kinds(events) + [event.kind];
    } else {
      assert events + [] == events;
    }
  }

  lemma RunOpElsewhere(cfg: Config, s: State, t: nat, ok: bool, u: nat, q: nat)
    requires Traced(cfg, s) && Enabled(cfg, s, RunOp(t, ok)) && u < |s.threads| && u != t
    ensures
      var s' := After(cfg, s, RunOp(t, ok));
      EventsOf(s'.trace, s.threads[u].sys, s.threads[u].epoch, q)
      == EventsOf(s.trace, s.threads[u].sys, s.threads[u].epoch, q)
  {
    hide EventsOf, Live, PhasesComplete, TraceOk, WorkersOk, Ops;
    var s' := After(cfg, s, RunOp(t, ok));
    EventsOfSnoc(s.trace, s'.trace[|s.trace|], s.threads[u].sys, s.threads[u].epoch, q);
  }

  lemma RunOpKeepsWorkersOk(cfg: Config, s: State, t: nat, ok: bool)
    requires Traced(cfg, s) && Enabled(cfg, s, RunOp(t, ok))
    ensures Shape(cfg, After(cfg, s, RunOp(t, ok))) && WorkersOk(cfg, After(cfg, s, RunOp(t, ok)))
  {
    hide EventsOf, Expected, Ops, PhasesComplete, TraceOk, Barrier, EpochsGrow, ThreadsOk, SystemsOk;
    var s' := After(cfg, s, RunOp(t, ok));
    StepKeepsLive(cfg, s, RunOp(t, ok));
    forall u, q | 0 <= u < |s'.threads| && 0 <= q < |cfg.systems[s'.threads[u].sys].queries|
      ensures Expected(cfg, s'.threads[u], q, EventsOf(s'.trace, s'.threads[u].sys, s'.threads[u].epoch, q))
    {
      if u == t {
        RunOpExpected(cfg, s, t, ok, q);
      } else {
        RunOpElsewhere(cfg, s, t, ok, u, q);
      }
    }
  }

  /** A new worker has no events yet. */
  lemma CreateKeepsWorkersOk(cfg: Config, s: State)
    requires Traced(cfg, s) && Enabled(cfg, s, Create)
    ensures Shape(cfg, After(cfg, s, Create)) && WorkersOk(cfg, After(cfg, s, Create))
  {
    hide Ops, PhasesComplete, Barrier, EventsOf;
    var s' := After(cfg, s, Create);
    StepKeepsLive(cfg, s, Create);
    CreateKeepsEpochsGrow(cfg, s);
    forall u, q | 0 <= u < |s'.threads| && 0 <= q < |cfg.systems[s'.threads[u].sys].queries|
      ensures Expected(cfg, s'.threads[u], q, EventsOf(s'.trace, s'.threads[u].sys, s'.threads[u].epoch, q))
    {
      if u == |s.threads| {
        NothingYet(cfg, s, q);
      } else {
        assert Expected(cfg, s.threads[u], q, EventsOf(s.trace, s.threads[u].sys, s.threads[u].epoch, q));
      }
    }
  }

  lemma NewWorkerIsFirst(cfg: Config, s: State, t: nat)
    requires Safe(cfg, s) && Enabled(cfg, s, Create) && t < |s.threads|
    ensures s.threads[t].sys == s.pc.i ==> s.threads[t].epoch != s.epoch
  {
    CreateKeepsEpochsGrow(cfg, s);
    var s' := After(cfg, s, Create);
    assert s'.threads[t].sys == s'.threads[|s.threads|].sys ==> s'.threads[t].epoch < s'.threads[|s.threads|].epoch;
  }

  lemma NothingYet(cfg: Config, s: State, q: nat)
    requires Traced(cfg, s) && Enabled(cfg, s, Create)
    ensures EventsOf(s.trace, s.pc.i, s.epoch, q) == []
  {
    hide Ops, PhasesComplete, Barrier, WorkersOk, EventsOf, ThreadsOk, SystemsOk, EpochsGrow;
    var events := EventsOf(s.trace, s.pc.i, s.epoch, q);
    if events != [] {
      EventsAreTraced(s.trace, s.pc.i, s.epoch, q, 0);
      var a :| 0 <= a < |s.trace| && s.trace[a] == events[0];
      assert EventOk(cfg, s, a);
      NewWorkerIsFirst(cfg, s, s.trace[a].thread);
      assert false;
    }
  }

  lemma OtherStepKeepsWorkersOk(cfg: Config, s: State, step: Step)
    requires Traced(cfg, s) && Enabled(cfg, s, step) && !step.RunOp? && !step.Create?
    ensures Shape(cfg, After(cfg, s, step)) && WorkersOk(cfg, After(cfg, s, step))
  {
    hide EventsOf, Ops, PhasesComplete, TraceOk, Barrier, EpochsGrow, ThreadsOk, SystemsOk;
    var s' := After(cfg, s, step);
    StepKeepsLive(cfg, s, step);
    forall u, q | 0 <= u < |s'.threads| && 0 <= q < |cfg.systems[s'.threads[u].sys].queries|
      ensures Expected(cfg, s'.threads[u], q, EventsOf(s'.trace, s'.threads[u].sys, s'.threads[u].epoch, q))
    {
      assert Expected(cfg, s.threads[u], q, EventsOf(s.trace, s.threads[u].sys, s.threads[u].epoch, q));
      if step.LoadFile? {
        EventsOfSnoc(s.trace, s'.trace[|s.trace|], s.threads[u].sys, s.threads[u].epoch, q);
      }
    }
  }

  // ----- PhasesComplete -----

  /** Without a failure, a worker that has left has done all of every query. */
  lemma ExitedIsComplete(cfg: Config, s: State, t: nat, q: nat)
    requires Traced(cfg, s) && t < |s.threads| && s.threads[t].status.Exited?
    requires !s.failure[s.threads[t].sys] && q < |cfg.systems[s.threads[t].sys].queries|
    ensures Complete(cfg, s, s.threads[t].sys, s.threads[t].epoch, q)
  {
    assert ThreadOk(cfg, s, t);
    hide EventsOf, Ops, PhasesComplete, Barrier, EpochsGrow, ThreadsOk, SystemsOk;
    var th := s.threads[t];
    var events := EventsOf(s.trace, th.sys, th.epoch, q);
    assert Expected(cfg, th, q, events);
    forall k | 0 <= k < |events|
      ensures events[k].ok
    {
      EventsAreTraced(s.trace, th.sys, th.epoch, q, k);
      var a :| 0 <= a < |s.trace| && s.trace[a] == events[k];
      assert EventOk(cfg, s, a);
    }
  }

  /** When the joins of a phase end, the phase is complete for every system that has not
      failed. */
  lemma EndJoinsCompletes(cfg: Config, s: State, i: nat, q: nat)
    requires Traced(cfg, s) && Enabled(cfg, s, EndJoins)
    requires i < |cfg.systems| && q < |cfg.systems[i].queries| && !s.failure[i]
    ensures Complete(cfg, s, i, s.epoch, q)
  {
    hide Complete, TraceOk, WorkersOk, PhasesComplete, Ops, Barrier, EpochsGrow;
    assert SystemOk(cfg, s, i);
    ExitedIsComplete(cfg, s, s.handle[i].value, q);
  }

  /** A worker never acts on a system without a failure once the phase is over. */
  lemma RunOpElsewhen(cfg: Config, s: State, t: nat, ok: bool, i: nat, epoch: nat, q: nat)
    requires Traced(cfg, s) && Enabled(cfg, s, RunOp(t, ok))
    requires i < |cfg.systems| && PhaseOver(cfg, s, epoch) && !s.failure[i]
    ensures EventsOf(After(cfg, s, RunOp(t, ok)).trace, i, epoch, q) == EventsOf(s.trace, i, epoch, q)
  {
    hide EventsOf, TraceOk, WorkersOk, PhasesComplete, Ops, Barrier, EpochsGrow;
    var s' := After(cfg, s, RunOp(t, ok));
    EventsOfSnoc(s.trace, s'.trace[|s.trace|], i, epoch, q);
    assert ThreadOk(cfg, s, t) && SystemOk(cfg, s, i);
  }

  lemma FlagsStay(cfg: Config, s: State, step: Step)
    requires Live(cfg, s) && Enabled(cfg, s, step)
    ensures |After(cfg, s, step).failure| == |s.failure|
    ensures forall i :: 0 <= i < |s.failure| && s.failure[i] ==> After(cfg, s, step).failure[i]
  {
    hide Ops;
    if step.LoadFile? {
      assert ThreadOk(cfg, s, step.t);
    }
  }

  lemma StepKeepsPhasesComplete(cfg: Config, s: State, step: Step)
    requires Traced(cfg, s) && Enabled(cfg, s, step)
    ensures Shape(cfg, After(cfg, s, step)) && PhasesComplete(cfg, After(cfg, s, step))
  {
    hide EventsOf, TraceOk, WorkersOk, Ops, Barrier, EpochsGrow, ThreadsOk, SystemsOk, JoinedOk;
    var s' := After(cfg, s, step);
    StepKeepsLive(cfg, s, step);
    FlagsStay(cfg, s, step);
    forall i, epoch, q | 0 <= i < |cfg.systems| && 0 <= q < |cfg.systems[i].queries| && 0 <= epoch
                         && !s'.failure[i] && PhaseOver(cfg, s', epoch)
      ensures Complete(cfg, s', i, epoch, q)
    {
      if step.LoadFile? {
        EventsOfSnoc(s.trace, s'.trace[|s.trace|], i, epoch, q);
      } else if step.RunOp? {
        RunOpElsewhen(cfg, s, step.t, step.ok, i, epoch, q);
      } else if step.EndJoins? && epoch == s.epoch {
        EndJoinsCompletes(cfg, s, i, q);
      }
      assert Complete(cfg, s, i, epoch, q);
    }
  }

  // ----- every run -----

  lemma StepKeepsTraced(cfg: Config, s: State, step: Step)
    requires Traced(cfg, s) && Enabled(cfg, s, step)
    ensures Traced(cfg, After(cfg, s, step))
  {
    StepKeepsSafe(cfg, s, step);
    StepKeepsPhasesComplete(cfg, s, step);
    hide Safe, TraceOk, WorkersOk, PhasesComplete, After;
    StepKeepsTraceOk(cfg, s, step);
    if step.RunOp? {
      RunOpKeepsWorkersOk(cfg, s, step.t, step.ok);
    } else {
      if step.Create? {
        CreateKeepsWorkersOk(cfg, s);
      } else {
        OtherStepKeepsWorkersOk(cfg, s, step);
      }
    }
  }

  lemma {:induction false} RunIsTraced(cfg: Config, run: seq<State>, k: nat)
    requires IsRun(cfg, run) && k < |run|
    ensures Traced(cfg, run[k])
  {
    if k == 0 {
      InitLive(cfg, run[0]);
    } else {
      RunIsTraced(cfg, run, k - 1);
      assert Next(cfg, run[k - 1], run[k]);
      var step :| Enabled(cfg, run[k - 1], step) && run[k] == After(cfg, run[k - 1], step);
      StepKeepsTraced(cfg, run[k - 1], step);
    }
  }

  ghost predicate Failed(s: State, i: nat) {
    i < |s.failure| && s.failure[i]
  }

  // ----- the failure flags -----

  ghost predicate HasFailed(trace: seq<Event>, i: nat) {
    exists b :: 0 <= b < |trace| && trace[b].sys == i && !trace[b].ok
  }

  ghost predicate FlagOk(s: State, i: nat)
    requires i < |s.failure|
  {
    s.failure[i] <==> HasFailed(s.trace, i)
  }

  lemma MoreFailed(trace: seq<Event>, e: Event, i: nat)
    ensures HasFailed(trace + [e], i) <==> HasFailed(trace, i) || (e.sys == i && !e.ok)
  {
    if HasFailed(trace, i) {
      var b :| 0 <= b < |trace| && trace[b].sys == i && !trace[b].ok;
      assert (trace + [e])[b] == trace[b];
    }
    assert (trace + [e])[|trace|] == e;
  }

  lemma StepKeepsFlag(cfg: Config, s: State, step: Step, i: nat)
    requires Live(cfg, s) && Enabled(cfg, s, step) && i < |cfg.systems| && FlagOk(s, i)
    ensures i < |After(cfg, s, step).failure| && FlagOk(After(cfg, s, step), i)
  {
    hide HasFailed, SystemsOk, MutexOk, JoinedOk;
    match step
    case LoadFile(t, ok) =>
      assert ThreadOk(cfg, s, t);
      MoreFailed(s.trace, Preload(t, s.threads[t].sys, s.threads[t].epoch, ok), i);
    case RunOp(t, ok) =>
      var next := After(cfg, s, step);
      assert next.trace == s.trace + [next.trace[|s.trace|]];
      MoreFailed(s.trace, next.trace[|s.trace|], i);
    case _ =>
  }

  /** The flag of a system is up exactly when one of its operations or the loading of its flat
      file has failed. */
  lemma FlagIsAFailure(cfg: Config, run: seq<State>, k: nat, i: nat)
    requires IsRun(cfg, run) && k < |run| && i < |cfg.systems|
    ensures Failed(run[k], i) <==>
            exists b :: 0 <= b < |run[k].trace| && run[k].trace[b].sys == i && !run[k].trace[b].ok
  {
    hide IsRun, Live;
    FlagsOfRun(cfg, run, k, i);
  }

  lemma {:induction false} FlagsOfRun(cfg: Config, run: seq<State>, k: nat, i: nat)
    requires IsRun(cfg, run) && k < |run| && i < |cfg.systems|
    ensures i < |run[k].failure| && FlagOk(run[k], i)
  {
    hide Live, After, Enabled, HasFailed;
    if k == 0 {
      NothingFailed(i);
    } else {
      FlagsOfRun(cfg, run, k - 1, i);
      RunIsSafe(cfg, run, k - 1);
      assert Next(cfg, run[k - 1], run[k]);
      var step :| Enabled(cfg, run[k - 1], step) && run[k] == After(cfg, run[k - 1], step);
      StepKeepsFlag(cfg, run[k - 1], step, i);
    }
  }

  lemma NothingFailed(i: nat)
    ensures !HasFailed([], i)
  {
  }

  /** The operations of all workers follow the phases, and after a failed operation only
      later queries of the same worker touch the system: no later phase or cycle does. After a
      failure to load the flat file nothing touches it. */
  lemma TraceFollowsPhases(cfg: Config, run: seq<State>, k: nat, a: nat, b: nat)
    requires IsRun(cfg, run) && k < |run| && a < b < |run[k].trace|
    ensures run[k].trace[a].epoch <= run[k].trace[b].epoch
    ensures !run[k].trace[a].ok && run[k].trace[a].sys == run[k].trace[b].sys ==>
              && GoesOn(run[k].trace[a], run[k].trace[b])
              && run[k].trace[b].epoch == run[k].trace[a].epoch && Failed(run[k], run[k].trace[a].sys)
  {
    hide WorkersOk, PhasesComplete, Barrier, EpochsGrow, SystemsOk, Ops;
    RunIsTraced(cfg, run, k);
    assert EventOk(cfg, run[k], a) && EventOk(cfg, run[k], b);
  }

  // ----- whole cycles -----

  lemma {:induction false} NothingLater(trace: seq<Event>, sys: nat, epoch: nat, query: nat)
    requires forall a :: 0 <= a < |trace| ==> trace[a].epoch < epoch
    ensures EventsOf(trace, sys, epoch, query) == []
  {
    if trace != [] {
      NothingLater(trace[..|trace| - 1], sys, epoch, query);
    }
  }

  /** A cycle is its three phases one after the other. */
  lemma {:induction false} CycleIsThreePhases(trace: seq<Event>, sys: nat, c: nat, query: nat)
    requires InPhaseOrder(trace)
    ensures CycleEvents(trace, sys, c, query)
         == EventsOf(trace, sys, 3 * c, query) + EventsOf(trace, sys, 3 * c + 1, query)
            + EventsOf(trace, sys, 3 * c + 2, query)
  {
    if trace != [] {
      var last := trace[|trace| - 1];
      CycleIsThreePhases(trace[..|trace| - 1], sys, c, query);
      if last.epoch < 3 * c + 2 {
        NothingLater(trace, sys, 3 * c + 2, query);
      }
      if last.epoch < 3 * c + 1 {
        NothingLater(trace, sys, 3 * c + 1, query);
      }
    }
  }

  /** What one cycle is to do to a query. */
  ghost function Workflow(q: Query): seq<Kind> {
    var transforms := if q.hasTransform then TRANSFORMS else [];
    EXTRACTS + if q.mode == ETL then transforms + LOADS else LOADS + transforms
  }

  lemma KindsOfThree(a: seq<Event>, b: seq<Event>, c: seq<Event>)
    requires AllOperations(a) && AllOperations(b) && AllOperations(c)
    ensures AllOperations(a + b + c)
    ensures Kinds(a + b + c) == Kinds(a) + Kinds(b) + Kinds(c)
    ensures AllOk(a) && AllOk(b) && AllOk(c) ==> AllOk(a + b + c)
  {
  }

  /** In every cycle that is over, every query of a system that has not failed was extracted,
      transformed and loaded exactly once, with no other operation, in the order of its
      mode. */
  lemma WorkflowInOrder(cfg: Config, run: seq<State>, k: nat, i: nat, c: nat, q: nat)
    requires IsRun(cfg, run) && k < |run|
    requires i < |cfg.systems| && q < |cfg.systems[i].queries|
    requires !Failed(run[k], i) && PhaseOver(cfg, run[k], 3 * c + 2)
    ensures
      var events := CycleEvents(run[k].trace, i, c, q);
      Kinds(events) == Workflow(cfg.systems[i].queries[q]) && AllOk(events)
  {
    hide WorkersOk, Barrier, EpochsGrow, ThreadsOk, SystemsOk, EventsOf, CycleEvents;
    var s := run[k];
    RunIsTraced(cfg, run, k);
    CycleIsThreePhases(s.trace, i, c, q);
    assert Complete(cfg, s, i, 3 * c, q) && Complete(cfg, s, i, 3 * c + 1, q) && Complete(cfg, s, i, 3 * c + 2, q);
    KindsOfThree(
      EventsOf(s.trace, i, 3 * c, q), EventsOf(s.trace, i, 3 * c + 1, q), EventsOf(s.trace, i, 3 * c + 2, q));
  }

  /** The same, operation by operation: each of the nine is done as often as it should be, in
      the order of the query's mode. */
  lemma EveryKindOnce(cfg: Config, run: seq<State>, k: nat, i: nat, c: nat, q: nat)
    requires IsRun(cfg, run) && k < |run|
    requires i < |cfg.systems| && q < |cfg.systems[i].queries|
    requires !Failed(run[k], i) && PhaseOver(cfg, run[k], 3 * c + 2)
    ensures
      var query, kinds := cfg.systems[i].queries[q], Kinds(CycleEvents(run[k].trace, i, c, q));
      && (!query.hasTransform ==>
            kinds == [ExtractInserted, ExtractDeleted, ExtractModified, LoadInserted, LoadDeleted, LoadModified])
      && (query.hasTransform && query.mode == ETL ==>
            kinds == [ExtractInserted, ExtractDeleted, ExtractModified,
                      TransformInserted, TransformDeleted, TransformModified,
                      LoadInserted, LoadDeleted, LoadModified])
      && (query.hasTransform && query.mode == ELT ==>
            kinds == [ExtractInserted, ExtractDeleted, ExtractModified,
                      LoadInserted, LoadDeleted, LoadModified,
                      TransformInserted, TransformDeleted, TransformModified])
  {
    hide CycleEvents, Kinds, IsRun, PhaseOver;
    WorkflowInOrder(cfg, run, k, i, c, q);
  }

  /** At any moment a worker has done to a query an initial part of what its phase asks for,
      and stopped at the first failure: the rest of the query's operations are skipped. A worker
      that could not load the flat file does nothing to any query. */
  lemma FailureSkipsRestOfQuery(cfg: Config, run: seq<State>, k: nat, t: nat, q: nat)
    requires IsRun(cfg, run) && k < |run| && t < |run[k].threads|
    requires run[k].threads[t].sys < |cfg.systems| && q < |cfg.systems[run[k].threads[t].sys].queries|
    ensures
      var th := run[k].threads[t];
      var ops := Ops(cfg.systems[th.sys].queries[q], PhaseOf(th.epoch));
      var events := EventsOf(run[k].trace, th.sys, th.epoch, q);
      if Preload(t, th.sys, th.epoch, false) in PreloadsOf(run[k].trace, t) then events == []
      else UpToFailure(ops, events) && (Left(th) ==> Done(ops, events))
  {
    hide PhasesComplete, EventsOf, Ops, PreloadsOf, FileFirst;
    RunIsTraced(cfg, run, k);
    var th := run[k].threads[t];
    assert FileOk(run[k], t);
    assert Expected(cfg, th, q, EventsOf(run[k].trace, th.sys, th.epoch, q));
  }

  /** The Extract worker of a system with a flat file loads it once, and before any operation;
      no other worker does. */
  lemma FileIsLoadedOnceAndFirst(cfg: Config, run: seq<State>, k: nat, t: nat, b: nat)
    requires IsRun(cfg, run) && k < |run| && t < |run[k].threads| && run[k].threads[t].sys < |cfg.systems|
    requires b < |run[k].trace|
    ensures
      var th := run[k].threads[t];
      |PreloadsOf(run[k].trace, t)| == if th.epoch % 3 == 0 && cfg.systems[th.sys].flatFile && Begun(th) then 1 else 0
    ensures run[k].trace[b].Operation? && run[k].trace[b].thread == t && Preloads(cfg, run[k].threads[t]) ==>
              LoadedBefore(run[k].trace, b)
  {
    hide PhasesComplete, WorkersOk, PreloadsOf;
    RunIsTraced(cfg, run, k);
    assert FileOk(run[k], t) && ThreadOk(cfg, run[k], t) && EventOk(cfg, run[k], b);
  }
}
