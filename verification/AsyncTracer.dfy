/** The tracer and its sessions as objects. Each method is one goroutine's code run without
    interruption, from any state that an interleaving reaches; `view` ties it to the transition system, in
    which its steps are a run. */
module AsyncTracer {
  import opened GoStrings
  import opened TraceProtocol
  import opened TraceSafety

  datatype Config = Config(enabled: bool, queueSize: int, maxFieldValueBytes: int, maxEventsPerSess: int)

  /** What NewAsync makes of its configuration: None is the tracer that does nothing. */
  function WithDefaults(cfg: Config, sinks: nat): (r: Option<Limits>)
    ensures r.None? <==> !cfg.enabled || sinks == 0
    ensures r.Some? ==> ValidLimits(r.value) && r.value.sinks == sinks
    ensures r.Some? ==> r.value.queueSize == cfg.queueSize || (cfg.queueSize <= 0 && r.value.queueSize == 4096)
    ensures r.Some? ==>
              r.value.maxEvents == cfg.maxEventsPerSess || (cfg.maxEventsPerSess <= 0 && r.value.maxEvents == 500)
  {
    if !cfg.enabled || sinks == 0 then None
    else Some(Limits(if cfg.queueSize <= 0 then 4096 else cfg.queueSize,
                     if cfg.maxEventsPerSess <= 0 then 500 else cfg.maxEventsPerSess,
                     sinks))
  }

  lemma LogsCount(l: Limits, s: State)
    requires Reachable(l, s)
    ensures |s.logs| == l.sinks >= 1 && s.closedSinks <= l.sinks
  {
    ReachableInv(l, s);
  }

  lemma DrainedLogs(l: Limits, s: State)
    requires Reachable(l, s) && s.worker.Exited? && s.queue == []
    ensures forall k :: 0 <= k < |s.logs| ==> s.logs[k] == s.enqueued
  {
    ReachableInv(l, s);
  }

  /** emit as its steps of the transition system, with nothing in between. */
  ghost function EmitAlone(l: Limits, s: State, sid: SessionId, c: Call): State
    requires sid in s.sessions
  {
    var t := AdmitCall(l, s, sid, c);
    if Admits(l, s, sid) then ProceedCall(l, t, |s.pending|) else t
  }

  /** What those steps come to, whatever other calls are pending. */
  ghost predicate EmitEffect(l: Limits, s: State, t: State, sid: SessionId, c: Call)
    requires sid in s.sessions
  {
    var ss := s.sessions[sid];
    var e, admitted := EventOf(sid, ss.eventCnt + 1, c), Admits(l, s, sid);
    t.pending == s.pending + (if c.End? then [Marking(sid)] else []) &&
    t.sessions == s.sessions[sid := if admitted then ss.(eventCnt := ss.eventCnt + 1) else ss] &&
    t.admitted == (if admitted then s.admitted + [e] else s.admitted) &&
    t.queue == (if admitted && |s.queue| < l.queueSize then s.queue + [e] else s.queue) &&
    t.enqueued == (if admitted && |s.queue| < l.queueSize then s.enqueued + [e] else s.enqueued) &&
    t.dropped == (if admitted && |s.queue| >= l.queueSize then s.dropped + [e] else s.dropped) &&
    t.worker == s.worker && t.logs == s.logs && t.stopped == s.stopped && t.closedSinks == s.closedSinks
  }

  /** The event admitted last. */
  ghost function Newest(s: State): TraceEvent
    requires s.admitted != []
  {
    s.admitted[|s.admitted| - 1]
  }

  /** The newest pending call gives way to what is left of it. */
  lemma NewestPending(ps: seq<Pending>, p: Pending, rest: seq<Pending>)
    ensures var more := ps + [p]; more[|ps|] == p && more[..|ps|] + rest + more[|ps| + 1..] == ps + rest
    ensures var more := ps + [p]; more[..|ps|] + more[|ps| + 1..] == ps
    ensures ps + [] == ps
  {
  }

  lemma EmitAloneEffect(l: Limits, s: State, sid: SessionId, c: Call)
    requires sid in s.sessions
    ensures EmitEffect(l, s, EmitAlone(l, s, sid, c), sid, c)
  {
    var e := EventOf(sid, s.sessions[sid].eventCnt + 1, c);
    assert s.sessions == s.sessions[sid := s.sessions[sid]];
    NewestPending(s.pending, Sending(e), AfterSend(e));
  }

  lemma ReachableEmit(l: Limits, s: State, sid: SessionId, c: Call)
    requires Reachable(l, s) && sid in s.sessions
    ensures Reachable(l, EmitAlone(l, s, sid, c))
  {
    var t := AdmitCall(l, s, sid, c);
    ReachableNext(l, s, Admit(sid, c));
    if Admits(l, s, sid) {
      ReachableNext(l, t, Proceed(|s.pending|));
    }
  }

  /** Before the stop signal the worker is at its select or handing out an event; its place is one of the
      sinks, and no sink is closed. */
  lemma WorkerAtWork(l: Limits, s: State)
    requires Reachable(l, s)
    ensures s.worker.Writing? ==> s.worker.k < l.sinks == |s.logs|
    ensures !s.stopped ==> s.closedSinks == 0 && (s.worker.Selecting? || (s.worker.Writing? && !s.worker.draining))
  {
    ReachableInv(l, s);
  }

  /** The worker's steps change nothing that callers see. */
  ghost predicate SameCallers(s: State, t: State) {
    t.sessions == s.sessions && t.pending == s.pending && t.admitted == s.admitted &&
    t.enqueued == s.enqueued && t.dropped == s.dropped && t.stopped == s.stopped && t.closedSinks == s.closedSinks
  }

  /** What sink k still gets of the event in the worker's hand. */
  function HandFor(w: Worker, k: nat): seq<TraceEvent> {
    if w.Writing? && w.k <= k then [w.e] else []
  }

  /** The error of the first of n sinks that has one. */
  ghost predicate FirstError(errors: nat -> Option<string>, n: nat, first: Option<string>) {
    if first.None? then forall k: nat :: k < n ==> errors(k).None?
    else exists k: nat :: k < n && errors(k) == first && forall j: nat :: j < k ==> errors(j).None?
  }

  class AsyncTracer {
    const limits: Limits
    var ch: seq<TraceEvent>
    var stopSignalled: bool
    var worker: Worker
    var written: seq<seq<TraceEvent>>
    var closed: nat
    ghost var view: State

    ghost predicate Valid()
      reads this
    {
      Reachable(limits, view) &&
      view.queue == ch && view.stopped == stopSignalled && view.logs == written && view.closedSinks == closed &&
      view.worker == worker
    }

    constructor (limits: Limits)
      requires ValidLimits(limits)
      ensures Valid() && this.limits == limits && view == Init(limits)
    {
      this.limits := limits;
      ch, stopSignalled, worker, closed := [], false, Selecting, 0;
      written := seq(limits.sinks, _ => []);
      view := Init(limits);
      new;
      assert Run(limits, Init(limits), []) == Some(view);
    }

    /** One step of the transition system, mirrored in the view. */
    ghost method Mirror(a: Step)
      requires Reachable(limits, view) && Next(limits, view, a).Some?
      modifies this`view
      ensures view == Next(limits, old(view), a).value && Reachable(limits, view)
    {
      ReachableNext(limits, view, a);
      view := Next(limits, view, a).value;
    }

    ghost method MirrorEmit(sid: SessionId, c: Call)
      requires Reachable(limits, view) && sid in view.sessions
      modifies this`view
      ensures Reachable(limits, view)
      ensures EmitEffect(limits, old(view), view, sid, c)
    {
      EmitAloneEffect(limits, view, sid, c);
      ReachableEmit(limits, view, sid, c);
      view := EmitAlone(limits, view, sid, c);
    }

    /** The worker's inner loop, from the sink it has come to: its event goes to that one and all later. */
    method HandToSinks()
      requires Valid() && worker.Writing?
      modifies this`written, this`worker, this`view
      ensures Valid() && |written| == |old(written)|
      ensures forall k :: 0 <= k < |written| ==> written[k] == old(written[k]) + HandFor(old(worker), k)
      ensures worker == if old(worker).draining then Draining else Selecting
      ensures SameCallers(old(view), view) && ch == old(ch)
    {
      WorkerAtWork(limits, view);
      var Writing(e, first, draining) := worker;
      var k := first;
      while k < limits.sinks
        invariant first <= k <= limits.sinks == |written| && |old(written)| == |written|
        invariant Reachable(limits, view) && view.logs == written && view.worker == worker && view.queue == ch
        invariant forall i :: 0 <= i < |written| ==>
                    written[i] == if first <= i < k then old(written[i]) + [e] else old(written[i])
        invariant worker == if k < limits.sinks then Writing(e, k, draining)
                            else if draining then Draining else Selecting
        invariant SameCallers(old(view), view)
      {
        written := written[k := written[k] + [e]];
        Mirror(WriteSink);
        k := k + 1;
        worker := if k < limits.sinks then Writing(e, k, draining) else if draining then Draining else Selecting;
      }
    }

    /** A receive, from the select or in the drain loop, and the hand-over of what it gives. */
    method ReceiveOne()
      requires Valid() && (worker.Selecting? || worker.Draining?) && |ch| > 0
      modifies this`ch, this`written, this`worker, this`view
      ensures Valid() && worker == old(worker) && ch == old(ch)[1..] && |written| == |old(written)|
      ensures forall k :: 0 <= k < |written| ==> written[k] == old(written[k]) + [old(ch)[0]]
      ensures SameCallers(old(view), view)
    {
      Mirror(Receive);
      worker := Writing(ch[0], 0, worker.Draining?);
      ch := ch[1..];
      HandToSinks();
    }

    /** The worker after the stop signal: empty the queue, then return. */
    method Drain()
      requires Valid() && worker == Draining
      modifies this`ch, this`written, this`worker, this`view
      ensures Valid() && worker == Exited && ch == [] && |written| == |old(written)|
      ensures forall k :: 0 <= k < |written| ==> written[k] == old(written[k]) + old(ch)
      ensures SameCallers(old(view), view)
    {
      ghost var done: seq<TraceEvent> := [];
      while |ch| > 0
        invariant Valid() && worker == Draining && |written| == |old(written)|
        invariant old(ch) == done + ch
        invariant forall k :: 0 <= k < |written| ==> written[k] == old(written[k]) + done
        invariant SameCallers(old(view), view)
        decreases |ch|
      {
        ghost var first, next := ch[0], done + [ch[0]];
        HeadMoves(done, ch, 1);
        ReceiveOne();
        forall k | 0 <= k < |written| ensures written[k] == old(written[k]) + next {
          Regroup(old(written[k]), done, [first]);
        }
        done := next;
      }
      Mirror(WorkerExit);
      worker := Exited;
    }

    /** Closes every sink, whatever errors the earlier ones give; closing sink k gives errors(k). */
    method CloseSinks(errors: nat -> Option<string>) returns (firstErr: Option<string>)
      requires Valid() && worker == Exited && stopSignalled && closed == 0
      modifies this`closed, this`view
      ensures Valid() && closed == limits.sinks && FirstError(errors, limits.sinks, firstErr)
      ensures view.(closedSinks := 0) == old(view).(closedSinks := 0)
    {
      LogsCount(limits, view);
      firstErr := None;
      while closed < limits.sinks
        invariant Valid() && closed <= limits.sinks && FirstError(errors, closed, firstErr)
        invariant view.(closedSinks := 0) == old(view).(closedSinks := 0)
      {
        if errors(closed).Some? && firstErr.None? {
          firstErr := errors(closed);
        }
        Mirror(CloseSink);
        closed := closed + 1;
      }
    }

    /** The worker's way from the stop signal to its return: it finishes with the event in its hand. */
    method AwaitWorker()
      requires Valid() && stopSignalled && (worker.Selecting? || (worker.Writing? && !worker.draining))
      modifies this`ch, this`written, this`worker, this`view
      ensures Valid() && worker == Exited && ch == [] && |written| == |old(written)|
      ensures forall k :: 0 <= k < |written| ==> written[k] == old(written[k]) + HandFor(old(worker), k) + old(ch)
      ensures SameCallers(old(view), view)
    {
      ghost var start, queued := written, ch;
      if worker.Writing? {
        HandToSinks();
      } else {
        assert forall k :: 0 <= k < |written| ==> written[k] + [] == written[k];
      }
      assert forall k :: 0 <= k < |written| ==> written[k] == start[k] + HandFor(old(worker), k);
      Mirror(SeeStop);
      worker := Draining;
      Drain();
    }

    /** Close, whatever the worker is doing: false stands for the panic of a second close of the stop
        channel. */
    method Close(errors: nat -> Option<string>) returns (ok: bool, firstErr: Option<string>)
      requires Valid()
      modifies this
      ensures Valid() && ok == !old(stopSignalled)
      ensures ok ==> FirstError(errors, limits.sinks, firstErr)
      ensures ok ==> stopSignalled && worker == Exited && ch == [] && closed == limits.sinks
      ensures ok ==> |written| == |old(written)| && forall k :: 0 <= k < |written| ==>
                written[k] == old(written[k]) + HandFor(old(worker), k) + old(ch) == old(view.enqueued)
      ensures view.sessions == old(view.sessions) && view.pending == old(view.pending)
      ensures view.admitted == old(view.admitted) && view.enqueued == old(view.enqueued)
      ensures !ok ==> unchanged(this)
    {
      if stopSignalled {
        return false, None;
      }
      WorkerAtWork(limits, view);
      stopSignalled := true;
      Mirror(Stop);
      AwaitWorker();
      DrainedLogs(limits, view);
      firstErr := CloseSinks(errors);
      return true, firstErr;
    }
  }

  class AsyncSession {
    const tracer: AsyncTracer
    const id: SessionId
    var eventCnt: nat
    var ended: bool

    ghost predicate Valid()
      reads this, tracer
    {
      tracer.Valid() && id in tracer.view.sessions && tracer.view.sessions[id] == SessionState(eventCnt, ended)
    }

    constructor (tracer: AsyncTracer, id: SessionId)
      requires tracer.Valid() && id !in tracer.view.sessions
      modifies tracer`view
      ensures Valid() && this.tracer == tracer && this.id == id && eventCnt == 0 && !ended
      ensures tracer.view == Next(tracer.limits, old(tracer.view), NewSession(id)).value
    {
      this.tracer, this.id, eventCnt, ended := tracer, id, 0, false;
      new;
      tracer.Mirror(NewSession(id));
    }

    /** emit: counts the event against the budget, then queues it unless the queue is full. The event
        of End leaves `ended` to be set. */
    method Emit(c: Call)
      requires Valid()
      modifies this`eventCnt, tracer`ch, tracer`view
      ensures Valid()
      ensures var admitted := !ended && old(eventCnt) < tracer.limits.maxEvents;
              eventCnt == (if admitted then old(eventCnt) + 1 else old(eventCnt)) &&
              tracer.ch == (if admitted && |old(tracer.ch)| < tracer.limits.queueSize
                            then old(tracer.ch) + [EventOf(id, eventCnt, c)] else old(tracer.ch))
      ensures eventCnt > old(eventCnt) ==>
                tracer.view.admitted != [] && var e := Newest(tracer.view);
                Reports(e, c) && e.sid == id && e.no == eventCnt &&
                (|old(tracer.ch)| < tracer.limits.queueSize ==> tracer.ch == old(tracer.ch) + [e])
      ensures EmitEffect(tracer.limits, old(tracer.view), tracer.view, id, c)
    {
      EventReports(id, eventCnt + 1, c);
      tracer.MirrorEmit(id, c);
      if ended || eventCnt >= tracer.limits.maxEvents {
        return;
      }
      eventCnt := eventCnt + 1;
      var e := EventOf(id, eventCnt, c);
      if |tracer.ch| < tracer.limits.queueSize {
        tracer.ch := tracer.ch + [e];
      }
    }

    /** End by a goroutine that nobody interrupts: its event, if admitted, and then silence. */
    method End(stage: string)
      requires Valid()
      modifies this, tracer`ch, tracer`view
      ensures Valid() && ended
      ensures var admitted := !old(ended) && old(eventCnt) < tracer.limits.maxEvents;
              eventCnt == (if admitted then old(eventCnt) + 1 else old(eventCnt)) &&
              tracer.ch == (if admitted && |old(tracer.ch)| < tracer.limits.queueSize
                            then old(tracer.ch) + [TraceEvent(id, old(eventCnt) + 1, stage, "", true)]
                            else old(tracer.ch))
      ensures tracer.view.pending == old(tracer.view.pending)
      ensures tracer.view.sessions == old(tracer.view.sessions)[id := SessionState(eventCnt, true)]
    {
      ghost var before := tracer.view.pending;
      Emit(Call.End(stage));
      NewestPending(before, Marking(id), []);
      tracer.Mirror(Proceed(|before|));
      ended := true;
    }
  }
}
