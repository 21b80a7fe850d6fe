/** Whole runs of the asynchronous tracer: the drain loop ends. */
module TraceRuns {
  import opened GoStrings
  import opened Integers
  import opened TraceProtocol
  import opened TraceSafety

  // ---- the drain loop ends

  /** Sink calls still to be made for the event in the worker's hand. */
  function HandLeft(l: Limits, s: State): int {
    if s.worker.Writing? then l.sinks - s.worker.k else 0
  }

  /** Moves the worker has left besides handling events: leaving its select, leaving the drain loop. */
  function Phase(w: Worker): nat {
    match w
    case Selecting => 2
    case Writing(_, _, draining) => if draining then 1 else 2
    case Draining => 1
    case Exited => 0
  }

  /** Events queued, or admitted and unsent, or still within some session's budget. */
  function Outstanding(l: Limits, s: State): int {
    |s.queue| + |InFlight(s.pending)| + (l.maxEvents * |s.sessions| - |s.admitted|)
  }

  /** The worker steps that n events take: one to receive each, one for every sink. */
  function Cost(l: Limits, n: int): int {
    n * (l.sinks + 1)
  }

  function Potential(l: Limits, s: State): int {
    Cost(l, Outstanding(l, s)) + HandLeft(l, s) + Phase(s.worker)
  }

  function WorkerSteps(steps: seq<Step>): nat {
    if steps == [] then 0 else (if WorkerStep(steps[0]) then 1 else 0) + WorkerSteps(steps[1..])
  }

  function SessionsOpened(steps: seq<Step>): nat {
    if steps == [] then 0 else (if steps[0].NewSession? then 1 else 0) + SessionsOpened(steps[1..])
  }

  lemma UpdateSize<K, V>(m: map<K, V>, k: K, v: V)
    ensures |m[k := v]| == |m| + if k in m then 0 else 1
  {
    var m' := m[k := v];
    assert |m'| == |m'.Keys| && |m| == |m.Keys|;
    assert m'.Keys == m.Keys + {k};
  }

  lemma SessionsStep(l: Limits, s: State, a: Step)
    requires Next(l, s, a).Some?
    ensures |Next(l, s, a).value.sessions| == |s.sessions| + if a.NewSession? then 1 else 0
  {
    match a
    case NewSession(sid) => UpdateSize(s.sessions, sid, SessionState(0, false));
    case Admit(sid, _) => UpdateSize(s.sessions, sid, s.sessions[sid].(eventCnt := s.sessions[sid].eventCnt + 1));
    case Proceed(i) =>
      if s.pending[i].Marking? {
        var sid := s.pending[i].sid;
        UpdateSize(s.sessions, sid, s.sessions[sid].(ended := true));
      }
    case _ =>
  }

  lemma InFlightAdmit(l: Limits, s: State, sid: SessionId, c: Call)
    requires sid in s.sessions
    ensures var t := AdmitCall(l, s, sid, c);
            t.queue == s.queue && |InFlight(t.pending)| - |t.admitted| == |InFlight(s.pending)| - |s.admitted|
  {
    var t := AdmitCall(l, s, sid, c);
    if t.pending != s.pending {
      var p := t.pending[|s.pending|];
      assert t.pending == s.pending + [p];
      InFlightAppend(s.pending, p);
    }
  }

  lemma InFlightProceed(l: Limits, s: State, i: nat)
    requires i < |s.pending| && (s.pending[i].Marking? ==> s.pending[i].sid in s.sessions)
    ensures var t := ProceedCall(l, s, i);
            t.admitted == s.admitted && |InFlight(t.pending)| + |t.queue| <= |InFlight(s.pending)| + |s.queue|
  {
    InFlightAfter(l, s, i);
    var sent := if s.pending[i].Sending? then [s.pending[i].e] else [];
    SumLength(InFlight(s.pending), InFlight(ProceedCall(l, s, i).pending), sent, []);
  }

  lemma InFlightStep(l: Limits, s: State, a: Step)
    requires Next(l, s, a).Some?
    ensures var t := Next(l, s, a).value;
            var before := |InFlight(s.pending)| + |s.queue| - |s.admitted|;
            var after := |InFlight(t.pending)| + |t.queue| - |t.admitted|;
            if a.Receive? then after == before - 1 else if a.Proceed? then after <= before else after == before
  {
    match a
    case Admit(sid, c) => InFlightAdmit(l, s, sid, c);
    case Proceed(i) => InFlightProceed(l, s, i);
    case _ =>
  }

  lemma OutstandingStep(l: Limits, s: State, a: Step)
    requires Next(l, s, a).Some?
    ensures var t := Next(l, s, a).value;
            if a.NewSession? then Outstanding(l, t) == Outstanding(l, s) + l.maxEvents
            else if a.Receive? then Outstanding(l, t) == Outstanding(l, s) - 1
            else if a.Proceed? then Outstanding(l, t) <= Outstanding(l, s)
            else Outstanding(l, t) == Outstanding(l, s)
  {
    SessionsStep(l, s, a);
    InFlightStep(l, s, a);
    if a.NewSession? {
      MulAdds(|s.sessions|, 1, l.maxEvents);
    }
  }

  lemma HandStep(l: Limits, s: State, a: Step)
    requires ValidLimits(l) && Shape(l, s) && Next(l, s, a).Some?
    ensures var t := Next(l, s, a).value;
            HandLeft(l, t) + Phase(t.worker) == HandLeft(l, s) + Phase(s.worker) +
              if a.Receive? then l.sinks else if WorkerStep(a) then -1 else 0
  {
  }

  /** Each worker step uses up exactly one unit of the potential; only a new session adds to it. */
  lemma PotentialStep(l: Limits, s: State, a: Step)
    requires Inv(l, s) && Next(l, s, a).Some?
    ensures var t := Next(l, s, a).value;
            if a.NewSession? then Potential(l, t) == Potential(l, s) + Cost(l, l.maxEvents)
            else if WorkerStep(a) then Potential(l, t) == Potential(l, s) - 1
            else Potential(l, t) <= Potential(l, s)
  {
    HandStep(l, s, a);
    OutstandingStep(l, s, a);
    OutstandingNatural(l, s);
    OutstandingNaturalNext(l, s, a);
    OutstandingCost(l, Outstanding(l, s), Outstanding(l, Next(l, s, a).value), a);
  }

  lemma OutstandingCost(l: Limits, x: nat, y: nat, a: Step)
    requires if a.NewSession? then y == x + l.maxEvents
             else if a.Receive? then y == x - 1
             else if a.Proceed? then y <= x else y == x
    ensures if a.NewSession? then Cost(l, y) == Cost(l, x) + Cost(l, l.maxEvents)
            else if a.Receive? then Cost(l, y) == Cost(l, x) - l.sinks - 1
            else if a.Proceed? then Cost(l, y) <= Cost(l, x)
            else y == x
  {
    if a.NewSession? {
      MulAdds(x, l.maxEvents, l.sinks + 1);
    } else if a.Receive? {
      MulAdds(y, 1, l.sinks + 1);
    } else if a.Proceed? {
      MulMonotone(y, x, l.sinks + 1);
    }
  }

  lemma OutstandingNaturalNext(l: Limits, s: State, a: Step)
    requires Inv(l, s) && Next(l, s, a).Some?
    ensures Outstanding(l, Next(l, s, a).value) >= 0
  {
    StepKeepsInv(l, s, a);
    OutstandingNatural(l, Next(l, s, a).value);
  }

  function NotOf(es: seq<TraceEvent>, sid: SessionId): seq<TraceEvent> {
    if es == [] then [] else if es[0].sid != sid then [es[0]] + NotOf(es[1..], sid) else NotOf(es[1..], sid)
  }

  lemma {:induction false} NotOfSplits(es: seq<TraceEvent>, sid: SessionId, other: SessionId)
    ensures |es| == |Of(es, sid)| + |NotOf(es, sid)|
    ensures forall e :: e in NotOf(es, sid) ==> e in es && e.sid != sid
    ensures other != sid ==> Of(NotOf(es, sid), other) == Of(es, other)
  {
    if es != [] {
      var tail, rest := es[1..], NotOf(es, sid);
      NotOfSplits(tail, sid, other);
      if es[0].sid != sid {
        assert rest == [es[0]] + NotOf(tail, sid);
        assert rest[1..] == NotOf(tail, sid);
      } else {
        assert rest == NotOf(tail, sid);
      }
    }
  }

  lemma OneMore(mine: nat, others: nat, all: nat, n: nat, max: nat)
    requires all == mine + others && mine <= max && others <= max * n
    ensures all <= max * (n + 1)
  {
    MulAdds(n, 1, max);
  }

  lemma {:induction false} SumOfCounts(es: seq<TraceEvent>, sids: set<SessionId>, max: nat)
    requires forall e :: e in es ==> e.sid in sids
    requires forall sid :: sid in sids ==> |Of(es, sid)| <= max
    ensures |es| <= max * |sids|
    decreases |sids|
  {
    if es != [] {
      var sid := es[0].sid;
      assert es[0] in es;
      var rest, others := NotOf(es, sid), sids - {sid};
      NotOfSplits(es, sid, sid);
      forall other | other in others ensures |Of(rest, other)| <= max {
        NotOfSplits(es, sid, other);
      }
      assert |others| == |sids| - 1;
      SumOfCounts(rest, others, max);
      OneMore(|Of(es, sid)|, |rest|, |es|, |others|, max);
    }
  }

  lemma OutstandingNatural(l: Limits, s: State)
    requires Inv(l, s)
    ensures Outstanding(l, s) >= 0
  {
    var sids := s.sessions.Keys;
    forall sid | sid in sids ensures |Of(s.admitted, sid)| <= l.maxEvents {
      assert NumberedFor(l, s.sessions[sid], Of(s.admitted, sid));
    }
    SumOfCounts(s.admitted, sids, l.maxEvents);
    assert |sids| == |s.sessions|;
  }

  /** The worker steps that sessions opened during the run may still cause. */
  function NewWork(l: Limits, steps: seq<Step>): int {
    SessionsOpened(steps) * Cost(l, l.maxEvents)
  }

  lemma NewWorkCons(l: Limits, a: Step, steps: seq<Step>)
    ensures NewWork(l, [a] + steps) ==
            NewWork(l, steps) + if a.NewSession? then Cost(l, l.maxEvents) else 0
    ensures WorkerSteps([a] + steps) == WorkerSteps(steps) + if WorkerStep(a) then 1 else 0
  {
    var all := [a] + steps;
    assert all[1..] == steps;
    MulAdds(SessionsOpened(steps), 1, Cost(l, l.maxEvents));
  }

  lemma {:induction false} PotentialRun(l: Limits, s: State, steps: seq<Step>)
    requires Inv(l, s) && Run(l, s, steps).Some?
    ensures WorkerSteps(steps) + Potential(l, Run(l, s, steps).value) <= Potential(l, s) + NewWork(l, steps)
    decreases |steps|
  {
    if steps != [] {
      var a, tail := steps[0], steps[1..];
      assert steps == [a] + tail;
      NewWorkCons(l, a, tail);
      StepKeepsInv(l, s, a);
      PotentialStep(l, s, a);
      PotentialRun(l, Next(l, s, a).value, tail);
    }
  }

  lemma CostNatural(l: Limits, n: nat)
    ensures Cost(l, n) >= 0
  {
    MulMonotone(0, n, l.sinks + 1);
  }

  /** No potential is left only when the worker has returned. */
  lemma PotentialNatural(l: Limits, s: State)
    requires Inv(l, s)
    ensures Potential(l, s) >= 0 && (Potential(l, s) == 0 ==> s.worker.Exited?)
  {
    OutstandingNatural(l, s);
    CostNatural(l, Outstanding(l, s));
  }

  /** However the sessions keep emitting, the worker takes a bounded number of steps, one bounded by the
      events that can still come: those queued, those in flight, and the unspent budgets of the sessions
      open at the start or opened since. When the bound is used up, the worker has returned. */
  lemma WorkerStepsBounded(l: Limits, s: State, steps: seq<Step>)
    requires Reachable(l, s) && Run(l, s, steps).Some?
    ensures WorkerSteps(steps) <= Potential(l, s) + NewWork(l, steps)
    ensures WorkerSteps(steps) == Potential(l, s) + NewWork(l, steps) ==> Run(l, s, steps).value.worker.Exited?
  {
    ReachableInv(l, s);
    RunKeepsInv(l, s, steps);
    PotentialRun(l, s, steps);
    PotentialNatural(l, Run(l, s, steps).value);
  }

  /** After the stop signal the worker can always take a step until it has returned, so with the bound
      above the drain loop ends and Close gets past its wait. */
  lemma DrainNeverStuck(l: Limits, s: State)
    requires Reachable(l, s) && s.stopped && !s.worker.Exited?
    ensures exists a :: WorkerStep(a) && Next(l, s, a).Some?
  {
    ReachableInv(l, s);
    var a := match s.worker
             case Selecting => SeeStop
             case Writing(_, _, _) => WriteSink
             case _ => if s.queue == [] then WorkerExit else Receive;
    assert WorkerStep(a) && Next(l, s, a).Some?;
  }
}
