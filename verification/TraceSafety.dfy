/** What every interleaving of the asynchronous tracer keeps. */
module TraceSafety {
  import opened GoStrings
  import opened TraceProtocol

  /** Bounds, and which worker states go with which close states. */
  ghost predicate Shape(l: Limits, s: State) {
    |s.logs| == l.sinks && |s.queue| <= l.queueSize && s.closedSinks <= l.sinks &&
    (s.worker.Writing? ==> s.worker.k < l.sinks) &&
    (s.worker.Draining? || s.worker.Exited? || (s.worker.Writing? && s.worker.draining) ==> s.stopped) &&
    (s.closedSinks > 0 ==> s.worker.Exited?) &&
    (forall p :: p in s.pending ==> p.Caller() in s.sessions)
  }

  /** Every sink's log is what was delivered to all, except that sinks before the worker's position
      also have the event in hand; together with the queue they make up what was ever enqueued. */
  ghost predicate Flow(l: Limits, s: State) {
    |s.logs| == l.sinks > 0 &&
    s.enqueued == Delivered(s) + Hand(s) + s.queue &&
    forall k :: 0 <= k < l.sinks ==>
      s.logs[k] == Delivered(s) + (if s.worker.Writing? && k < s.worker.k then [s.worker.e] else [])
  }

  /** Every admitted event is in flight, dropped or enqueued, and in one of them only. */
  ghost predicate Conserved(s: State) {
    multiset(s.admitted) == multiset(InFlight(s.pending)) + multiset(s.dropped) + multiset(s.enqueued)
  }

  /** A session's admitted events carry the numbers 1, 2, ... up to its counter, within its budget. */
  ghost predicate NumberedFor(l: Limits, ss: SessionState, es: seq<TraceEvent>) {
    |es| == ss.eventCnt <= l.maxEvents && forall i :: 0 <= i < |es| ==> es[i].no == i + 1
  }

  ghost predicate Numbered(l: Limits, s: State) {
    (forall e :: e in s.admitted ==> e.sid in s.sessions) &&
    (forall sid :: sid in s.sessions ==> NumberedFor(l, s.sessions[sid], Of(s.admitted, sid)))
  }

  ghost predicate Inv(l: Limits, s: State) {
    ValidLimits(l) && Shape(l, s) && Flow(l, s) && Conserved(s) && Numbered(l, s)
  }

  lemma InitInv(l: Limits)
    requires ValidLimits(l)
    ensures Inv(l, Init(l))
  {
    assert Init(l).logs[l.sinks - 1] == [];
  }

  lemma StepKeepsShape(l: Limits, s: State, a: Step)
    requires ValidLimits(l) && Shape(l, s) && Next(l, s, a).Some?
    ensures Shape(l, Next(l, s, a).value)
  {
    var t := Next(l, s, a).value;
    if a.Proceed? {
      assert s.pending[a.i] in s.pending;
    }
  }

  lemma HandOverKeepsFlow(l: Limits, s: State)
    requires Flow(l, s) && s.worker.Writing? && s.worker.k < l.sinks
    ensures Flow(l, HandOver(l, s))
  {
    var t, e, k := HandOver(l, s), s.worker.e, s.worker.k;
    assert t.logs[k] == Delivered(s) + [e];
    if k + 1 == l.sinks {
      assert Delivered(t) == Delivered(s) + [e];
    }
  }

  lemma ReceiveKeepsFlow(l: Limits, s: State)
    requires Flow(l, s) && !s.worker.Writing? && |s.queue| > 0
    ensures Flow(l, s.(queue := s.queue[1..], worker := Writing(s.queue[0], 0, s.worker.Draining?)))
  {
    var e, rest := s.queue[0], s.queue[1..];
    assert s.queue == [e] + rest;
    Regroup(Delivered(s), [e], rest);
    assert Delivered(s) + [] == Delivered(s);
  }

  lemma ProceedKeepsFlow(l: Limits, s: State, i: nat)
    requires Flow(l, s) && i < |s.pending| && (s.pending[i].Marking? ==> s.pending[i].sid in s.sessions)
    ensures Flow(l, ProceedCall(l, s, i))
  {
    if s.pending[i].Sending? {
      Regroup(Delivered(s) + Hand(s), s.queue, [s.pending[i].e]);
    }
  }

  lemma StepKeepsFlow(l: Limits, s: State, a: Step)
    requires ValidLimits(l) && Shape(l, s) && Flow(l, s) && Next(l, s, a).Some?
    ensures Flow(l, Next(l, s, a).value)
  {
    match a
    case WriteSink => HandOverKeepsFlow(l, s);
    case Receive => ReceiveKeepsFlow(l, s);
    case Proceed(i) => ProceedKeepsFlow(l, s, i);
    case _ =>
  }

  lemma InFlightAppend(ps: seq<Pending>, p: Pending)
    ensures InFlight(ps + [p]) == if p.Sending? then InFlight(ps) + [p.e] else InFlight(ps)
  {
    InFlightConcat(ps, [p]);
    InFlightOne(p);
  }

  /** One more event on both sides of the account. */
  lemma AccountGrows(adm: seq<TraceEvent>, inf: seq<TraceEvent>, inf': seq<TraceEvent>, out: multiset<TraceEvent>,
                     e: TraceEvent)
    requires multiset(adm) == multiset(inf) + out && inf' == inf + [e]
    ensures multiset(adm + [e]) == multiset(inf') + out
  {
  }

  /** One event moves from the in-flight side to the other. */
  lemma AccountMoves(inf: seq<TraceEvent>, inf': seq<TraceEvent>, out: seq<TraceEvent>, e: TraceEvent)
    requires multiset(inf) == multiset(inf') + multiset([e])
    ensures multiset(inf) + multiset(out) == multiset(inf') + multiset(out + [e])
  {
  }

  lemma AdmitKeepsConserved(l: Limits, s: State, sid: SessionId, c: Call)
    requires Conserved(s) && sid in s.sessions
    ensures Conserved(AdmitCall(l, s, sid, c))
  {
    var ss, t := s.sessions[sid], AdmitCall(l, s, sid, c);
    var p := if ss.ended || ss.eventCnt >= l.maxEvents then Marking(sid)
             else Sending(EventOf(sid, ss.eventCnt + 1, c));
    InFlightAppend(s.pending, p);
    if p.Sending? {
      var inf, inf' := InFlight(s.pending), InFlight(t.pending);
      AccountGrows(s.admitted, inf, inf', multiset(s.dropped) + multiset(s.enqueued), p.e);
    }
  }

  lemma ProceedKeepsConserved(l: Limits, s: State, i: nat)
    requires Conserved(s) && i < |s.pending| && (s.pending[i].Marking? ==> s.pending[i].sid in s.sessions)
    ensures Conserved(ProceedCall(l, s, i))
  {
    var p, t := s.pending[i], ProceedCall(l, s, i);
    var inf, inf' := InFlight(s.pending), InFlight(t.pending);
    InFlightAfter(l, s, i);
    if p.Sending? {
      AccountMoves(inf, inf', if |s.queue| < l.queueSize then s.enqueued else s.dropped, p.e);
    }
  }

  lemma InFlightAfter(l: Limits, s: State, i: nat)
    requires i < |s.pending| && (s.pending[i].Marking? ==> s.pending[i].sid in s.sessions)
    ensures multiset(InFlight(s.pending)) ==
            multiset(InFlight(ProceedCall(l, s, i).pending)) +
            multiset(if s.pending[i].Sending? then [s.pending[i].e] else [])
  {
    var p, t := s.pending[i], ProceedCall(l, s, i);
    var rest: seq<Pending> := if p.Sending? then AfterSend(p.e) else [];
    var left := s.pending[..i] + rest + s.pending[i + 1..];
    assert t.pending == left;
    InFlightReplace(s.pending, i, rest);
    InFlightOne(p);
    assert InFlight(rest) == [];
  }

  lemma InFlightOne(p: Pending)
    ensures InFlight([p]) == if p.Sending? then [p.e] else []
  {
    var ps := [p];
    assert ps[1..] == [];
  }

  lemma StepKeepsConserved(l: Limits, s: State, a: Step)
    requires Conserved(s) && Next(l, s, a).Some?
    ensures Conserved(Next(l, s, a).value)
  {
    match a
    case Admit(sid, c) => AdmitKeepsConserved(l, s, sid, c);
    case Proceed(i) => ProceedKeepsConserved(l, s, i);
    case _ =>
  }

  lemma NumberedGrows(l: Limits, ss: SessionState, es: seq<TraceEvent>, e: TraceEvent)
    requires NumberedFor(l, ss, es) && ss.eventCnt < l.maxEvents && e.no == ss.eventCnt + 1
    ensures NumberedFor(l, ss.(eventCnt := ss.eventCnt + 1), es + [e])
  {
  }

  lemma AdmitKeepsNumbered(l: Limits, s: State, sid: SessionId, c: Call)
    requires Numbered(l, s) && sid in s.sessions
    ensures Numbered(l, AdmitCall(l, s, sid, c))
  {
    var ss, t := s.sessions[sid], AdmitCall(l, s, sid, c);
    var e := EventOf(sid, ss.eventCnt + 1, c);
    if t.admitted != s.admitted {
      forall other | other in t.sessions ensures NumberedFor(l, t.sessions[other], Of(t.admitted, other)) {
        OfAppend(s.admitted, e, other);
        assert NumberedFor(l, s.sessions[other], Of(s.admitted, other));
        if other == sid {
          NumberedGrows(l, ss, Of(s.admitted, sid), e);
        }
      }
      forall x | x in t.admitted ensures x.sid in t.sessions {
        assert x in s.admitted || x == e;
      }
    }
  }

  lemma StepKeepsNumbered(l: Limits, s: State, a: Step)
    requires Numbered(l, s) && Next(l, s, a).Some?
    ensures Numbered(l, Next(l, s, a).value)
  {
    var t := Next(l, s, a).value;
    match a
    case NewSession(sid) =>
      OfUnknown(s.admitted, sid);
    case Admit(sid, c) =>
      AdmitKeepsNumbered(l, s, sid, c);
    case Proceed(i) =>
      assert t.admitted == s.admitted;
      forall other | other in t.sessions ensures NumberedFor(l, t.sessions[other], Of(t.admitted, other)) {
        assert NumberedFor(l, s.sessions[other], Of(s.admitted, other));
      }
    case _ =>
  }

  lemma OfAppend(es: seq<TraceEvent>, e: TraceEvent, sid: SessionId)
    ensures Of(es + [e], sid) == if e.sid == sid then Of(es, sid) + [e] else Of(es, sid)
  {
    var one := [e];
    assert one[1..] == [];
    OfConcat(es, one, sid);
  }

  lemma {:induction false} OfUnknown(es: seq<TraceEvent>, sid: SessionId)
    requires forall e :: e in es ==> e.sid != sid
    ensures Of(es, sid) == []
  {
    if es != [] {
      assert es[0] in es;
      OfUnknown(es[1..], sid);
    }
  }

  lemma {:induction false} RunKeepsInv(l: Limits, s: State, steps: seq<Step>)
    requires Inv(l, s) && Run(l, s, steps).Some?
    ensures Inv(l, Run(l, s, steps).value)
    decreases |steps|
  {
    if steps != [] {
      StepKeepsInv(l, s, steps[0]);
      RunKeepsInv(l, Next(l, s, steps[0]).value, steps[1..]);
    }
  }

  lemma ReachableInv(l: Limits, s: State)
    requires Reachable(l, s)
    ensures Inv(l, s)
  {
    InitInv(l);
    var steps :| Run(l, Init(l), steps) == Some(s);
    RunKeepsInv(l, Init(l), steps);
  }

  // ---- conservation

  lemma SumLength(a: seq<TraceEvent>, b: seq<TraceEvent>, c: seq<TraceEvent>, d: seq<TraceEvent>)
    requires forall e :: multiset(a)[e] == multiset(b)[e] + multiset(c)[e] + multiset(d)[e]
    ensures |a| == |b| + |c| + |d|
  {
    assert multiset(a) == multiset(b) + multiset(c) + multiset(d);
    assert |multiset(a)| == |multiset(b)| + |multiset(c)| + |multiset(d)|;
  }

  lemma OfLength(a: seq<TraceEvent>, b: seq<TraceEvent>, c: seq<TraceEvent>, d: seq<TraceEvent>, sid: SessionId)
    requires multiset(a) == multiset(b) + multiset(c) + multiset(d)
    ensures |Of(a, sid)| == |Of(b, sid)| + |Of(c, sid)| + |Of(d, sid)|
  {
    forall e: TraceEvent
      ensures multiset(Of(a, sid))[e] == multiset(Of(b, sid))[e] + multiset(Of(c, sid))[e] + multiset(Of(d, sid))[e]
    {
      OfMultiset(a, sid, e);
      OfMultiset(b, sid, e);
      OfMultiset(c, sid, e);
      OfMultiset(d, sid, e);
      assert multiset(a)[e] == multiset(b)[e] + multiset(c)[e] + multiset(d)[e];
    }
    SumLength(Of(a, sid), Of(b, sid), Of(c, sid), Of(d, sid));
  }

  /** In every reachable state a session's counter is within its budget and accounts for each of its
      admitted events: in flight, dropped, queued, in the worker's hand, or delivered to every sink. */
  lemma Conservation(l: Limits, s: State, sid: SessionId)
    requires Reachable(l, s) && sid in s.sessions
    ensures |s.logs| == l.sinks > 0
    ensures s.sessions[sid].eventCnt ==
            |Of(InFlight(s.pending), sid)| + |Of(s.dropped, sid)| + |Of(s.queue, sid)| +
            |Of(Hand(s), sid)| + |Of(Delivered(s), sid)|
    ensures s.sessions[sid].eventCnt <= l.maxEvents
    ensures |s.queue| <= l.queueSize
  {
    ReachableInv(l, s);
    OfLength(s.admitted, InFlight(s.pending), s.dropped, s.enqueued, sid);
    OfConcat(Delivered(s) + Hand(s), s.queue, sid);
    OfConcat(Delivered(s), Hand(s), sid);
  }

  /** No event is admitted twice, so none is enqueued, dropped or delivered twice. */
  lemma AdmittedOnce(l: Limits, s: State, e: TraceEvent)
    requires Numbered(l, s)
    ensures multiset(s.admitted)[e] <= 1
  {
    if e in s.admitted {
      OfMultiset(s.admitted, e.sid, e);
      DistinctNumbers(Of(s.admitted, e.sid), e);
    }
  }

  lemma {:induction false} DistinctNumbers(es: seq<TraceEvent>, e: TraceEvent)
    requires forall i :: 0 <= i < |es| ==> es[i].no == i + 1
    ensures multiset(es)[e] <= 1
  {
    if es != [] {
      var front, z := es[..|es| - 1], es[|es| - 1];
      assert es == front + [z];
      DistinctNumbers(front, e);
      if e in front {
        assert e != z;
      }
    }
  }

  /** The sinks agree: between two events all logs are equal, while one event is being handed out the
      sinks before the worker's position are ahead of the others by exactly that event, every log is a
      prefix of the order in which events were enqueued, and no log holds an event twice. */
  lemma SinksAgree(l: Limits, s: State, j: nat, k: nat)
    requires Reachable(l, s) && j < k < l.sinks
    ensures |s.logs| == l.sinks
    ensures s.logs[j] == s.logs[k] ||
            (s.worker.Writing? && j < s.worker.k <= k && s.logs[j] == s.logs[k] + [s.worker.e])
    ensures !s.worker.Writing? ==> s.logs[j] == s.logs[k]
    ensures s.logs[j] <= s.enqueued && s.logs[k] <= s.enqueued
    ensures forall e :: multiset(s.logs[j])[e] <= 1
  {
    ReachableInv(l, s);
    LogPrefix(l, s, j, []);
    LogPrefix(l, s, k, []);
  }

  // ---- close

  /** The events `es` are in the enqueued history, and all delivered once the worker has returned. */
  ghost predicate Kept(l: Limits, s: State, es: seq<TraceEvent>) {
    es <= s.enqueued && (s.worker.Exited? ==> |s.logs| > 0 && es <= Delivered(s))
  }

  lemma NothingUnderway(l: Limits, s: State)
    requires Flow(l, s) && !s.worker.Writing? && s.queue == []
    ensures Delivered(s) == s.enqueued
  {
  }

  lemma StepKeeps(l: Limits, s: State, a: Step, es: seq<TraceEvent>)
    requires Flow(l, s) && Kept(l, s, es) && Next(l, s, a).Some?
    ensures Kept(l, Next(l, s, a).value, es)
  {
    var t := Next(l, s, a).value;
    EnqueuedGrows(l, s, a);
    if a.WorkerExit? {
      NothingUnderway(l, s);
    } else if t.worker.Exited? {
      assert t.logs == s.logs;
    }
  }

  lemma EnqueuedGrows(l: Limits, s: State, a: Step)
    requires Next(l, s, a).Some?
    ensures s.enqueued <= Next(l, s, a).value.enqueued
  {
  }

  lemma StepKeepsInv(l: Limits, s: State, a: Step)
    requires Inv(l, s) && Next(l, s, a).Some?
    ensures Inv(l, Next(l, s, a).value)
  {
    StepKeepsShape(l, s, a);
    StepKeepsFlow(l, s, a);
    StepKeepsConserved(l, s, a);
    StepKeepsNumbered(l, s, a);
  }

  lemma {:induction false} RunKeeps(l: Limits, s: State, steps: seq<Step>, es: seq<TraceEvent>)
    requires Inv(l, s) && Kept(l, s, es) && Run(l, s, steps).Some?
    ensures Kept(l, Run(l, s, steps).value, es)
    decreases |steps|
  {
    if steps != [] {
      StepKeepsInv(l, s, steps[0]);
      StepKeeps(l, s, steps[0], es);
      RunKeeps(l, Next(l, s, steps[0]).value, steps[1..], es);
    }
  }

  lemma LogPrefix(l: Limits, s: State, k: nat, es: seq<TraceEvent>)
    requires Inv(l, s) && k < l.sinks && es <= s.logs[k]
    ensures s.logs[k] <= s.enqueued
    ensures forall e :: multiset(s.logs[k])[e] <= 1
    ensures forall e :: e in es ==> multiset(s.logs[k])[e] == 1
  {
    var rest := s.enqueued[|s.logs[k]|..];
    assert s.enqueued == s.logs[k] + rest;
    forall e ensures multiset(s.logs[k])[e] <= 1 {
      AdmittedOnce(l, s, e);
      assert multiset(s.enqueued)[e] == multiset(s.logs[k])[e] + multiset(rest)[e];
    }
    forall e | e in es ensures multiset(s.logs[k])[e] == 1 {
      assert e in s.logs[k];
    }
  }

  lemma RunOne(l: Limits, s: State, a: Step)
    ensures Run(l, s, [a]) == Next(l, s, a)
  {
    assert [a][1..] == [];
  }

  lemma DrainedBeforeClose(l: Limits, s: State, steps: seq<Step>, k: nat)
    requires Inv(l, s) && !s.worker.Exited? && k < l.sinks
    requires Run(l, s, steps).Some? && Run(l, s, steps).value.closedSinks > 0
    ensures var t := Run(l, s, steps).value;
            |t.logs| == l.sinks && s.enqueued <= t.logs[k] <= t.enqueued &&
            forall e :: e in s.enqueued ==> multiset(t.logs[k])[e] == 1
  {
    var t := Run(l, s, steps).value;
    RunKeepsInv(l, s, steps);
    RunKeeps(l, s, steps, s.enqueued);
    LogPrefix(l, t, k, s.enqueued);
  }

  /** Close: whatever was enqueued before the stop signal has, by the time any sink is closed, been
      handed to every sink, each event once and in queue order. */
  lemma StopDelivers(l: Limits, before: seq<Step>, after: seq<Step>, k: nat)
    requires ValidLimits(l) && Run(l, Init(l), before + ([Stop] + after)).Some?
    requires Run(l, Init(l), before + ([Stop] + after)).value.closedSinks > 0
    requires k < l.sinks
    ensures Run(l, Init(l), before).Some?
    ensures var atStop, s := Run(l, Init(l), before).value, Run(l, Init(l), before + ([Stop] + after)).value;
            |s.logs| == l.sinks && atStop.enqueued <= s.logs[k] <= s.enqueued &&
            forall e :: e in atStop.enqueued ==> multiset(s.logs[k])[e] == 1
  {
    var init, steps := Init(l), [Stop] + after;
    RunConcat(l, init, before, steps);
    var atStop := Run(l, init, before).value;
    InitInv(l);
    RunKeepsInv(l, init, before);
    assert steps[0] == Stop;
    DrainedBeforeClose(l, atStop, steps, k);
  }

  lemma ExitIsFinal(l: Limits, s: State, a: Step)
    requires s.worker.Exited? && Next(l, s, a).Some?
    ensures !a.WriteSink? && !a.Receive?
    ensures var t := Next(l, s, a).value; t.worker.Exited? && t.logs == s.logs && s.queue <= t.queue
  {
  }

  /** Once the worker has returned, no sink is written again, whatever is still sent: such events stay
      in the queue. In particular no sink is written after it is closed. */
  lemma {:induction false} NoWriteAfterExit(l: Limits, s: State, steps: seq<Step>)
    requires Reachable(l, s) && (s.worker.Exited? || s.closedSinks > 0)
    requires Run(l, s, steps).Some?
    ensures WriteSink !in steps && Receive !in steps
    ensures Run(l, s, steps).value.logs == s.logs
    ensures s.queue <= Run(l, s, steps).value.queue
    decreases |steps|
  {
    if steps != [] {
      ReachableInv(l, s);
      ExitIsFinal(l, s, steps[0]);
      var t := Next(l, s, steps[0]).value;
      ReachableNext(l, s, steps[0]);
      NoWriteAfterExit(l, t, steps[1..]);
    }
  }

  lemma ReachableNext(l: Limits, s: State, a: Step)
    requires Reachable(l, s) && Next(l, s, a).Some?
    ensures Reachable(l, Next(l, s, a).value)
  {
    var steps :| Run(l, Init(l), steps) == Some(s);
    RunConcat(l, Init(l), steps, [a]);
    RunOne(l, s, a);
    assert Run(l, Init(l), steps + [a]) == Next(l, s, a);
  }
}
