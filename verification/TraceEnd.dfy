/** End's event and the other events of its session: when it is the last one, and when another follows. */
module TraceEnd {
  import opened GoStrings
  import opened TraceProtocol
  import opened TraceSafety
  import opened TraceOrder

  /** Only the last event of the list may be End's. */
  ghost predicate EndLast(es: seq<TraceEvent>) {
    forall i :: 0 <= i < |es| - 1 ==> !es[i].last
  }

  predicate OfEnd(p: Pending) {
    p.Marking? || p.e.last
  }

  // ---- End undisturbed

  /** No call of the session overlaps End: none starts while End is pending, and End starts while none is. */
  ghost predicate EndUndisturbed(l: Limits, s: State, steps: seq<Step>, sid: SessionId)
    decreases |steps|
  {
    steps == [] ||
    ((steps[0].Admit? && steps[0].sid == sid ==> MayCall(PendingOf(s.pending, sid), steps[0].call)) &&
     (Next(l, s, steps[0]).Some? ==> EndUndisturbed(l, Next(l, s, steps[0]).value, steps[1..], sid)))
  }

  ghost predicate MayCall(ps: seq<Pending>, c: Call) {
    if c.End? then ps == [] else forall p :: p in ps ==> !OfEnd(p)
  }

  lemma {:induction false} TurnsLeaveEndUndisturbed(l: Limits, s: State, steps: seq<Step>, sid: SessionId)
    requires CalledInTurn(l, s, steps, sid)
    ensures EndUndisturbed(l, s, steps, sid)
    decreases |steps|
  {
    if steps != [] && Next(l, s, steps[0]).Some? {
      TurnsLeaveEndUndisturbed(l, Next(l, s, steps[0]).value, steps[1..], sid);
    }
  }

  ghost predicate EndAdmitted(adm: seq<TraceEvent>) {
    adm != [] && adm[|adm| - 1].last
  }

  /** What an undisturbed End keeps: while it is pending it is alone; once its event is admitted, it is
      pending until `ended` is set; once its event is enqueued, nothing is being sent. */
  ghost predicate EndAlone(ended: bool, adm: seq<TraceEvent>, enq: seq<TraceEvent>, ps: seq<Pending>) {
    EndLast(adm) && EndLast(enq) && (forall q :: q in enq ==> q in adm) &&
    (forall p :: p in ps ==> (p.Sending? ==> p.e in adm) && (OfEnd(p) ==> |ps| == 1)) &&
    (EndAdmitted(adm) && !ended ==> |ps| == 1 && OfEnd(ps[0])) &&
    (forall q, p :: q in enq && q.last && p in ps ==> p.Marking?)
  }

  ghost predicate EndAloneAt(s: State, sid: SessionId) {
    EndAlone(sid in s.sessions && s.sessions[sid].ended,
             Of(s.admitted, sid), Of(s.enqueued, sid), PendingOf(s.pending, sid))
  }

  lemma LastAdmitted(adm: seq<TraceEvent>, q: TraceEvent)
    requires EndLast(adm) && q in adm && q.last
    ensures EndAdmitted(adm)
  {
  }

  lemma AdmissionLeavesEnd(adm: seq<TraceEvent>, enq: seq<TraceEvent>, ps: seq<Pending>, e: TraceEvent, c: Call)
    requires EndAlone(false, adm, enq, ps) && MayCall(ps, c) && e.last == c.End?
    ensures EndAlone(false, adm + [e], enq, ps + [Sending(e)])
  {
    assert !EndAdmitted(adm);
    forall q | q in enq ensures !q.last {
      if q.last { LastAdmitted(adm, q); }
    }
  }

  lemma RefusalLeavesEnd(ended: bool, adm: seq<TraceEvent>, enq: seq<TraceEvent>, sid: SessionId)
    requires EndAlone(ended, adm, enq, [])
    ensures EndAlone(ended, adm, enq, [] + [Marking(sid)])
  {
  }

  lemma AdmitLeavesEnd(l: Limits, s: State, caller: SessionId, c: Call, sid: SessionId)
    requires caller in s.sessions && EndAloneAt(s, sid)
    requires caller == sid ==> MayCall(PendingOf(s.pending, sid), c)
    ensures EndAloneAt(AdmitCall(l, s, caller, c), sid)
  {
    AdmitSeen(l, s, caller, c, sid);
    if caller == sid {
      var adm, enq := Of(s.admitted, sid), Of(s.enqueued, sid);
      if Admits(l, s, sid) {
        AdmissionLeavesEnd(adm, enq, PendingOf(s.pending, sid), EventOf(sid, s.sessions[sid].eventCnt + 1, c), c);
      } else if c.End? {
        RefusalLeavesEnd(s.sessions[sid].ended, adm, enq, sid);
      }
    }
  }

  /** The session's own event leaves for the queue, or is dropped. */
  lemma SendLeavesEnd(ended: bool, adm: seq<TraceEvent>, enq: seq<TraceEvent>, a: seq<Pending>, e: TraceEvent,
                      b: seq<Pending>, sid: SessionId, enq': seq<TraceEvent>)
    requires EndAlone(ended, adm, enq, a + [Sending(e)] + b) && (enq' == enq || enq' == enq + [e])
    ensures EndAlone(ended, adm, enq', if e.last then a + [Marking(sid)] + b else a + b)
  {
    var ps, p := a + [Sending(e)] + b, Sending(e);
    assert ps[|a|] == p;
    assert forall q :: q in enq ==> !q.last by {
      forall q | q in enq ensures !q.last { assert p in ps && !p.Marking?; }
    }
    if e.last {
      assert OfEnd(p) && |ps| == 1;
      OneLeft(a, p, b);
      assert a + [Marking(sid)] + b == [Marking(sid)];
    } else {
      assert forall x :: x in a + b ==> x in ps;
    }
  }

  lemma MarkLeavesEnd(ended: bool, adm: seq<TraceEvent>, enq: seq<TraceEvent>, a: seq<Pending>, b: seq<Pending>,
                      sid: SessionId)
    requires EndAlone(ended, adm, enq, a + [Marking(sid)] + b)
    ensures EndAlone(true, adm, enq, a + b)
  {
    var ps, p := a + [Marking(sid)] + b, Marking(sid);
    assert ps[|a|] == p && OfEnd(p);
    OneLeft(a, p, b);
  }

  lemma ProceedLeavesEnd(l: Limits, s: State, i: nat, sid: SessionId)
    requires EndAloneAt(s, sid) && i < |s.pending| && (s.pending[i].Marking? ==> s.pending[i].sid in s.sessions)
    ensures EndAloneAt(ProceedCall(l, s, i), sid)
  {
    var p, t := s.pending[i], ProceedCall(l, s, i);
    var a, b := PendingOf(s.pending[..i], sid), PendingOf(s.pending[i + 1..], sid);
    var ended, adm, enq := sid in s.sessions && s.sessions[sid].ended, Of(s.admitted, sid), Of(s.enqueued, sid);
    var ended', enq' := sid in t.sessions && t.sessions[sid].ended, Of(t.enqueued, sid);
    ProceedSeen(l, s, i, sid);
    if p.Sending? {
      OfAppend(s.enqueued, p.e, sid);
    }
    ProceedOnValues(ended, adm, enq, PendingOf(s.pending, sid), ended', enq', PendingOf(t.pending, sid), a, p, b, sid);
  }

  lemma ProceedOnValues(ended: bool, adm: seq<TraceEvent>, enq: seq<TraceEvent>, ps: seq<Pending>,
                        ended': bool, enq': seq<TraceEvent>, ps': seq<Pending>,
                        a: seq<Pending>, p: Pending, b: seq<Pending>, sid: SessionId)
    requires EndAlone(ended, adm, enq, ps)
    requires p.Caller() != sid ==> ended' == ended && enq' == enq && ps' == ps
    requires p.Caller() == sid ==> ps == a + [p] + b
    requires p.Caller() == sid && p.Sending? ==>
               ended' == ended && (enq' == enq || enq' == enq + [p.e]) &&
               ps' == if p.e.last then a + [Marking(sid)] + b else a + b
    requires p.Caller() == sid && p.Marking? ==> ended' && enq' == enq && ps' == a + b
    ensures EndAlone(ended', adm, enq', ps')
  {
    if p.Caller() == sid {
      if p.Sending? {
        SendLeavesEnd(ended, adm, enq, a, p.e, b, sid, enq');
      } else {
        MarkLeavesEnd(ended, adm, enq, a, b, sid);
      }
    }
  }

  lemma StepLeavesEnd(l: Limits, s: State, a: Step, sid: SessionId)
    requires EndAloneAt(s, sid) && Next(l, s, a).Some?
    requires a.Admit? && a.sid == sid ==> MayCall(PendingOf(s.pending, sid), a.call)
    ensures EndAloneAt(Next(l, s, a).value, sid)
  {
    match a
    case Admit(caller, c) => AdmitLeavesEnd(l, s, caller, c, sid);
    case Proceed(i) => ProceedLeavesEnd(l, s, i, sid);
    case _ => OthersSeen(l, s, a, sid);
  }

  lemma {:induction false} RunLeavesEnd(l: Limits, s: State, steps: seq<Step>, sid: SessionId)
    requires EndAloneAt(s, sid) && EndUndisturbed(l, s, steps, sid) && Run(l, s, steps).Some?
    ensures EndAloneAt(Run(l, s, steps).value, sid)
    decreases |steps|
  {
    if steps != [] {
      StepLeavesEnd(l, s, steps[0], sid);
      RunLeavesEnd(l, Next(l, s, steps[0]).value, steps[1..], sid);
    }
  }

  lemma EndLastPrefix(a: seq<TraceEvent>, b: seq<TraceEvent>)
    requires a <= b && EndLast(b)
    ensures EndLast(a)
  {
  }

  /** Where no call of the session overlaps End, however the others overlap, End's event is the last one:
      among those admitted, those enqueued and those any sink gets. */
  lemma EndIsLast(l: Limits, steps: seq<Step>, sid: SessionId, k: nat)
    requires ValidLimits(l) && k < l.sinks && Run(l, Init(l), steps).Some? && EndUndisturbed(l, Init(l), steps, sid)
    ensures var s := Run(l, Init(l), steps).value;
            EndLast(Of(s.admitted, sid)) && EndLast(Of(s.enqueued, sid)) &&
            |s.logs| == l.sinks && EndLast(Of(s.logs[k], sid))
  {
    var s := Run(l, Init(l), steps).value;
    InitInv(l);
    RunKeepsInv(l, Init(l), steps);
    RunLeavesEnd(l, Init(l), steps, sid);
    LogPrefix(l, s, k, []);
    OfPrefix(s.logs[k], s.enqueued, sid);
    EndLastPrefix(Of(s.logs[k], sid), Of(s.enqueued, sid));
  }

  /** A session called by one goroutine at a time: every sink gets a subsequence of the calls in call
      order (each event's number names its call, and the numbers grow), and End's event is the last. */
  lemma SequentialOrder(l: Limits, steps: seq<Step>, sid: SessionId, k: nat)
    requires ValidLimits(l) && k < l.sinks && Run(l, Init(l), steps).Some? && CalledInTurn(l, Init(l), steps, sid)
    ensures var s := Run(l, Init(l), steps).value;
            |s.logs| == l.sinks &&
            var got := Of(s.logs[k], sid);
            Increasing(got) && Answers(got, sid, CallsOf(steps, sid)) &&
            EndLast(got) && EndLast(Of(s.admitted, sid))
  {
    DeliveredCalls(l, steps, sid, k);
    DeliveredInTurn(l, steps, sid, k);
    TurnsLeaveEndUndisturbed(l, Init(l), steps, sid);
    EndIsLast(l, steps, sid, k);
  }

  // ---- End overtaken

  /** After e comes another event of its session. */
  ghost predicate Follows(es: seq<TraceEvent>, e: TraceEvent) {
    exists a, b :: 0 <= a < b < |es| && es[a] == e && es[b].sid == e.sid
  }

  ghost predicate CanBeFollowed(l: Limits, s: State, e: TraceEvent) {
    exists steps :: Run(l, s, steps).Some? && Follows(Run(l, s, steps).value.enqueued, e)
  }

  ghost predicate SendsFor(p: Pending, sid: SessionId) {
    p.Sending? && p.e.sid == sid
  }

  ghost predicate OtherInFlight(s: State, i: nat)
    requires i < |s.pending| && s.pending[i].Sending?
  {
    exists j :: 0 <= j < |s.pending| && j != i && SendsFor(s.pending[j], s.pending[i].e.sid)
  }

  /** The worker, unless it has returned, finishes with the event in its hand. */
  lemma {:induction false} FinishHand(l: Limits, s: State) returns (steps: seq<Step>, t: State)
    requires Inv(l, s) && !s.worker.Exited?
    ensures Run(l, s, steps) == Some(t) && Inv(l, t)
    ensures t.worker.Selecting? || t.worker.Draining?
    ensures t.pending == s.pending && t.sessions == s.sessions && t.queue == s.queue && t.enqueued == s.enqueued
    decreases if s.worker.Writing? then l.sinks - s.worker.k else 0
  {
    if s.worker.Writing? {
      var s1 := Next(l, s, WriteSink).value;
      StepKeepsInv(l, s, WriteSink);
      var rest;
      rest, t := FinishHand(l, s1);
      RunFirst(l, s, WriteSink, rest);
      steps := [WriteSink] + rest;
    } else {
      steps, t := [], s;
    }
  }

  lemma RunFirst(l: Limits, s: State, a: Step, steps: seq<Step>)
    requires Next(l, s, a).Some?
    ensures Run(l, s, [a] + steps) == Run(l, Next(l, s, a).value, steps)
  {
    var all := [a] + steps;
    assert all[1..] == steps;
  }

  lemma MakeRoom(l: Limits, s: State) returns (steps: seq<Step>, t: State)
    requires Inv(l, s) && !s.worker.Exited?
    ensures Run(l, s, steps) == Some(t) && Inv(l, t) && !t.worker.Exited? && |t.queue| < l.queueSize
    ensures t.pending == s.pending && t.sessions == s.sessions && t.enqueued == s.enqueued
  {
    var hand, s1 := FinishHand(l, s);
    if |s1.queue| < l.queueSize {
      steps, t := hand, s1;
    } else {
      t := Next(l, s1, Receive).value;
      StepKeepsInv(l, s1, Receive);
      RunConcat(l, s, hand, [Receive]);
      RunOne(l, s1, Receive);
      steps := hand + [Receive];
    }
  }

  lemma MakeSend(l: Limits, s: State, i: nat) returns (steps: seq<Step>, t: State)
    requires Inv(l, s) && !s.worker.Exited? && i < |s.pending| && s.pending[i].Sending?
    ensures Run(l, s, steps) == Some(t) && Inv(l, t) && !t.worker.Exited?
    ensures t.enqueued == s.enqueued + [s.pending[i].e]
    ensures t.pending == s.pending[..i] + AfterSend(s.pending[i].e) + s.pending[i + 1..]
  {
    var room, s1 := MakeRoom(l, s);
    t := Next(l, s1, Proceed(i)).value;
    StepKeepsInv(l, s1, Proceed(i));
    RunConcat(l, s, room, [Proceed(i)]);
    RunOne(l, s1, Proceed(i));
    steps := room + [Proceed(i)];
  }

  lemma FollowsSnoc(es: seq<TraceEvent>, e: TraceEvent, f: TraceEvent)
    requires f.sid == e.sid
    ensures Follows(es + [e] + [f], e)
  {
    var all := es + [e] + [f];
    assert all[|es|] == e && all[|es| + 1] == f;
  }

  lemma OthersStay(ps: seq<Pending>, i: nat, p: Pending, j: nat)
    requires i < |ps| && j < |ps| && j != i
    ensures var t := ps[..i] + [p] + ps[i + 1..]; |t| == |ps| && t[j] == ps[j]
  {
  }

  lemma MakeBothSend(l: Limits, s: State, i: nat, j: nat) returns (steps: seq<Step>, u: State)
    requires Inv(l, s) && !s.worker.Exited? && i < |s.pending| && j < |s.pending| && i != j
    requires s.pending[i].Sending? && s.pending[i].e.last && s.pending[j].Sending?
    ensures Run(l, s, steps) == Some(u) && u.enqueued == s.enqueued + [s.pending[i].e] + [s.pending[j].e]
  {
    var first, t := MakeSend(l, s, i);
    OthersStay(s.pending, i, Marking(s.pending[i].e.sid), j);
    var second;
    second, u := MakeSend(l, t, j);
    RunConcat(l, s, first, second);
    steps := first + second;
  }

  lemma OvertakenInFlight(l: Limits, s: State, i: nat)
    requires Inv(l, s) && !s.worker.Exited? && i < |s.pending| && s.pending[i].Sending? && s.pending[i].e.last
    requires OtherInFlight(s, i)
    ensures CanBeFollowed(l, s, s.pending[i].e)
  {
    var e := s.pending[i].e;
    var j :| 0 <= j < |s.pending| && j != i && SendsFor(s.pending[j], e.sid);
    var steps, u := MakeBothSend(l, s, i, j);
    FollowsSnoc(s.enqueued, e, s.pending[j].e);
  }

  lemma OvertakenByCall(l: Limits, s: State, i: nat)
    requires Inv(l, s) && !s.worker.Exited? && i < |s.pending| && s.pending[i].Sending? && s.pending[i].e.last
    requires s.pending[i].e.sid in s.sessions && Admits(l, s, s.pending[i].e.sid)
    ensures CanBeFollowed(l, s, s.pending[i].e)
  {
    var e := s.pending[i].e;
    var a := Admit(e.sid, Event(""));
    var t := Next(l, s, a).value;
    StepKeepsInv(l, s, a);
    assert t.pending[i] == s.pending[i] && SendsFor(t.pending[|s.pending|], e.sid);
    OvertakenInFlight(l, t, i);
    var steps :| Run(l, t, steps).Some? && Follows(Run(l, t, steps).value.enqueued, e);
    RunFirst(l, s, a, steps);
    assert Follows(Run(l, s, [a] + steps).value.enqueued, e);
  }

  // ---- ... and otherwise not

  /** The session refuses calls, and e is its only event in flight and not yet enqueued, or nothing of it
      is in flight and nothing of it follows e. */
  ghost predicate Quiet(l: Limits, s: State, e: TraceEvent) {
    e.sid in s.sessions && !Admits(l, s, e.sid) && !Follows(s.enqueued, e) &&
    var sends := InFlight(PendingOf(s.pending, e.sid));
    sends == [] || (sends == [e] && e !in s.enqueued)
  }

  lemma FollowsOther(es: seq<TraceEvent>, e: TraceEvent, f: TraceEvent)
    requires !Follows(es, e) && (f.sid != e.sid || e !in es)
    ensures !Follows(es + [f], e)
  {
    var all := es + [f];
    forall a, b | 0 <= a < b < |all| ensures !(all[a] == e && all[b].sid == e.sid) {
      assert all[a] == es[a];
      assert b < |es| ==> all[b] == es[b];
    }
  }

  lemma AdmitStaysQuiet(l: Limits, s: State, caller: SessionId, c: Call, e: TraceEvent)
    requires Quiet(l, s, e) && caller in s.sessions
    ensures Quiet(l, AdmitCall(l, s, caller, c), e)
  {
    RefusalStays(l, s, Admit(caller, c), e.sid);
    AdmitSeen(l, s, caller, c, e.sid);
    InFlightAppend(PendingOf(s.pending, e.sid), Marking(e.sid));
  }

  /** What is in flight around one entry. */
  lemma InFlightAround(a: seq<Pending>, p: Pending, b: seq<Pending>)
    ensures InFlight(a + [p] + b) ==
            if p.Sending? then InFlight(a) + [p.e] + InFlight(b) else InFlight(a) + InFlight(b)
  {
    InFlightConcat(a + [p], b);
    InFlightAppend(a, p);
  }

  /** An entry gives way to at most a mark: what it was sending is gone, the rest stays. */
  lemma SendsLeft(a: seq<Pending>, p: Pending, b: seq<Pending>, sid: SessionId, f: seq<TraceEvent>)
    requires f == InFlight(a + [p] + b) && |f| <= 1
    ensures InFlight(a + [Marking(sid)] + b) == InFlight(a + b)
    ensures if p.Sending? then f == [p.e] && InFlight(a + b) == [] else InFlight(a + b) == f
  {
    InFlightAround(a, p, b);
    InFlightAround(a, Marking(sid), b);
    InFlightConcat(a, b);
  }

  lemma ProceedStaysQuiet(l: Limits, s: State, i: nat, e: TraceEvent)
    requires Quiet(l, s, e) && i < |s.pending| && (s.pending[i].Marking? ==> s.pending[i].sid in s.sessions)
    ensures Quiet(l, ProceedCall(l, s, i), e)
  {
    var p, sid := s.pending[i], e.sid;
    RefusalStays(l, s, Proceed(i), sid);
    ProceedSeen(l, s, i, sid);
    if p.Caller() == sid {
      SendsLeft(PendingOf(s.pending[..i], sid), p, PendingOf(s.pending[i + 1..], sid), sid,
                InFlight(PendingOf(s.pending, sid)));
    }
    if p.Sending? {
      FollowsOther(s.enqueued, e, p.e);
    }
  }

  lemma StepStaysQuiet(l: Limits, s: State, a: Step, e: TraceEvent)
    requires Quiet(l, s, e) && Next(l, s, a).Some?
    ensures Quiet(l, Next(l, s, a).value, e)
  {
    match a
    case Admit(caller, c) => AdmitStaysQuiet(l, s, caller, c, e);
    case Proceed(i) => ProceedStaysQuiet(l, s, i, e);
    case _ =>
      OthersSeen(l, s, a, e.sid);
      RefusalStays(l, s, a, e.sid);
  }

  lemma {:induction false} RunStaysQuiet(l: Limits, s: State, steps: seq<Step>, e: TraceEvent)
    requires Quiet(l, s, e) && Run(l, s, steps).Some?
    ensures Quiet(l, Run(l, s, steps).value, e)
    decreases |steps|
  {
    if steps != [] {
      StepStaysQuiet(l, s, steps[0], e);
      RunStaysQuiet(l, Next(l, s, steps[0]).value, steps[1..], e);
    }
  }

  lemma {:induction false} NoSends(ps: seq<Pending>, sid: SessionId)
    requires forall j :: 0 <= j < |ps| ==> !SendsFor(ps[j], sid)
    ensures InFlight(PendingOf(ps, sid)) == []
  {
    if ps != [] {
      NoSends(ps[1..], sid);
      assert !SendsFor(ps[0], sid);
    }
  }

  lemma {:induction false} InFlightMember(ps: seq<Pending>, i: nat)
    requires i < |ps| && ps[i].Sending?
    ensures ps[i].e in InFlight(ps)
  {
    if i > 0 {
      InFlightMember(ps[1..], i - 1);
    }
  }

  /** An event in flight has not been enqueued. */
  lemma InFlightNotEnqueued(l: Limits, s: State, i: nat)
    requires Inv(l, s) && i < |s.pending| && s.pending[i].Sending?
    ensures s.pending[i].e !in s.enqueued
  {
    var e := s.pending[i].e;
    InFlightMember(s.pending, i);
    AdmittedOnce(l, s, e);
    assert multiset(InFlight(s.pending))[e] >= 1;
    assert multiset(s.admitted)[e] >= multiset(InFlight(s.pending))[e] + multiset(s.enqueued)[e];
  }

  lemma QuietFromStart(l: Limits, s: State, i: nat)
    requires Inv(l, s) && i < |s.pending| && s.pending[i].Sending? && !OtherInFlight(s, i)
    requires s.pending[i].e.sid in s.sessions && !Admits(l, s, s.pending[i].e.sid)
    ensures Quiet(l, s, s.pending[i].e)
  {
    var p, e := s.pending[i], s.pending[i].e;
    var front, back := s.pending[..i], s.pending[i + 1..];
    forall j | 0 <= j < |front| ensures !SendsFor(front[j], e.sid) { assert front[j] == s.pending[j]; }
    forall j | 0 <= j < |back| ensures !SendsFor(back[j], e.sid) { assert back[j] == s.pending[i + 1 + j]; }
    NoSends(front, e.sid);
    NoSends(back, e.sid);
    PendingOfReplace(s.pending, i, [], e.sid);
    PendingOfOne(p, e.sid);
    InFlightAround(PendingOf(front, e.sid), p, PendingOf(back, e.sid));
    InFlightNotEnqueued(l, s, i);
  }

  /** End's event, about to be sent while the worker is there to take it, can be followed by another event
      of its session exactly when another call of the session is sending too, or a new one would still be
      admitted. */
  lemma EndFollowedExactly(l: Limits, s: State, i: nat)
    requires Reachable(l, s) && !s.worker.Exited? && i < |s.pending| && s.pending[i].Sending? && s.pending[i].e.last
    ensures s.pending[i].e.sid in s.sessions
    ensures CanBeFollowed(l, s, s.pending[i].e) <==> OtherInFlight(s, i) || Admits(l, s, s.pending[i].e.sid)
  {
    var e := s.pending[i].e;
    ReachableInv(l, s);
    assert s.pending[i] in s.pending && s.pending[i].Caller() == e.sid;
    if OtherInFlight(s, i) {
      OvertakenInFlight(l, s, i);
    } else if Admits(l, s, e.sid) {
      OvertakenByCall(l, s, i);
    } else {
      QuietFromStart(l, s, i);
      forall steps | Run(l, s, steps).Some? ensures !Follows(Run(l, s, steps).value.enqueued, e) {
        RunStaysQuiet(l, s, steps, e);
      }
    }
  }

  /** Such a run: `ended` is set in a critical section of its own, and a second goroutine is admitted between
      the two. */
  lemma EndNotLastConcurrently()
    ensures var l, sid := Limits(2, 2, 1), "s";
            var s := Run(l, Init(l), [NewSession(sid), Admit(sid, End("bye")), Admit(sid, Event("late"))] +
                                     [Proceed(0), Proceed(1)] + [Receive, WriteSink, Receive, WriteSink]);
            s.Some? && s.value.logs == [[TraceEvent(sid, 1, "bye", "", true), TraceEvent(sid, 2, "late", "", false)]]
  {
    var l, sid := Limits(2, 2, 1), "s";
    var e1, e2 := TraceEvent(sid, 1, "bye", "", true), TraceEvent(sid, 2, "late", "", false);
    var admits := [NewSession(sid), Admit(sid, End("bye")), Admit(sid, Event("late"))];
    var sends := [Proceed(0), Proceed(1)];
    var writes := [Receive, WriteSink, Receive, WriteSink];
    BothAdmitted(l, sid, e1, e2);
    var both := Run(l, Init(l), admits).value;
    BothSent(l, both, sid, e1, e2);
    var sent := Run(l, both, sends).value;
    BothWritten(l, sent, e1, e2);
    RunConcat(l, Init(l), admits, sends);
    RunConcat(l, Init(l), admits + sends, writes);
  }

  lemma BothAdmitted(l: Limits, sid: SessionId, e1: TraceEvent, e2: TraceEvent)
    requires l == Limits(2, 2, 1)
    requires e1 == TraceEvent(sid, 1, "bye", "", true) && e2 == TraceEvent(sid, 2, "late", "", false)
    ensures var s := Run(l, Init(l), [NewSession(sid), Admit(sid, End("bye")), Admit(sid, Event("late"))]);
            s.Some? && s.value.pending == [Sending(e1), Sending(e2)] && sid in s.value.sessions &&
            s.value.queue == [] && s.value.worker == Selecting && s.value.logs == [[]]
  {
    var s0 := Init(l);
    var s1 := Next(l, s0, NewSession(sid)).value;
    var s2 := Next(l, s1, Admit(sid, End("bye"))).value;
    var s3 := Next(l, s2, Admit(sid, Event("late"))).value;
    assert s3.pending == [Sending(e1), Sending(e2)];
    RunFirst(l, s2, Admit(sid, Event("late")), []);
    RunFirst(l, s1, Admit(sid, End("bye")), [Admit(sid, Event("late"))]);
    RunFirst(l, s0, NewSession(sid), [Admit(sid, End("bye")), Admit(sid, Event("late"))]);
  }

  lemma BothSent(l: Limits, s: State, sid: SessionId, e1: TraceEvent, e2: TraceEvent)
    requires l == Limits(2, 2, 1) && e1.sid == sid && e1.last && !e2.last
    requires s.pending == [Sending(e1), Sending(e2)] && s.queue == []
    ensures var t := Run(l, s, [Proceed(0), Proceed(1)]);
            t.Some? && t.value.queue == [e1, e2] && t.value.worker == s.worker && t.value.logs == s.logs
  {
    var s1 := Next(l, s, Proceed(0)).value;
    assert s1.pending == [Marking(sid), Sending(e2)] && s1.queue == [e1];
    var s2 := Next(l, s1, Proceed(1)).value;
    RunFirst(l, s1, Proceed(1), []);
    RunFirst(l, s, Proceed(0), [Proceed(1)]);
  }

  lemma BothWritten(l: Limits, s: State, e1: TraceEvent, e2: TraceEvent)
    requires l.sinks == 1 && s.queue == [e1, e2] && s.worker == Selecting && s.logs == [[]]
    ensures var t := Run(l, s, [Receive, WriteSink, Receive, WriteSink]); t.Some? && t.value.logs == [[e1, e2]]
  {
    var s1 := Next(l, s, Receive).value;
    var s2 := Next(l, s1, WriteSink).value;
    assert s.logs[0] + [e1] == [e1] && [e1] + [e2] == [e1, e2];
    assert s2.logs == [[e1]] && s2.queue == [e2];
    var s3 := Next(l, s2, Receive).value;
    var s4 := Next(l, s3, WriteSink).value;
    assert s4.logs == [[e1, e2]];
    RunFirst(l, s3, WriteSink, []);
    RunFirst(l, s2, Receive, [WriteSink]);
    RunFirst(l, s1, WriteSink, [Receive, WriteSink]);
    RunFirst(l, s, Receive, [WriteSink, Receive, WriteSink]);
  }
}
