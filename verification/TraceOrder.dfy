/** What the callers of one session can rely on in whole runs: which of their calls become events, in
    what order these arrive, and when End's event is the last one. */
module TraceOrder {
  import opened GoStrings
  import opened TraceProtocol
  import opened TraceSafety

  lemma {:induction false} OfMember(es: seq<TraceEvent>, sid: SessionId, e: TraceEvent)
    ensures e in Of(es, sid) <==> e in es && e.sid == sid
  {
    if es != [] {
      OfMember(es[1..], sid, e);
      assert es == [es[0]] + es[1..];
    }
  }

  // ---- refusals are final

  /** A session that refuses refuses for good, after End has set `ended` as after its budget is spent. */
  lemma RefusalStays(l: Limits, s: State, a: Step, sid: SessionId)
    requires sid in s.sessions && !Admits(l, s, sid) && Next(l, s, a).Some?
    ensures var t := Next(l, s, a).value;
            sid in t.sessions && !Admits(l, t, sid) && t.sessions[sid].eventCnt == s.sessions[sid].eventCnt &&
            (s.sessions[sid].ended ==> t.sessions[sid] == s.sessions[sid]) && Of(t.admitted, sid) == Of(s.admitted, sid)
  {
    var t := Next(l, s, a).value;
    if a.Admit? && t.admitted != s.admitted {
      OfAppend(s.admitted, EventOf(a.sid, s.sessions[a.sid].eventCnt + 1, a.call), sid);
    }
  }

  lemma {:induction false} RefusedIsSilent(l: Limits, s: State, steps: seq<Step>, sid: SessionId)
    requires sid in s.sessions && !Admits(l, s, sid) && Run(l, s, steps).Some?
    ensures var t := Run(l, s, steps).value;
            sid in t.sessions && !Admits(l, t, sid) && (s.sessions[sid].ended ==> t.sessions[sid] == s.sessions[sid]) &&
            Of(t.admitted, sid) == Of(s.admitted, sid)
    decreases |steps|
  {
    if steps != [] {
      RefusalStays(l, s, steps[0], sid);
      RefusedIsSilent(l, Next(l, s, steps[0]).value, steps[1..], sid);
    }
  }

  /** After End has set `ended`, the session admits nothing more, whoever calls it. */
  lemma EndedIsSilent(l: Limits, s: State, steps: seq<Step>, sid: SessionId)
    requires sid in s.sessions && s.sessions[sid].ended && Run(l, s, steps).Some?
    ensures var t := Run(l, s, steps).value;
            sid in t.sessions && t.sessions[sid] == s.sessions[sid] && Of(t.admitted, sid) == Of(s.admitted, sid)
  {
    RefusedIsSilent(l, s, steps, sid);
  }

  // ---- which calls become events

  /** The calls of a session that a run makes, in order. */
  function CallsOf(steps: seq<Step>, sid: SessionId): seq<Call> {
    if steps == [] then []
    else if steps[0].Admit? && steps[0].sid == sid then [steps[0].call] + CallsOf(steps[1..], sid)
    else CallsOf(steps[1..], sid)
  }

  /** The events of the first n calls, numbered from no + 1 on. */
  function EventsOf(sid: SessionId, no: nat, calls: seq<Call>, n: nat): (es: seq<TraceEvent>)
    requires n <= |calls|
    ensures |es| == n
    decreases n
  {
    if n == 0 then [] else [EventOf(sid, no + 1, calls[0])] + EventsOf(sid, no + 1, calls[1..], n - 1)
  }

  lemma EventsCons(sid: SessionId, no: nat, call: Call, later: seq<Call>, n: nat)
    requires n <= |later|
    ensures EventsOf(sid, no, [call] + later, n + 1) == [EventOf(sid, no + 1, call)] + EventsOf(sid, no + 1, later, n)
  {
    var calls := [call] + later;
    assert calls[1..] == later;
  }

  lemma {:induction false} EventsAt(sid: SessionId, no: nat, calls: seq<Call>, n: nat, i: nat)
    requires i < n <= |calls|
    ensures EventsOf(sid, no, calls, n)[i] == EventOf(sid, no + i + 1, calls[i])
    decreases i
  {
    if i > 0 {
      EventsAt(sid, no + 1, calls[1..], n - 1, i - 1);
    }
  }

  function Count(s: State, sid: SessionId): nat {
    if sid in s.sessions then s.sessions[sid].eventCnt else 0
  }

  /** One step towards the next admitted events of a session: a call is taken, or refused for good. */
  lemma AdmittedStep(l: Limits, s: State, a: Step, sid: SessionId)
    requires Next(l, s, a).Some? && (sid in s.sessions ==> Admits(l, s, sid))
    ensures var t := Next(l, s, a).value;
            if a.Admit? && a.sid == sid
            then Of(t.admitted, sid) == Of(s.admitted, sid) + [EventOf(sid, Count(s, sid) + 1, a.call)] &&
                 Count(t, sid) == Count(s, sid) + 1
            else Of(t.admitted, sid) == Of(s.admitted, sid) && Count(t, sid) == Count(s, sid)
  {
    if a.Admit? && Admits(l, s, a.sid) {
      OfAppend(s.admitted, EventOf(a.sid, s.sessions[a.sid].eventCnt + 1, a.call), sid);
    }
  }

  lemma {:induction false} AdmittedFrom(l: Limits, s: State, steps: seq<Step>, sid: SessionId) returns (n: nat)
    requires Run(l, s, steps).Some?
    ensures n <= |CallsOf(steps, sid)|
    ensures Of(Run(l, s, steps).value.admitted, sid) ==
            Of(s.admitted, sid) + EventsOf(sid, Count(s, sid), CallsOf(steps, sid), n)
    ensures n < |CallsOf(steps, sid)| ==>
              sid in Run(l, s, steps).value.sessions && !Admits(l, Run(l, s, steps).value, sid)
    decreases |steps|
  {
    n := 0;
    if sid in s.sessions && !Admits(l, s, sid) {
      RefusedIsSilent(l, s, steps, sid);
    } else if steps != [] {
      var a, t := steps[0], Next(l, s, steps[0]).value;
      AdmittedStep(l, s, a, sid);
      n := AdmittedFrom(l, t, steps[1..], sid);
      if a.Admit? && a.sid == sid {
        var no, later := Count(s, sid), CallsOf(steps[1..], sid);
        EventsCons(sid, no, a.call, later, n);
        Regroup(Of(s.admitted, sid), [EventOf(sid, no + 1, a.call)], EventsOf(sid, no + 1, later, n));
        n := n + 1;
      }
    }
  }

  /** A session's admitted events are those of its first calls in the run, in call order and numbered by
      it: the calls after the first refusal are all refused, and none is refused before. */
  lemma AdmittedCalls(l: Limits, steps: seq<Step>, sid: SessionId)
    requires Run(l, Init(l), steps).Some?
    ensures var s, calls := Run(l, Init(l), steps).value, CallsOf(steps, sid);
            var adm := Of(s.admitted, sid);
            |adm| <= |calls| && (forall i :: 0 <= i < |adm| ==> adm[i] == EventOf(sid, i + 1, calls[i])) &&
            (|adm| < |calls| ==> sid in s.sessions && !Admits(l, s, sid))
  {
    var n := AdmittedFrom(l, Init(l), steps, sid);
    var calls := CallsOf(steps, sid);
    var events := EventsOf(sid, 0, calls, n);
    assert [] + events == events;
    forall i | 0 <= i < n ensures events[i] == EventOf(sid, i + 1, calls[i]) {
      EventsAt(sid, 0, calls, n, i);
    }
  }

  /** Event i of the list is the one of call i, by all that a sink can read off it. */
  ghost predicate ReportsAll(es: seq<TraceEvent>, sid: SessionId, calls: seq<Call>) {
    |es| <= |calls| && forall i :: 0 <= i < |es| ==> Reports(es[i], calls[i]) && es[i].sid == sid && es[i].no == i + 1
  }

  /** In every run: the admitted events of a session tell its first calls one for one. */
  lemma AdmittedReports(l: Limits, steps: seq<Step>, sid: SessionId)
    requires Run(l, Init(l), steps).Some?
    ensures ReportsAll(Of(Run(l, Init(l), steps).value.admitted, sid), sid, CallsOf(steps, sid))
  {
    AdmittedCalls(l, steps, sid);
    var adm, calls := Of(Run(l, Init(l), steps).value.admitted, sid), CallsOf(steps, sid);
    forall i | 0 <= i < |adm| ensures Reports(adm[i], calls[i]) && adm[i].sid == sid && adm[i].no == i + 1 {
      EventReports(sid, i + 1, calls[i]);
    }
  }

  /** And so does every event of it that is enqueued or that some sink was called with: it is in the session's
      admitted list at the place its number says, and tells the call of that number. */
  lemma DeliveredReports(l: Limits, steps: seq<Step>, e: TraceEvent)
    requires ValidLimits(l) && Run(l, Init(l), steps).Some?
    requires var s := Run(l, Init(l), steps).value;
             e in s.enqueued || exists k :: 0 <= k < |s.logs| && e in s.logs[k]
    ensures var calls := CallsOf(steps, e.sid); 1 <= e.no <= |calls| && Reports(e, calls[e.no - 1])
  {
    var s := Run(l, Init(l), steps).value;
    InitInv(l);
    RunKeepsInv(l, Init(l), steps);
    if e !in s.enqueued {
      var k :| 0 <= k < |s.logs| && e in s.logs[k];
      LogPrefix(l, s, k, []);
    }
    EnqueuedNumber(l, s, e);
    AdmittedReports(l, steps, e.sid);
  }

  // ---- what one session sees of a step

  /** What a session still has pending, in order. */
  function PendingOf(ps: seq<Pending>, sid: SessionId): seq<Pending> {
    if ps == [] then []
    else if ps[0].Caller() == sid then [ps[0]] + PendingOf(ps[1..], sid)
    else PendingOf(ps[1..], sid)
  }

  lemma {:induction false} PendingOfConcat(a: seq<Pending>, b: seq<Pending>, sid: SessionId)
    ensures PendingOf(a + b, sid) == PendingOf(a, sid) + PendingOf(b, sid)
  {
    if a == [] {
      assert a + b == b;
    } else {
      var c := a + b;
      assert c[0] == a[0] && c[1..] == a[1..] + b;
      PendingOfConcat(a[1..], b, sid);
    }
  }

  lemma PendingOfOne(p: Pending, sid: SessionId)
    ensures PendingOf([p], sid) == if p.Caller() == sid then [p] else []
  {
    var ps := [p];
    assert ps[1..] == [];
  }

  lemma PendingOfAppend(ps: seq<Pending>, p: Pending, sid: SessionId)
    ensures PendingOf(ps + [p], sid) == if p.Caller() == sid then PendingOf(ps, sid) + [p] else PendingOf(ps, sid)
  {
    PendingOfConcat(ps, [p], sid);
    PendingOfOne(p, sid);
  }

  /** A pending list seen from one session, around its entry i and what replaces it. */
  lemma PendingOfReplace(ps: seq<Pending>, i: nat, rest: seq<Pending>, sid: SessionId)
    requires i < |ps|
    ensures var a, b := PendingOf(ps[..i], sid), PendingOf(ps[i + 1..], sid);
            PendingOf(ps, sid) == a + PendingOf([ps[i]], sid) + b &&
            PendingOf(ps[..i] + rest + ps[i + 1..], sid) == a + PendingOf(rest, sid) + b
  {
    var a, b, one := ps[..i], ps[i + 1..], [ps[i]];
    var front, other := a + one, a + rest;
    assert ps == front + b;
    PendingOfConcat(front, b, sid);
    PendingOfConcat(a, one, sid);
    PendingOfConcat(other, b, sid);
    PendingOfConcat(a, rest, sid);
  }

  /** What one session sees of an admission. */
  lemma AdmitSeen(l: Limits, s: State, caller: SessionId, c: Call, sid: SessionId)
    requires caller in s.sessions
    ensures var ss, t := s.sessions[caller], AdmitCall(l, s, caller, c);
            var refused := !Admits(l, s, caller);
            var e := EventOf(caller, ss.eventCnt + 1, c);
            t.enqueued == s.enqueued && (sid in t.sessions <==> sid in s.sessions) &&
            (sid in s.sessions ==> t.sessions[sid].ended == s.sessions[sid].ended) &&
            Of(t.admitted, sid) ==
              (if caller == sid && !refused then Of(s.admitted, sid) + [e] else Of(s.admitted, sid)) &&
            PendingOf(t.pending, sid) ==
              (if caller != sid || (refused && !c.End?) then PendingOf(s.pending, sid)
               else PendingOf(s.pending, sid) + [if refused then Marking(sid) else Sending(e)])
  {
    var ss, t := s.sessions[caller], AdmitCall(l, s, caller, c);
    var e := EventOf(caller, ss.eventCnt + 1, c);
    if !Admits(l, s, caller) {
      PendingOfAppend(s.pending, Marking(caller), sid);
    } else {
      PendingOfAppend(s.pending, Sending(e), sid);
      OfAppend(s.admitted, e, sid);
    }
  }

  /** What one session sees of a pending call's next move: one entry, if it is the session's own, gives
      way to what is left of it. */
  lemma ProceedSeen(l: Limits, s: State, i: nat, sid: SessionId)
    requires i < |s.pending| && (s.pending[i].Marking? ==> s.pending[i].sid in s.sessions)
    ensures var p, t := s.pending[i], ProceedCall(l, s, i);
            if p.Caller() != sid then PendingOf(t.pending, sid) == PendingOf(s.pending, sid)
            else var a, b := PendingOf(s.pending[..i], sid), PendingOf(s.pending[i + 1..], sid);
                 PendingOf(s.pending, sid) == a + [p] + b &&
                 PendingOf(t.pending, sid) == if p.Sending? && p.e.last then a + [Marking(sid)] + b else a + b
  {
    var p, t := s.pending[i], ProceedCall(l, s, i);
    var rest: seq<Pending> := if p.Sending? then AfterSend(p.e) else [];
    var left := s.pending[..i] + rest + s.pending[i + 1..];
    assert t.pending == left;
    var a, b := PendingOf(s.pending[..i], sid), PendingOf(s.pending[i + 1..], sid);
    PendingOfReplace(s.pending, i, rest, sid);
    PendingOfOne(p, sid);
    if rest != [] {
      PendingOfOne(Marking(p.Caller()), sid);
    } else {
      NothingBetween(a, b);
    }
    if p.Caller() != sid {
      NothingBetween(a, b);
    }
  }

  lemma NothingBetween<T>(a: seq<T>, b: seq<T>)
    ensures a + [] + b == a + b
  {
  }

  /** The other steps leave a session's calls alone. */
  lemma OthersSeen(l: Limits, s: State, a: Step, sid: SessionId)
    requires Next(l, s, a).Some? && !a.Admit? && !a.Proceed?
    ensures var t := Next(l, s, a).value;
            t.admitted == s.admitted && t.enqueued == s.enqueued && t.pending == s.pending &&
            (sid in s.sessions ==> sid in t.sessions && t.sessions[sid] == s.sessions[sid]) &&
            (sid in t.sessions && sid !in s.sessions ==> t.sessions[sid] == SessionState(0, false))
  {
  }

  /** An enqueued event sits in its session's admitted list at the place its number says. */
  lemma EnqueuedNumber(l: Limits, s: State, e: TraceEvent)
    requires Inv(l, s) && e in s.enqueued
    ensures var adm := Of(s.admitted, e.sid); 1 <= e.no <= |adm| && adm[e.no - 1] == e
  {
    assert e in multiset(s.admitted);
    assert e in s.admitted;
    OfMember(s.admitted, e.sid, e);
    assert NumberedFor(l, s.sessions[e.sid], Of(s.admitted, e.sid));
  }

  lemma EnqueuedBefore(l: Limits, s: State, sid: SessionId)
    requires Inv(l, s) && sid in s.sessions
    ensures forall q :: q in Of(s.enqueued, sid) ==> q.no <= s.sessions[sid].eventCnt
  {
    assert NumberedFor(l, s.sessions[sid], Of(s.admitted, sid));
    forall q | q in Of(s.enqueued, sid) ensures q.no <= s.sessions[sid].eventCnt {
      OfMember(s.enqueued, sid, q);
      EnqueuedNumber(l, s, q);
    }
  }

  // ---- a session that is called in turn

  /** The session is called by one goroutine at a time: no call starts while another is pending. */
  ghost predicate CalledInTurn(l: Limits, s: State, steps: seq<Step>, sid: SessionId)
    decreases |steps|
  {
    steps == [] ||
    ((steps[0].Admit? && steps[0].sid == sid ==> PendingOf(s.pending, sid) == []) &&
     (Next(l, s, steps[0]).Some? ==> CalledInTurn(l, Next(l, s, steps[0]).value, steps[1..], sid)))
  }

  ghost predicate Increasing(es: seq<TraceEvent>) {
    forall i, j :: 0 <= i < j < |es| ==> es[i].no < es[j].no
  }

  /** What a session called in turn keeps: the event being sent is newer than all enqueued ones. */
  ghost predicate InTurn(adm: seq<TraceEvent>, enq: seq<TraceEvent>, ps: seq<Pending>) {
    |ps| <= 1 && Increasing(enq) &&
    (ps != [] && ps[0].Sending? ==> forall q :: q in enq ==> q.no < ps[0].e.no)
  }

  ghost predicate InTurnAt(s: State, sid: SessionId) {
    InTurn(Of(s.admitted, sid), Of(s.enqueued, sid), PendingOf(s.pending, sid))
  }

  lemma AdmitInTurn(l: Limits, s: State, caller: SessionId, c: Call, sid: SessionId)
    requires caller in s.sessions && InTurnAt(s, sid)
    requires caller == sid ==> PendingOf(s.pending, sid) == []
    requires caller == sid ==> forall q :: q in Of(s.enqueued, sid) ==> q.no <= s.sessions[sid].eventCnt
    ensures InTurnAt(AdmitCall(l, s, caller, c), sid)
  {
    AdmitSeen(l, s, caller, c, sid);
    if caller == sid {
      var e := EventOf(sid, s.sessions[sid].eventCnt + 1, c);
      assert [] + [Marking(sid)] == [Marking(sid)] && [] + [Sending(e)] == [Sending(e)];
    }
  }

  lemma OneLeft<T>(a: seq<T>, p: T, b: seq<T>)
    requires |a + [p] + b| <= 1
    ensures a == [] && b == [] && (a + [p] + b)[0] == p
    ensures forall q: T :: a + [q] + b == [q]
    ensures a + b == []
  {
  }

  lemma IncreasingSnoc(enq: seq<TraceEvent>, e: TraceEvent)
    requires Increasing(enq) && forall q :: q in enq ==> q.no < e.no
    ensures Increasing(enq + [e])
  {
  }

  lemma ProceedInTurn(l: Limits, s: State, i: nat, sid: SessionId)
    requires InTurnAt(s, sid) && i < |s.pending| && (s.pending[i].Marking? ==> s.pending[i].sid in s.sessions)
    ensures InTurnAt(ProceedCall(l, s, i), sid)
  {
    var p := s.pending[i];
    ProceedSeen(l, s, i, sid);
    if p.Caller() == sid {
      OneLeft(PendingOf(s.pending[..i], sid), p, PendingOf(s.pending[i + 1..], sid));
    }
    if p.Sending? {
      OfAppend(s.enqueued, p.e, sid);
      if p.Caller() == sid {
        IncreasingSnoc(Of(s.enqueued, sid), p.e);
      }
    }
  }

  lemma StepInTurn(l: Limits, s: State, a: Step, sid: SessionId)
    requires Inv(l, s) && InTurnAt(s, sid) && Next(l, s, a).Some?
    requires a.Admit? && a.sid == sid ==> PendingOf(s.pending, sid) == []
    ensures InTurnAt(Next(l, s, a).value, sid)
  {
    match a
    case Admit(caller, c) =>
      if caller == sid {
        EnqueuedBefore(l, s, sid);
      }
      AdmitInTurn(l, s, caller, c, sid);
    case Proceed(i) => ProceedInTurn(l, s, i, sid);
    case _ => OthersSeen(l, s, a, sid);
  }

  lemma {:induction false} RunInTurn(l: Limits, s: State, steps: seq<Step>, sid: SessionId)
    requires Inv(l, s) && InTurnAt(s, sid) && CalledInTurn(l, s, steps, sid) && Run(l, s, steps).Some?
    ensures InTurnAt(Run(l, s, steps).value, sid)
    decreases |steps|
  {
    if steps != [] {
      StepInTurn(l, s, steps[0], sid);
      StepKeepsInv(l, s, steps[0]);
      RunInTurn(l, Next(l, s, steps[0]).value, steps[1..], sid);
    }
  }

  lemma OfPrefix(a: seq<TraceEvent>, b: seq<TraceEvent>, sid: SessionId)
    requires a <= b
    ensures Of(a, sid) <= Of(b, sid)
  {
    var rest := b[|a|..];
    assert b == a + rest;
    OfConcat(a, rest, sid);
  }

  lemma IncreasingPrefix(a: seq<TraceEvent>, b: seq<TraceEvent>)
    requires a <= b && Increasing(b)
    ensures Increasing(a)
  {
    forall i, j | 0 <= i < j < |a| ensures a[i].no < a[j].no {
      assert a[i] == b[i] && a[j] == b[j];
    }
  }

  /** Each event is that of the call its number names. */
  ghost predicate Answers(es: seq<TraceEvent>, sid: SessionId, calls: seq<Call>) {
    forall e :: e in es ==> 1 <= e.no <= |calls| && e == EventOf(sid, e.no, calls[e.no - 1])
  }

  /** In every run, whoever calls: what a sink gets of a session are events of its calls, each named by
      its number. */
  lemma DeliveredCalls(l: Limits, steps: seq<Step>, sid: SessionId, k: nat)
    requires ValidLimits(l) && k < l.sinks && Run(l, Init(l), steps).Some?
    ensures var s := Run(l, Init(l), steps).value;
            |s.logs| == l.sinks && Answers(Of(s.logs[k], sid), sid, CallsOf(steps, sid))
  {
    var s := Run(l, Init(l), steps).value;
    InitInv(l);
    RunKeepsInv(l, Init(l), steps);
    AdmittedCalls(l, steps, sid);
    LogPrefix(l, s, k, []);
    forall e | e in Of(s.logs[k], sid)
      ensures 1 <= e.no <= |CallsOf(steps, sid)| && e == EventOf(sid, e.no, CallsOf(steps, sid)[e.no - 1])
    {
      OfMember(s.logs[k], sid, e);
      EnqueuedNumber(l, s, e);
    }
  }

  /** A session that is called in turn: every sink gets its events in the order of the calls. */
  lemma DeliveredInTurn(l: Limits, steps: seq<Step>, sid: SessionId, k: nat)
    requires ValidLimits(l) && k < l.sinks && Run(l, Init(l), steps).Some? && CalledInTurn(l, Init(l), steps, sid)
    ensures var s := Run(l, Init(l), steps).value;
            |s.logs| == l.sinks && Increasing(Of(s.logs[k], sid))
  {
    var s := Run(l, Init(l), steps).value;
    InitInv(l);
    RunKeepsInv(l, Init(l), steps);
    RunInTurn(l, Init(l), steps, sid);
    LogPrefix(l, s, k, []);
    OfPrefix(s.logs[k], s.enqueued, sid);
    IncreasingPrefix(Of(s.logs[k], sid), Of(s.enqueued, sid));
  }
}
