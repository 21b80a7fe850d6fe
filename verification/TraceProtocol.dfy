/** The asynchronous session tracer as a transition system: any number of goroutines call sessions,
    one worker hands queued events to every sink, one caller may close the tracer. A step is what one
    goroutine does between two points where another can run: a critical section, a channel
    operation, one call of a sink. */
module TraceProtocol {
  import opened GoStrings

  type SessionId = string

  /** What a caller asks of a session: Event, Error (with the error, if any) or End. */
  datatype Call = Event(stage: string) | Error(stage: string, err: Option<string>) | End(stage: string)

  /** An admitted event. `no` counts the session's admitted events from 1; `last` marks End's event. */
  datatype TraceEvent = TraceEvent(sid: SessionId, no: nat, stage: string, errMsg: string, last: bool)

  datatype SessionState = SessionState(eventCnt: nat, ended: bool)

  /** A goroutine inside a session call: about to send its admitted event, or (End only) about to set `ended`. */
  datatype Pending = Sending(e: TraceEvent) | Marking(sid: SessionId) {
    function Caller(): SessionId {
      match this case Sending(e) => e.sid case Marking(sid) => sid
    }
  }

  /** The worker goroutine: at its select, in the drain loop, handing `e` to sink `k`, or returned. */
  datatype Worker = Selecting | Draining | Writing(e: TraceEvent, k: nat, draining: bool) | Exited

  /** `logs[k]` lists the events sink k was called with. `admitted`, `enqueued` and `dropped` are
      histories that no step reads. */
  datatype State = State(
    sessions: map<SessionId, SessionState>,
    pending: seq<Pending>,
    queue: seq<TraceEvent>,
    worker: Worker,
    stopped: bool,
    closedSinks: nat,
    logs: seq<seq<TraceEvent>>,
    admitted: seq<TraceEvent>,
    enqueued: seq<TraceEvent>,
    dropped: seq<TraceEvent>)

  datatype Limits = Limits(queueSize: nat, maxEvents: nat, sinks: nat)

  ghost predicate ValidLimits(l: Limits) {
    l.queueSize >= 1 && l.maxEvents >= 1 && l.sinks >= 1
  }

  datatype Step =
    | NewSession(sid: SessionId)
    | Admit(sid: SessionId, call: Call)
    | Proceed(i: nat)
    | Receive
    | WriteSink
    | SeeStop
    | WorkerExit
    | Stop
    | CloseSink

  predicate WorkerStep(a: Step) {
    a.Receive? || a.WriteSink? || a.SeeStop? || a.WorkerExit?
  }

  function Trunc(s: string, max: int): (r: string)
    ensures r <= s && (max > 0 ==> |r| <= max) && (max <= 0 || |s| <= max ==> r == s)
  {
    if max <= 0 || |s| <= max then s else s[..max]
  }

  function ErrText(c: Call): string {
    if c.Error? && c.err.Some? then Trunc(c.err.value, 2048) else ""
  }

  function EventOf(sid: SessionId, no: nat, c: Call): TraceEvent {
    TraceEvent(sid, no, c.stage, ErrText(c), c.End?)
  }

  /** What a sink can read off an event of a call: its stage, whether it closes the session, and the text of
      an error, cut after 2048 characters. */
  ghost predicate Reports(e: TraceEvent, c: Call) {
    e.stage == c.stage && (e.last <==> c.End?) &&
    match c
    case Error(_, Some(text)) =>
      if |text| <= 2048 then e.errMsg == text else |e.errMsg| == 2048 && e.errMsg <= text
    case _ => e.errMsg == ""
  }

  lemma EventReports(sid: SessionId, no: nat, c: Call)
    ensures var e := EventOf(sid, no, c); Reports(e, c) && e.sid == sid && e.no == no
  {
  }

  function Init(l: Limits): State {
    State(map[], [], [], Selecting, false, 0, seq(l.sinks, _ => []), [], [], [])
  }

  /** emit's guard. */
  predicate Admits(l: Limits, s: State, sid: SessionId)
    requires sid in s.sessions
  {
    !s.sessions[sid].ended && s.sessions[sid].eventCnt < l.maxEvents
  }

  /** emit's critical section; a refused End still has `ended` to set. */
  function AdmitCall(l: Limits, s: State, sid: SessionId, c: Call): State
    requires sid in s.sessions
  {
    var ss := s.sessions[sid];
    if !Admits(l, s, sid) then
      if c.End? then s.(pending := s.pending + [Marking(sid)]) else s
    else
      var e := EventOf(sid, ss.eventCnt + 1, c);
      s.(sessions := s.sessions[sid := ss.(eventCnt := ss.eventCnt + 1)],
         pending := s.pending + [Sending(e)],
         admitted := s.admitted + [e])
  }

  /** What is left of a call once its event is sent or dropped. */
  function AfterSend(e: TraceEvent): seq<Pending> {
    if e.last then [Marking(e.sid)] else []
  }

  /** The non-blocking send, or End's second critical section. */
  function ProceedCall(l: Limits, s: State, i: nat): State
    requires i < |s.pending|
    requires s.pending[i].Marking? ==> s.pending[i].sid in s.sessions
  {
    match s.pending[i]
    case Sending(e) =>
      var s' := s.(pending := s.pending[..i] + AfterSend(e) + s.pending[i + 1..]);
      if |s.queue| < l.queueSize then s'.(queue := s.queue + [e], enqueued := s.enqueued + [e])
      else s'.(dropped := s.dropped + [e])
    case Marking(sid) =>
      s.(pending := s.pending[..i] + s.pending[i + 1..],
         sessions := s.sessions[sid := s.sessions[sid].(ended := true)])
  }

  function HandOver(l: Limits, s: State): State
    requires s.worker.Writing? && s.worker.k < |s.logs|
  {
    var Writing(e, k, draining) := s.worker;
    s.(logs := s.logs[k := s.logs[k] + [e]],
       worker := if k + 1 < l.sinks then Writing(e, k + 1, draining)
                 else if draining then Draining else Selecting)
  }

  /** The state after one step, or None where the step is not possible. Session ids are taken to be
      distinct; Close is called at most once. */
  function Next(l: Limits, s: State, a: Step): Option<State> {
    match a
    case NewSession(sid) =>
      if sid in s.sessions then None else Some(s.(sessions := s.sessions[sid := SessionState(0, false)]))
    case Admit(sid, c) =>
      if sid in s.sessions then Some(AdmitCall(l, s, sid, c)) else None
    case Proceed(i) =>
      if i < |s.pending| && (s.pending[i].Marking? ==> s.pending[i].sid in s.sessions)
      then Some(ProceedCall(l, s, i)) else None
    case Receive =>
      if (s.worker.Selecting? || s.worker.Draining?) && |s.queue| > 0
      then Some(s.(queue := s.queue[1..], worker := Writing(s.queue[0], 0, s.worker.Draining?))) else None
    case WriteSink =>
      if s.worker.Writing? && s.worker.k < |s.logs| then Some(HandOver(l, s)) else None
    case SeeStop =>
      if s.worker.Selecting? && s.stopped then Some(s.(worker := Draining)) else None
    case WorkerExit =>
      if s.worker.Draining? && s.queue == [] then Some(s.(worker := Exited)) else None
    case Stop =>
      if s.stopped then None else Some(s.(stopped := true))
    case CloseSink =>
      if s.stopped && s.worker.Exited? && s.closedSinks < l.sinks
      then Some(s.(closedSinks := s.closedSinks + 1)) else None
  }

  function Run(l: Limits, s: State, steps: seq<Step>): Option<State>
    decreases |steps|
  {
    if steps == [] then Some(s)
    else
      match Next(l, s, steps[0])
      case None => None
      case Some(s') => Run(l, s', steps[1..])
  }

  ghost predicate Reachable(l: Limits, s: State) {
    ValidLimits(l) && exists steps :: Run(l, Init(l), steps) == Some(s)
  }

  lemma {:induction false} RunConcat(l: Limits, s: State, a: seq<Step>, b: seq<Step>)
    ensures Run(l, s, a + b) == match Run(l, s, a) case None => None case Some(t) => Run(l, t, b)
    decreases |a|
  {
    if a == [] {
      assert a + b == b;
    } else {
      var c := a + b;
      assert c[0] == a[0] && c[1..] == a[1..] + b;
      match Next(l, s, a[0])
      case None =>
      case Some(t) => RunConcat(l, t, a[1..], b);
    }
  }

  // ---- where the events are

  /** The events of one session, in order. */
  function Of(es: seq<TraceEvent>, sid: SessionId): seq<TraceEvent> {
    if es == [] then [] else if es[0].sid == sid then [es[0]] + Of(es[1..], sid) else Of(es[1..], sid)
  }

  function InFlight(ps: seq<Pending>): seq<TraceEvent> {
    if ps == [] then [] else if ps[0].Sending? then [ps[0].e] + InFlight(ps[1..]) else InFlight(ps[1..])
  }

  function Hand(s: State): seq<TraceEvent> {
    if s.worker.Writing? then [s.worker.e] else []
  }

  /** What every sink has been called with. */
  function Delivered(s: State): seq<TraceEvent>
    requires |s.logs| > 0
  {
    s.logs[|s.logs| - 1]
  }

  lemma {:induction false} OfConcat(a: seq<TraceEvent>, b: seq<TraceEvent>, sid: SessionId)
    ensures Of(a + b, sid) == Of(a, sid) + Of(b, sid)
  {
    if a == [] {
      assert a + b == b;
    } else {
      var c := a + b;
      assert c[0] == a[0] && c[1..] == a[1..] + b;
      OfConcat(a[1..], b, sid);
    }
  }

  lemma {:induction false} InFlightConcat(a: seq<Pending>, b: seq<Pending>)
    ensures InFlight(a + b) == InFlight(a) + InFlight(b)
  {
    if a == [] {
      assert a + b == b;
    } else {
      var c := a + b;
      assert c[0] == a[0] && c[1..] == a[1..] + b;
      InFlightConcat(a[1..], b);
    }
  }

  lemma {:induction false} OfMultiset(es: seq<TraceEvent>, sid: SessionId, e: TraceEvent)
    ensures multiset(Of(es, sid))[e] == if e.sid == sid then multiset(es)[e] else 0
  {
    if es != [] {
      OfMultiset(es[1..], sid, e);
      assert es == [es[0]] + es[1..];
    }
  }

  /** Replacing pending entry i keeps all other events in flight. */
  lemma InFlightReplace(ps: seq<Pending>, i: nat, rest: seq<Pending>)
    requires i < |ps|
    ensures multiset(InFlight(ps)) + multiset(InFlight(rest)) ==
            multiset(InFlight(ps[..i] + rest + ps[i + 1..])) + multiset(InFlight([ps[i]]))
  {
    assert ps == ps[..i] + ([ps[i]] + ps[i + 1..]);
    InFlightConcat(ps[..i], [ps[i]] + ps[i + 1..]);
    InFlightConcat([ps[i]], ps[i + 1..]);
    InFlightConcat(ps[..i] + rest, ps[i + 1..]);
    InFlightConcat(ps[..i], rest);
  }
}
