/** The registrar: a supervisor and its keepalive routines over two unbuffered channels, as a transition system. Every
    event is one step of one of them, or a rendezvous of both. */
module Shutdown {
  import opened Prelude
  import KeepAlive

  /** Where a keepalive routine is. A call of its client is in flight while it is updating or adding. */
  datatype Phase =
    | Starting
    | Updating(first: bool)
    | Adding(first: bool)
    | Waiting     // for a tick or the shutdown signal
    | Signalling  // blocked on the error channel
    | Gone
    | Crashed     // sent on a closed channel

  datatype Routine = Routine(endpoint: string, phase: Phase, tries: nat)

  datatype Supervisor =
    | Listening                 // for an error or the shutdown signal
    | Restarting
    | Stopping                  // offers the shutdown signal to the routine for one second
    | Deleting
    | Closing(deleted: bool)
    | Returned(deleted: bool)
    | GaveUp                    // found no endpoint or client for the restart

  datatype Call = Update(endpoint: string) | Add(endpoint: string) | Delete(endpoint: string)

  /** `log` holds the client calls in the order they are issued. */
  datatype State = State(discover: bool, sup: Supervisor, routines: seq<Routine>, sigClosed: bool, errClosed: bool,
                         log: seq<Call>)

  datatype Event =
    | Begin(i: nat)
    | Tick(i: nat)
    | Answer(i: nat, reply: KeepAlive.Reply)
    | ReportError(i: nat)        // rendezvous on the error channel
    | Restart(endpoint: string)
    | GiveUp
    | AskedToStop
    | Stop(i: nat)               // rendezvous on the signal channel
    | TimeOut
    | CallDelete
    | CloseSignals
    | CloseErrors
    | SeeClosed(i: nat)          // a closed signal channel reads like a signal
    | Crash(i: nat)

  function Init(endpoint: string, discover: bool): State {
    State(discover, Listening, [Routine(endpoint, Starting, 0)], false, false, [])
  }

  function Last(s: State): Routine
    requires s.routines != []
  {
    s.routines[|s.routines| - 1]
  }

  predicate At(s: State, i: nat, phase: Phase) {
    i < |s.routines| && s.routines[i].phase == phase
  }

  predicate InFlight(s: State, i: nat) {
    i < |s.routines| && (s.routines[i].phase.Updating? || s.routines[i].phase.Adding?)
  }

  predicate Enabled(s: State, e: Event) {
    match e
    case Begin(i) => At(s, i, Starting)
    case Tick(i) => At(s, i, Waiting)
    case Answer(i, _) => InFlight(s, i)
    case ReportError(i) => At(s, i, Signalling) && s.sup == Listening
    case Restart(endpoint) =>
      s.sup == Restarting && s.routines != [] && (s.discover || endpoint == Last(s).endpoint)
    case GiveUp => s.sup == Restarting
    case AskedToStop => s.sup == Listening
    case Stop(i) => At(s, i, Waiting) && s.sup == Stopping
    case TimeOut => s.sup == Stopping
    case CallDelete => s.sup == Deleting && s.routines != []
    case CloseSignals => s.sup.Closing? && !s.sigClosed
    case CloseErrors => s.sup.Closing? && s.sigClosed
    case SeeClosed(i) => At(s, i, Waiting) && s.sigClosed
    case Crash(i) => At(s, i, Signalling) && s.errClosed
  }

  function Moved(s: State, i: nat, r: Routine, calls: seq<Call>): State
    requires i < |s.routines|
  {
    s.(routines := s.routines[i := r], log := s.log + calls)
  }

  /** A routine whose renewal failed; the first registration is not counted. */
  function Failed(r: Routine, first: bool): Routine {
    if first then r.(phase := Waiting)
    else if r.tries + 1 >= KeepAlive.RETRIES then r.(phase := Signalling, tries := r.tries + 1)
    else r.(phase := Waiting, tries := r.tries + 1)
  }

  function Answered(s: State, i: nat, reply: KeepAlive.Reply): State
    requires InFlight(s, i)
  {
    var r := s.routines[i];
    match reply
    case Accepted => Moved(s, i, r.(phase := Waiting, tries := 0), [])
    case Missing =>
      if r.phase.Updating? then Moved(s, i, r.(phase := Adding(r.phase.first)), [Add(r.endpoint)])
      else Moved(s, i, Failed(r, r.phase.first), [])
    case Refused => Moved(s, i, Failed(r, r.phase.first), [])
  }

  /** The delete goes through the client of the first routine: the restart only assigns to a variable of its own. */
  function Apply(s: State, e: Event): State
    requires Enabled(s, e)
  {
    match e
    case Begin(i) => Moved(s, i, s.routines[i].(phase := Updating(true)), [Update(s.routines[i].endpoint)])
    case Tick(i) => Moved(s, i, s.routines[i].(phase := Updating(false)), [Update(s.routines[i].endpoint)])
    case Answer(i, reply) => Answered(s, i, reply)
    case ReportError(i) => Moved(s, i, s.routines[i].(phase := Gone), []).(sup := Restarting)
    case Restart(endpoint) => s.(sup := Listening, routines := s.routines + [Routine(endpoint, Starting, 0)])
    case GiveUp => s.(sup := GaveUp)
    case AskedToStop => s.(sup := Stopping)
    case Stop(i) => Moved(s, i, s.routines[i].(phase := Gone), []).(sup := Deleting)
    case TimeOut => s.(sup := Closing(false))
    case CallDelete => s.(sup := Closing(true), log := s.log + [Delete(s.routines[0].endpoint)])
    case CloseSignals => s.(sigClosed := true)
    case CloseErrors => s.(sup := Returned(s.sup.deleted), errClosed := true)
    case SeeClosed(i) => Moved(s, i, s.routines[i].(phase := Gone), [])
    case Crash(i) => Moved(s, i, s.routines[i].(phase := Crashed), [])
  }

  /** The state after the events, if they can happen in this order. */
  function Exec(s: State, events: seq<Event>): Option<State> {
    if events == [] then Some(s)
    else
      var before := Exec(s, events[..|events| - 1]);
      if before.Some? && Enabled(before.value, events[|events| - 1])
      then Some(Apply(before.value, events[|events| - 1])) else None
  }

  // ---- The invariant ----

  /** The routine can still issue calls, or report an error. */
  predicate Active(r: Routine) { r.phase != Gone && r.phase != Crashed }

  /** All is over between the supervisor and the routines. */
  predicate Quiet(sup: Supervisor) {
    sup in {Restarting, Deleting, Closing(true), Returned(true), GaveUp}
  }

  ghost predicate RoutinesOk(s: State) {
    && s.routines != []
    && (forall i | 0 <= i < |s.routines| - 1 :: s.routines[i].phase == Gone)
    && (Quiet(s.sup) ==> Last(s).phase == Gone)
    && (s.sup == Listening || s.sup == Stopping ==> Active(Last(s)))
    && (Last(s).phase == Crashed ==> s.sup == Returned(false))
    && (Last(s).phase == Signalling ==> Last(s).tries == KeepAlive.RETRIES)
    && (Active(Last(s)) && Last(s).phase != Signalling ==> Last(s).tries < KeepAlive.RETRIES)
  }

  ghost predicate ChannelsOk(s: State) {
    && (s.sigClosed ==> s.sup.Closing? || s.sup.Returned?)
    && (s.errClosed <==> s.sup.Returned?)
    && (s.errClosed ==> s.sigClosed)
  }

  ghost predicate NoDelete(log: seq<Call>) {
    forall c | c in log :: !c.Delete?
  }

  /** There is a delete exactly if the supervisor got through to the routine, and then it is the last call. */
  ghost predicate LogOk(s: State)
    requires s.routines != []
  {
    if s.sup in {Closing(true), Returned(true)}
    then s.log != [] && s.log[|s.log| - 1] == Delete(s.routines[0].endpoint) && NoDelete(s.log[..|s.log| - 1])
    else NoDelete(s.log)
  }

  /** Without discovery there is one endpoint. */
  ghost predicate EndpointsOk(s: State, endpoint: string) {
    && s.routines != [] && s.routines[0].endpoint == endpoint
    && (!s.discover ==> forall i | 0 <= i < |s.routines| :: s.routines[i].endpoint == endpoint)
    && (!s.discover ==> forall k | 0 <= k < |s.log| :: s.log[k].endpoint == endpoint)
  }

  ghost predicate Inv(s: State, endpoint: string) {
    RoutinesOk(s) && ChannelsOk(s) && LogOk(s) && EndpointsOk(s, endpoint)
  }

  lemma ChannelsStep(s: State, e: Event)
    requires ChannelsOk(s) && Enabled(s, e)
    ensures ChannelsOk(Apply(s, e)) && Apply(s, e).discover == s.discover
  {
  }

  lemma OneRoutineStep(s: State, e: Event)
    requires RoutinesOk(s) && ChannelsOk(s) && Enabled(s, e)
    requires e.Begin? || e.Tick? || e.Answer? || e.ReportError? || e.Stop? || e.SeeClosed? || e.Crash?
    ensures RoutinesOk(Apply(s, e))
  {
    assert e.i == |s.routines| - 1;
  }

  lemma SupervisorStep(s: State, e: Event)
    requires RoutinesOk(s) && ChannelsOk(s) && Enabled(s, e)
    requires !(e.Begin? || e.Tick? || e.Answer? || e.ReportError? || e.Stop? || e.SeeClosed? || e.Crash?)
    ensures RoutinesOk(Apply(s, e))
  {
  }

  lemma RoutinesStep(s: State, e: Event)
    requires RoutinesOk(s) && ChannelsOk(s) && Enabled(s, e)
    ensures RoutinesOk(Apply(s, e)) && ChannelsOk(Apply(s, e))
    ensures Apply(s, e).discover == s.discover
  {
    ChannelsStep(s, e);
    if e.Begin? || e.Tick? || e.Answer? || e.ReportError? || e.Stop? || e.SeeClosed? || e.Crash? {
      OneRoutineStep(s, e);
    } else {
      SupervisorStep(s, e);
    }
  }

  /** Once the supervisor has got through to the routine, or has given up, the only call left is the delete. */
  lemma QuietStep(s: State, e: Event)
    requires RoutinesOk(s) && ChannelsOk(s) && Enabled(s, e) && Quiet(s.sup) && s.sup != Restarting
    ensures var t := Apply(s, e);
      && Quiet(t.sup) && t.sup != Restarting && t.routines == s.routines
      && t.log == (if e == CallDelete then s.log + [Delete(s.routines[0].endpoint)] else s.log)
      && (e == CallDelete ==> s.sup == Deleting)
      && (t.sup == Deleting ==> s.sup == Deleting)
  {
  }

  lemma DeleteLogged(s: State, e: Event)
    requires RoutinesOk(s) && ChannelsOk(s) && LogOk(s) && Enabled(s, e) && Quiet(s.sup) && s.sup != Restarting
    ensures Apply(s, e).routines != [] && LogOk(Apply(s, e))
  {
    QuietStep(s, e);
    assert (s.log + [Delete(s.routines[0].endpoint)])[..|s.log|] == s.log;
  }

  /** Before that, nothing but updates and adds is called. */
  lemma NoDeleteStep(s: State, e: Event)
    requires RoutinesOk(s) && NoDelete(s.log) && Enabled(s, e) && e != CallDelete
    ensures NoDelete(Apply(s, e).log)
  {
  }

  lemma LogStep(s: State, e: Event)
    requires RoutinesOk(s) && ChannelsOk(s) && LogOk(s) && Enabled(s, e)
    ensures Apply(s, e).routines != [] && LogOk(Apply(s, e))
  {
    if Quiet(s.sup) && s.sup != Restarting {
      DeleteLogged(s, e);
    } else {
      RoutinesStep(s, e);
      NoDeleteStep(s, e);
    }
  }

  lemma MovedEndpoints(s: State, endpoint: string, i: nat, r: Routine, calls: seq<Call>)
    requires EndpointsOk(s, endpoint) && i < |s.routines| && r.endpoint == s.routines[i].endpoint
    requires forall c | c in calls :: c.endpoint == r.endpoint
    ensures EndpointsOk(Moved(s, i, r, calls), endpoint)
  {
  }

  lemma AnsweredEndpoints(s: State, endpoint: string, i: nat, reply: KeepAlive.Reply)
    requires EndpointsOk(s, endpoint) && InFlight(s, i)
    ensures EndpointsOk(Answered(s, i, reply), endpoint)
  {
    var r, t := s.routines[i], Answered(s, i, reply).routines[i];
    MovedEndpoints(s, endpoint, i, t, if reply.Missing? && r.phase.Updating? then [Add(r.endpoint)] else []);
  }

  lemma SupervisorEndpoints(s: State, e: Event, endpoint: string)
    requires RoutinesOk(s) && EndpointsOk(s, endpoint) && Enabled(s, e)
    requires e.Restart? || e.GiveUp? || e.AskedToStop? || e.TimeOut? || e.CallDelete? || e.CloseSignals? ||
             e.CloseErrors?
    ensures EndpointsOk(Apply(s, e), endpoint)
  {
  }

  lemma EndpointsStep(s: State, e: Event, endpoint: string)
    requires RoutinesOk(s) && EndpointsOk(s, endpoint) && Enabled(s, e)
    ensures EndpointsOk(Apply(s, e), endpoint)
  {
    match e
    case Begin(i) =>
      MovedEndpoints(s, endpoint, i, s.routines[i].(phase := Updating(true)), [Update(s.routines[i].endpoint)]);
    case Tick(i) =>
      MovedEndpoints(s, endpoint, i, s.routines[i].(phase := Updating(false)), [Update(s.routines[i].endpoint)]);
    case Answer(i, reply) => AnsweredEndpoints(s, endpoint, i, reply);
    case ReportError(i) => MovedEndpoints(s, endpoint, i, s.routines[i].(phase := Gone), []);
    case Stop(i) => MovedEndpoints(s, endpoint, i, s.routines[i].(phase := Gone), []);
    case SeeClosed(i) => MovedEndpoints(s, endpoint, i, s.routines[i].(phase := Gone), []);
    case Crash(i) => MovedEndpoints(s, endpoint, i, s.routines[i].(phase := Crashed), []);
    case _ => SupervisorEndpoints(s, e, endpoint);
  }

  lemma {:induction false} InvRun(endpoint: string, discover: bool, events: seq<Event>)
    requires Exec(Init(endpoint, discover), events).Some?
    ensures Inv(Exec(Init(endpoint, discover), events).value, endpoint)
    ensures Exec(Init(endpoint, discover), events).value.discover == discover
    decreases |events|
  {
    if events == [] {
    } else {
      var front, e := events[..|events| - 1], events[|events| - 1];
      InvRun(endpoint, discover, front);
      var s := Exec(Init(endpoint, discover), front).value;
      RoutinesStep(s, e);
      LogStep(s, e);
      EndpointsStep(s, e, endpoint);
    }
  }

  // ---- Safety over all interleavings ----

  /** In every reachable state at most one routine is active, and none once the supervisor has got through to it. */
  lemma OneActive(endpoint: string, discover: bool, events: seq<Event>, i: nat)
    requires Exec(Init(endpoint, discover), events).Some?
    ensures var s := Exec(Init(endpoint, discover), events).value;
      i < |s.routines| && Active(s.routines[i]) ==> i == |s.routines| - 1 && !Quiet(s.sup)
  {
    InvRun(endpoint, discover, events);
  }

  /** From the rendezvous on, in every continuation, the only call is one delete, which goes to the first endpoint. */
  lemma {:induction false} SilentAfterStop(s: State, endpoint: string, events: seq<Event>)
    requires Inv(s, endpoint) && s.sup == Deleting && Exec(s, events).Some?
    ensures var t := Exec(s, events).value;
      && RoutinesOk(t) && ChannelsOk(t) && Quiet(t.sup) && t.sup != Restarting && t.routines == s.routines
      && t.log == if t.sup == Deleting then s.log else s.log + [Delete(endpoint)]
    decreases |events|
  {
    if events == [] {
    } else {
      var front, e := events[..|events| - 1], events[|events| - 1];
      SilentAfterStop(s, endpoint, front);
      var t := Exec(s, front).value;
      RoutinesStep(t, e);
      QuietStep(t, e);
      assert t.sup == Deleting ==> e == CallDelete;
    }
  }

  /** In every run a delete is the last call of all; there is one exactly if the stop was not timed out. */
  lemma DeleteIsLast(endpoint: string, discover: bool, events: seq<Event>, k: nat)
    requires Exec(Init(endpoint, discover), events).Some?
    ensures var s := Exec(Init(endpoint, discover), events).value;
      && (k < |s.log| && s.log[k].Delete? ==> k == |s.log| - 1 && s.log[k] == Delete(endpoint))
      && (s.sup.Returned? ==> (s.sup.deleted <==> exists c :: c in s.log && c.Delete?))
  {
    InvRun(endpoint, discover, events);
    var s := Exec(Init(endpoint, discover), events).value;
    if k < |s.log| - 1 { assert s.log[k] == s.log[..|s.log| - 1][k]; }
    if s.sup == Returned(true) { assert s.log[|s.log| - 1] in s.log; }
  }

  /** Without discovery every call, the delete included, goes to the one endpoint. */
  lemma OneEndpoint(endpoint: string, events: seq<Event>, c: Call)
    requires Exec(Init(endpoint, false), events).Some?
    ensures c in Exec(Init(endpoint, false), events).value.log ==> c.endpoint == endpoint
  {
    InvRun(endpoint, false, events);
  }

  /** The delete reaches the catalog that the last routine registered with exactly if no restart led elsewhere. */
  lemma DeleteReachesIff(endpoint: string, discover: bool, events: seq<Event>)
    requires Exec(Init(endpoint, discover), events).Some?
    requires Exec(Init(endpoint, discover), events).value.sup == Returned(true)
    ensures var s := Exec(Init(endpoint, discover), events).value;
      s.routines != [] && (Delete(Last(s).endpoint) in s.log <==> Last(s).endpoint == endpoint)
  {
    InvRun(endpoint, discover, events);
    var s := Exec(Init(endpoint, discover), events).value;
    var n := |s.log| - 1;
    assert s.log == s.log[..n] + [s.log[n]];
  }

  // ---- What the time limit costs ----

  /** When the routine is about to report an error as the supervisor wants to stop it, they wait for each other: nothing
      can happen but the time limit. */
  lemma Deadlock(endpoint: string, discover: bool, events: seq<Event>, e: Event)
    requires Exec(Init(endpoint, discover), events).Some?
    requires var s := Exec(Init(endpoint, discover), events).value;
      s.sup == Stopping && s.routines != [] && Last(s).phase == Signalling
    ensures Enabled(Exec(Init(endpoint, discover), events).value, e) <==> e == TimeOut
  {
    InvRun(endpoint, discover, events);
    OnlyTimeOut(Exec(Init(endpoint, discover), events).value, e);
  }

  lemma OnlyTimeOut(s: State, e: Event)
    requires RoutinesOk(s) && ChannelsOk(s) && s.sup == Stopping && Last(s).phase == Signalling
    ensures Enabled(s, e) <==> e == TimeOut
  {
  }

  /** The stop was timed out while the routine was blocked on the error channel. */
  ghost predicate Doomed(s: State) {
    && RoutinesOk(s) && ChannelsOk(s)
    && (s.sup == Closing(false) || s.sup == Returned(false))
    && (Last(s).phase == Signalling || Last(s).phase == Crashed)
  }

  lemma DoomedStep(s: State, e: Event)
    requires Doomed(s) && Enabled(s, e)
    ensures Doomed(Apply(s, e)) && Apply(s, e).log == s.log
    ensures s.sup == Returned(false) ==> e == Crash(|s.routines| - 1) && Last(Apply(s, e)).phase == Crashed
  {
    RoutinesStep(s, e);
  }

  /** After that limit nothing saves it from sending on the closed channel: in every continuation it is blocked until it
      crashes, and no delete is ever issued. */
  lemma {:induction false} DoomedAfterTimeOut(s: State, events: seq<Event>)
    requires Doomed(s) && Exec(s, events).Some?
    ensures Doomed(Exec(s, events).value) && Exec(s, events).value.log == s.log
    decreases |events|
  {
    if events == [] {
    } else {
      DoomedAfterTimeOut(s, events[..|events| - 1]);
      DoomedStep(Exec(s, events[..|events| - 1]).value, events[|events| - 1]);
    }
  }

  // ---- Witnesses ----

  lemma {:induction false} ExecAppend(s: State, first: seq<Event>, more: seq<Event>)
    requires Exec(s, first).Some?
    ensures Exec(s, first + more) == Exec(Exec(s, first).value, more)
    decreases |more|
  {
    if more == [] {
      assert first + more == first;
    } else {
      var front := more[..|more| - 1];
      ExecAppend(s, first, front);
      assert (first + more)[..|first + more| - 1] == first + front;
    }
  }

  lemma ExecOne(s: State, events: seq<Event>, e: Event)
    requires Exec(s, events).Some? && Enabled(Exec(s, events).value, e)
    ensures Exec(s, events + [e]) == Some(Apply(Exec(s, events).value, e))
  {
    assert (events + [e])[..|events|] == events;
  }

  lemma ExecTwo(s: State, events: seq<Event>, before: State, a: Event, b: Event)
    requires Exec(s, events) == Some(before) && Enabled(before, a) && Enabled(Apply(before, a), b)
    ensures Exec(s, events + [a, b]) == Some(Apply(Apply(before, a), b))
  {
    ExecOne(s, events, a);
    ExecOne(s, events + [a], b);
    assert events + [a, b] == events + [a] + [b];
  }

  // ---- The retry counter of a routine ----

  /** One tick of routine `i`: the update, its answer and, if there is an add, the answer to that. */
  function TickEvents(i: nat, x: KeepAlive.Exchange): seq<Event> {
    if x.update == KeepAlive.Missing then [Tick(i), Answer(i, x.update)] + [Answer(i, x.add)]
    else [Tick(i), Answer(i, x.update)]
  }

  /** The first `n` ticks. */
  function TicksEvents(i: nat, xs: seq<KeepAlive.Exchange>, n: nat): seq<Event>
    requires n <= |xs|
  {
    if n == 0 then [] else TicksEvents(i, xs, n - 1) + TickEvents(i, xs[n - 1])
  }

  function CallTo(endpoint: string, call: KeepAlive.Call): Call {
    if call == KeepAlive.Update then Update(endpoint) else Add(endpoint)
  }

  function CallsTo(endpoint: string, calls: seq<KeepAlive.Call>): (out: seq<Call>)
    ensures |out| == |calls|
  {
    seq(|calls|, k requires 0 <= k < |calls| => CallTo(endpoint, calls[k]))
  }

  /** A routine between ticks that has counted `tries` failures. */
  function Between(endpoint: string, tries: nat): Routine {
    Routine(endpoint, if tries >= KeepAlive.RETRIES then Signalling else Waiting, tries)
  }

  /** A routine after a tick that is between ticks with `tries` failures, and has made the calls. */
  function Ticked(before: State, i: nat, tries: nat, calls: seq<Call>): State
    requires i < |before.routines|
  {
    var r := Between(before.routines[i].endpoint, tries);
    before.(routines := before.routines[i := r], log := before.log + calls)
  }

  lemma UpdateAnswered(before: State, i: nat, reply: KeepAlive.Reply)
    requires At(before, i, Waiting) && reply != KeepAlive.Missing
    ensures var r := before.routines[i]; var tries := if reply == KeepAlive.Accepted then 0 else r.tries + 1;
      Apply(Apply(before, Tick(i)), Answer(i, reply)) == Ticked(before, i, tries, [Update(r.endpoint)])
  {
    var r := before.routines[i];
    var t := Apply(Apply(before, Tick(i)), Answer(i, reply));
    assert t.routines ==
      before.routines[i := Between(r.endpoint, if reply == KeepAlive.Accepted then 0 else r.tries + 1)];
    assert t.log == before.log + [Update(r.endpoint)];
  }

  lemma TickWithoutAdd(s: State, events: seq<Event>, before: State, i: nat, x: KeepAlive.Exchange)
    requires Exec(s, events) == Some(before) && At(before, i, Waiting) && x.update != KeepAlive.Missing
    ensures var r := before.routines[i]; var tries := if KeepAlive.Fails(x) then r.tries + 1 else 0;
      Exec(s, events + [Tick(i), Answer(i, x.update)]) == Some(Ticked(before, i, tries, [Update(r.endpoint)]))
  {
    UpdateAnswered(before, i, x.update);
    ExecTwo(s, events, before, Tick(i), Answer(i, x.update));
  }

  /** The routine has updated, and now adds. */
  function InAdd(before: State, i: nat): State
    requires i < |before.routines|
  {
    var r := before.routines[i];
    before.(routines := before.routines[i := r.(phase := Adding(false))],
            log := before.log + [Update(r.endpoint), Add(r.endpoint)])
  }

  lemma UpdateMissed(s: State, events: seq<Event>, before: State, i: nat)
    requires Exec(s, events) == Some(before) && At(before, i, Waiting)
    ensures Exec(s, events + [Tick(i), Answer(i, KeepAlive.Missing)]) == Some(InAdd(before, i))
  {
    ExecTwo(s, events, before, Tick(i), Answer(i, KeepAlive.Missing));
    var t := Apply(Apply(before, Tick(i)), Answer(i, KeepAlive.Missing));
    assert t.routines == InAdd(before, i).routines && t.log == InAdd(before, i).log;
  }

  lemma AddAnswered(before: State, i: nat, reply: KeepAlive.Reply)
    requires At(before, i, Waiting)
    ensures var r := before.routines[i]; var tries := if reply == KeepAlive.Accepted then 0 else r.tries + 1;
      Apply(InAdd(before, i), Answer(i, reply)) ==
      Ticked(before, i, tries, [Update(r.endpoint), Add(r.endpoint)])
  {
    var r := before.routines[i];
    var u := Apply(InAdd(before, i), Answer(i, reply));
    assert u.routines ==
      before.routines[i := Between(r.endpoint, if reply == KeepAlive.Accepted then 0 else r.tries + 1)];
  }

  lemma TickWithAdd(s: State, events: seq<Event>, before: State, i: nat, x: KeepAlive.Exchange)
    requires Exec(s, events) == Some(before) && At(before, i, Waiting) && x.update == KeepAlive.Missing
    ensures var r := before.routines[i]; var tries := if KeepAlive.Fails(x) then r.tries + 1 else 0;
      Exec(s, events + [Tick(i), Answer(i, x.update)] + [Answer(i, x.add)]) ==
      Some(Ticked(before, i, tries, [Update(r.endpoint), Add(r.endpoint)]))
  {
    UpdateMissed(s, events, before, i);
    ExecOne(s, events + [Tick(i), Answer(i, x.update)], Answer(i, x.add));
    AddAnswered(before, i, x.add);
  }

  /** What the loop of the routine makes of the answers to one tick. */
  function AfterTick(before: State, i: nat, x: KeepAlive.Exchange): State
    requires i < |before.routines|
  {
    var r := before.routines[i];
    Ticked(before, i, if KeepAlive.Fails(x) then r.tries + 1 else 0, CallsTo(r.endpoint, KeepAlive.Calls(x)))
  }

  lemma TickAgrees(s: State, events: seq<Event>, before: State, i: nat, x: KeepAlive.Exchange, after: State)
    requires Exec(s, events) == Some(before) && At(before, i, Waiting) && after == AfterTick(before, i, x)
    ensures Exec(s, events + TickEvents(i, x)) == Some(after)
  {
    var endpoint := before.routines[i].endpoint;
    if x.update == KeepAlive.Missing {
      TickWithAdd(s, events, before, i, x);
      assert events + TickEvents(i, x) == events + [Tick(i), Answer(i, x.update)] + [Answer(i, x.add)];
      assert CallsTo(endpoint, [KeepAlive.Update, KeepAlive.Add]) == [Update(endpoint), Add(endpoint)];
    } else {
      TickWithoutAdd(s, events, before, i, x);
      assert CallsTo(endpoint, [KeepAlive.Update]) == [Update(endpoint)];
    }
  }

  lemma CallsToAppend(endpoint: string, calls: seq<KeepAlive.Call>, more: seq<KeepAlive.Call>)
    ensures CallsTo(endpoint, calls + more) == CallsTo(endpoint, calls) + CallsTo(endpoint, more)
  {
  }

  lemma TickedTwice(s: State, i: nat, m: nat, n: nat, calls: seq<Call>, more: seq<Call>)
    requires i < |s.routines|
    ensures Ticked(Ticked(s, i, m, calls), i, n, more) == Ticked(s, i, n, calls + more)
  {
    var r := Between(s.routines[i].endpoint, n);
    assert Ticked(s, i, m, calls).routines[i := r] == s.routines[i := r];
    assert s.log + calls + more == s.log + (calls + more);
  }

  /** The state after `n` ticks of a routine that had counted nothing. */
  function AfterTicks(s: State, i: nat, xs: seq<KeepAlive.Exchange>, n: nat): State
    requires i < |s.routines| && n <= |xs|
  {
    Ticked(s, i, KeepAlive.Trailing(xs, n), CallsTo(s.routines[i].endpoint, KeepAlive.AllCalls(xs, n)))
  }

  lemma AfterNone(s: State, i: nat, xs: seq<KeepAlive.Exchange>)
    requires i < |s.routines| && s.routines[i] == Between(s.routines[i].endpoint, 0)
    ensures AfterTicks(s, i, xs, 0) == s
  {
    assert s.routines[i := s.routines[i]] == s.routines;
    assert s.log + CallsTo(s.routines[i].endpoint, []) == s.log;
  }

  lemma AfterNext(s: State, i: nat, xs: seq<KeepAlive.Exchange>, n: nat)
    requires i < |s.routines| && n < |xs|
    ensures AfterTicks(s, i, xs, n + 1) == AfterTick(AfterTicks(s, i, xs, n), i, xs[n])
  {
    var endpoint, calls, more := s.routines[i].endpoint, KeepAlive.AllCalls(xs, n), KeepAlive.Calls(xs[n]);
    CallsToAppend(endpoint, calls, more);
    TickedTwice(s, i, KeepAlive.Trailing(xs, n), KeepAlive.Trailing(xs, n + 1), CallsTo(endpoint, calls),
                CallsTo(endpoint, more));
  }

  /** As long as the failures counted are too few, the routine waits for the next tick. */
  lemma StillWaiting(s: State, i: nat, xs: seq<KeepAlive.Exchange>, n: nat)
    requires i < |s.routines| && n <= |xs| && KeepAlive.NoneBefore(xs, n)
    ensures At(AfterTicks(s, i, xs, n), i, Waiting)
  {
    KeepAlive.NotYetExhausted(xs, n);
  }

  lemma NextTick(s: State, i: nat, xs: seq<KeepAlive.Exchange>, n: nat)
    requires i < |s.routines| && n < |xs| && KeepAlive.NoneBefore(xs, n)
    requires Exec(s, TicksEvents(i, xs, n)) == Some(AfterTicks(s, i, xs, n))
    ensures Exec(s, TicksEvents(i, xs, n + 1)) == Some(AfterTicks(s, i, xs, n + 1))
  {
    StillWaiting(s, i, xs, n);
    AfterNext(s, i, xs, n);
    TickAgrees(s, TicksEvents(i, xs, n), AfterTicks(s, i, xs, n), i, xs[n], AfterTicks(s, i, xs, n + 1));
    assert TicksEvents(i, xs, n + 1) == TicksEvents(i, xs, n) + TickEvents(i, xs[n]);
  }

  /** The transitions count and call as the loop of the routine does: over any answers, up to the error report. */
  lemma {:induction false} TicksAgree(s: State, i: nat, xs: seq<KeepAlive.Exchange>, n: nat)
    requires i < |s.routines| && s.routines[i] == Between(s.routines[i].endpoint, 0)
    requires n <= |xs| && (n > 0 ==> KeepAlive.NoneBefore(xs, n - 1))
    ensures Exec(s, TicksEvents(i, xs, n)) == Some(AfterTicks(s, i, xs, n))
  {
    if n == 0 {
      AfterNone(s, i, xs);
    } else {
      TicksAgree(s, i, xs, n - 1);
      NextTick(s, i, xs, n - 1);
    }
  }

  /** The first registration: the update, its answer and, if there is an add, the answer to that. */
  function FirstEvents(i: nat, x: KeepAlive.Exchange): seq<Event> {
    if x.update == KeepAlive.Missing then [Begin(i), Answer(i, x.update)] + [Answer(i, x.add)]
    else [Begin(i), Answer(i, x.update)]
  }

  lemma FirstWithoutAdd(s: State, i: nat, x: KeepAlive.Exchange)
    requires At(s, i, Starting) && s.routines[i].tries == 0 && x.update != KeepAlive.Missing
    ensures Exec(s, FirstEvents(i, x)) == Some(Ticked(s, i, 0, [Update(s.routines[i].endpoint)]))
  {
    ExecTwo(s, [], s, Begin(i), Answer(i, x.update));
    assert [] + [Begin(i), Answer(i, x.update)] == FirstEvents(i, x);
    var t := Apply(Apply(s, Begin(i)), Answer(i, x.update));
    assert t.routines == s.routines[i := Between(s.routines[i].endpoint, 0)];
    assert t.log == s.log + [Update(s.routines[i].endpoint)];
  }

  lemma FirstWithAdd(s: State, i: nat, x: KeepAlive.Exchange)
    requires At(s, i, Starting) && s.routines[i].tries == 0 && x.update == KeepAlive.Missing
    ensures var endpoint := s.routines[i].endpoint;
      Exec(s, FirstEvents(i, x)) == Some(Ticked(s, i, 0, [Update(endpoint), Add(endpoint)]))
  {
    FirstMissed(s, i);
    ExecOne(s, [Begin(i), Answer(i, x.update)], Answer(i, x.add));
    FirstAdded(s, i, x.add);
  }

  /** The routine has found no registration, and now adds it for the first time. */
  function InFirstAdd(s: State, i: nat): State
    requires i < |s.routines|
  {
    var r := s.routines[i];
    s.(routines := s.routines[i := r.(phase := Adding(true))],
       log := s.log + [Update(r.endpoint), Add(r.endpoint)])
  }

  lemma FirstMissed(s: State, i: nat)
    requires At(s, i, Starting)
    ensures Exec(s, [Begin(i), Answer(i, KeepAlive.Missing)]) == Some(InFirstAdd(s, i))
  {
    ExecTwo(s, [], s, Begin(i), Answer(i, KeepAlive.Missing));
    assert [] + [Begin(i), Answer(i, KeepAlive.Missing)] == [Begin(i), Answer(i, KeepAlive.Missing)];
    var t := Apply(Apply(s, Begin(i)), Answer(i, KeepAlive.Missing));
    assert t.routines == InFirstAdd(s, i).routines && t.log == InFirstAdd(s, i).log;
  }

  lemma FirstAdded(s: State, i: nat, reply: KeepAlive.Reply)
    requires At(s, i, Starting) && s.routines[i].tries == 0
    ensures var endpoint := s.routines[i].endpoint;
      Apply(InFirstAdd(s, i), Answer(i, reply)) == Ticked(s, i, 0, [Update(endpoint), Add(endpoint)])
  {
    var t := Apply(InFirstAdd(s, i), Answer(i, reply));
    assert t.routines == s.routines[i := Between(s.routines[i].endpoint, 0)];
    assert t.log == InFirstAdd(s, i).log;
  }

  /** Whatever the answers to it, the first registration leaves the routine waiting with no failure counted. */
  lemma FirstAgrees(s: State, i: nat, x: KeepAlive.Exchange)
    requires At(s, i, Starting) && s.routines[i].tries == 0
    ensures Exec(s, FirstEvents(i, x)) ==
      Some(Ticked(s, i, 0, CallsTo(s.routines[i].endpoint, KeepAlive.Calls(x))))
  {
    var endpoint := s.routines[i].endpoint;
    if x.update == KeepAlive.Missing {
      FirstWithAdd(s, i, x);
      assert CallsTo(endpoint, [KeepAlive.Update, KeepAlive.Add]) == [Update(endpoint), Add(endpoint)];
    } else {
      FirstWithoutAdd(s, i, x);
      assert CallsTo(endpoint, [KeepAlive.Update]) == [Update(endpoint)];
    }
  }

  /** The whole routine, from its start and over any answers up to the error report, calls what the loop of `Run` calls
      and counts what that counts. */
  lemma RoutineAgrees(s: State, i: nat, first: KeepAlive.Exchange, xs: seq<KeepAlive.Exchange>, n: nat)
    requires At(s, i, Starting) && s.routines[i].tries == 0
    requires n <= |xs| && (n > 0 ==> KeepAlive.NoneBefore(xs, n - 1))
    ensures Exec(s, FirstEvents(i, first) + TicksEvents(i, xs, n)) ==
      Some(Ticked(s, i, KeepAlive.Trailing(xs, n),
                  CallsTo(s.routines[i].endpoint, KeepAlive.Calls(first) + KeepAlive.AllCalls(xs, n))))
  {
    var endpoint, calls, more := s.routines[i].endpoint, KeepAlive.Calls(first), KeepAlive.AllCalls(xs, n);
    FirstAgrees(s, i, first);
    var t := Ticked(s, i, 0, CallsTo(endpoint, calls));
    TicksAgree(t, i, xs, n);
    ExecAppend(s, FirstEvents(i, first), TicksEvents(i, xs, n));
    CallsToAppend(endpoint, calls, more);
    TickedTwice(s, i, 0, KeepAlive.Trailing(xs, n), CallsTo(endpoint, calls), CallsTo(endpoint, more));
  }

  const REFUSALS: seq<KeepAlive.Exchange> :=
    seq(KeepAlive.RETRIES, _ => KeepAlive.Exchange(KeepAlive.Refused, KeepAlive.Refused))

  predicate OnlyRoutine(s: State, r: Routine) { s.sup == Listening && s.discover && s.routines == [r] }

  lemma Failing(s: State, endpoint: string)
    requires OnlyRoutine(s, Routine(endpoint, Waiting, 0))
    ensures Exec(s, TicksEvents(0, REFUSALS, KeepAlive.RETRIES)).Some?
    ensures OnlyRoutine(Exec(s, TicksEvents(0, REFUSALS, KeepAlive.RETRIES)).value,
                        Routine(endpoint, Signalling, KeepAlive.RETRIES))
  {
    var xs := REFUSALS;
    KeepAlive.TrailingIs(xs, KeepAlive.RETRIES);
    TicksAgree(s, 0, xs, KeepAlive.RETRIES);
  }

  /** A run up to the first error report. */
  lemma Exhausting(endpoint: string) returns (events: seq<Event>)
    ensures Exec(Init(endpoint, true), events).Some?
    ensures OnlyRoutine(Exec(Init(endpoint, true), events).value, Routine(endpoint, Signalling, KeepAlive.RETRIES))
  {
    var s := Init(endpoint, true);
    ExecTwo(s, [], s, Begin(0), Answer(0, KeepAlive.Accepted));
    events := [] + [Begin(0), Answer(0, KeepAlive.Accepted)];
    Failing(Exec(s, events).value, endpoint);
    ExecAppend(s, events, TicksEvents(0, REFUSALS, KeepAlive.RETRIES));
    events := events + TicksEvents(0, REFUSALS, KeepAlive.RETRIES);
  }

  /** From an error report a restart at `other`. */
  lemma RestartAt(s: State, events: seq<Event>, one: string, other: string) returns (all: seq<Event>)
    requires Exec(s, events).Some?
    requires OnlyRoutine(Exec(s, events).value, Routine(one, Signalling, KeepAlive.RETRIES))
    ensures Exec(s, all).Some?
    ensures Exec(s, all).value.sup == Listening
    ensures Exec(s, all).value.routines == [Routine(one, Gone, KeepAlive.RETRIES), Routine(other, Starting, 0)]
  {
    var t := Exec(s, events).value;
    ExecTwo(s, events, t, ReportError(0), Restart(other));
    all := events + [ReportError(0), Restart(other)];
  }

  /** The second routine registers once and is stopped. */
  lemma StopSecond(s: State, events: seq<Event>, one: string, other: string) returns (all: seq<Event>)
    requires Exec(s, events).Some? && Exec(s, events).value.sup == Listening
    requires Exec(s, events).value.routines == [Routine(one, Gone, KeepAlive.RETRIES), Routine(other, Starting, 0)]
    ensures Exec(s, all).Some?
    ensures Exec(s, all).value.log == Exec(s, events).value.log + [Update(other), Delete(one)]
  {
    var t := Exec(s, events).value;
    ExecTwo(s, events, t, Begin(1), Answer(1, KeepAlive.Accepted));
    var u := Apply(Apply(t, Begin(1)), Answer(1, KeepAlive.Accepted));
    var v := Apply(Apply(u, AskedToStop), Stop(1));
    assert u.routines[1].phase == Waiting && v.routines[0].endpoint == one && v.sup == Deleting;
    assert v.log == t.log + [Update(other)];
    var more := events + [Begin(1), Answer(1, KeepAlive.Accepted)];
    ExecTwo(s, more, u, AskedToStop, Stop(1));
    ExecOne(s, more + [AskedToStop, Stop(1)], CallDelete);
    all := more + [AskedToStop, Stop(1)] + [CallDelete];
  }

  /** With discovery a restart can move the registration to another catalog, and the delete then goes to the first. */
  lemma DeleteGoesAstray(one: string, other: string) returns (events: seq<Event>)
    ensures Exec(Init(one, true), events).Some?
    ensures var log := Exec(Init(one, true), events).value.log;
      |log| >= 2 && log[|log| - 2..] == [Update(other), Delete(one)]
  {
    var s := Init(one, true);
    events := Exhausting(one);
    events := RestartAt(s, events, one, other);
    events := StopSecond(s, events, one, other);
  }
}
