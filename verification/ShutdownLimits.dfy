/** From where a registrar can still issue a call, and from where one of its routines can crash: exactly, for every
    reachable state. */
module ShutdownLimits {
  import opened Prelude
  import opened Shutdown
  import KeepAlive

  // ---- Further calls ----

  /** The events happen from `s` on, and the next call is an update or an add. */
  ghost predicate Calls(s: State, more: seq<Event>) {
    Exec(s, more).Some? && |Exec(s, more).value.log| > |s.log| && !Exec(s, more).value.log[|s.log|].Delete?
  }

  ghost predicate CanCall(s: State) { exists more :: Calls(s, more) }

  /** The routine is registering, renewing, or waiting for a tick. */
  predicate Live(r: Routine) { Active(r) && r.phase != Signalling }

  /** The stop was timed out. */
  predicate TimedOut(sup: Supervisor) { sup == Closing(false) || sup == Returned(false) }

  ghost predicate MayCall(s: State)
    requires s.routines != []
  {
    s.sup == Listening || s.sup == Restarting || ((s.sup == Stopping || TimedOut(s.sup)) && Live(Last(s)))
  }

  lemma CallNow(s: State, e: Event)
    requires Enabled(s, e) && |Apply(s, e).log| > |s.log| && !Apply(s, e).log[|s.log|].Delete?
    ensures CanCall(s)
  {
    ExecOne(s, [], e);
    assert [] + [e] == [e];
    assert Calls(s, [e]);
  }

  lemma CallLater(s: State, e: Event)
    requires Enabled(s, e) && Apply(s, e).log == s.log && CanCall(Apply(s, e))
    ensures CanCall(s)
  {
    var more :| Calls(Apply(s, e), more);
    ExecOne(s, [], e);
    assert [] + [e] == [e];
    ExecAppend(s, [e], more);
    assert Calls(s, [e] + more);
  }

  lemma LiveCalls(s: State)
    requires s.routines != [] && Live(Last(s))
    ensures CanCall(s)
  {
    var i := |s.routines| - 1;
    match Last(s).phase
    case Starting => CallNow(s, Begin(i));
    case Waiting => CallNow(s, Tick(i));
    case Updating(_) => CallNow(s, Answer(i, KeepAlive.Missing));
    case Adding(_) =>
      CallNow(Apply(s, Answer(i, KeepAlive.Accepted)), Tick(i));
      CallLater(s, Answer(i, KeepAlive.Accepted));
  }

  lemma RestartCalls(s: State)
    requires s.routines != [] && s.sup == Restarting
    ensures CanCall(s)
  {
    var e := Restart(Last(s).endpoint);
    LiveCalls(Apply(s, e));
    CallLater(s, e);
  }

  lemma MayCallCan(s: State)
    requires RoutinesOk(s) && MayCall(s)
    ensures CanCall(s)
  {
    if s.sup == Restarting {
      RestartCalls(s);
    } else if Live(Last(s)) {
      LiveCalls(s);
    } else {
      var e := ReportError(|s.routines| - 1);
      RestartCalls(Apply(s, e));
      CallLater(s, e);
    }
  }

  lemma SilentStep(s: State, e: Event)
    requires RoutinesOk(s) && ChannelsOk(s) && !MayCall(s) && Enabled(s, e)
    ensures RoutinesOk(Apply(s, e)) && ChannelsOk(Apply(s, e)) && !MayCall(Apply(s, e))
    ensures Apply(s, e).log == s.log || (e == CallDelete && Apply(s, e).log == s.log + [Delete(s.routines[0].endpoint)])
  {
    RoutinesStep(s, e);
    if Quiet(s.sup) { QuietStep(s, e); }
  }

  lemma {:induction false} Silent(s: State, more: seq<Event>)
    requires RoutinesOk(s) && ChannelsOk(s) && !MayCall(s) && Exec(s, more).Some?
    ensures var t := Exec(s, more).value;
      && RoutinesOk(t) && ChannelsOk(t) && !MayCall(t) && s.log <= t.log
      && forall k | |s.log| <= k < |t.log| :: t.log[k].Delete?
    decreases |more|
  {
    if more == [] {
    } else {
      Silent(s, more[..|more| - 1]);
      SilentStep(Exec(s, more[..|more| - 1]).value, more[|more| - 1]);
    }
  }

  /** From a reachable state the registrar can still issue an update or an add if and only if it is still supervising
      or restarting, or is about to stop or was timed out and its routine is neither at its end nor blocked on
      reporting. */
  lemma CanCallIff(endpoint: string, discover: bool, events: seq<Event>)
    requires Exec(Init(endpoint, discover), events).Some?
    ensures var s := Exec(Init(endpoint, discover), events).value;
      s.routines != [] && (CanCall(s) <==> MayCall(s))
  {
    InvRun(endpoint, discover, events);
    var s := Exec(Init(endpoint, discover), events).value;
    if CanCall(s) && !MayCall(s) {
      var more :| Calls(s, more);
      Silent(s, more);
    }
    if MayCall(s) { MayCallCan(s); }
  }

  /** So after the supervisor has returned without a delete, calls still come if and only if the routine is live. */
  lemma ReturnedCallsIff(endpoint: string, discover: bool, events: seq<Event>)
    requires Exec(Init(endpoint, discover), events).Some?
    requires Exec(Init(endpoint, discover), events).value.sup == Returned(false)
    ensures var s := Exec(Init(endpoint, discover), events).value;
      s.routines != [] && (CanCall(s) <==> Live(Last(s)))
  {
    CanCallIff(endpoint, discover, events);
  }

  // ---- Crashes ----

  ghost predicate Crashes(s: State, more: seq<Event>) {
    Exec(s, more).Some? && exists i: nat :: At(Exec(s, more).value, i, Crashed)
  }

  ghost predicate CanCrash(s: State) { exists more :: Crashes(s, more) }

  ghost predicate MayCrash(s: State)
    requires s.routines != []
  {
    s.sup == Listening || s.sup == Restarting || s.sup == Stopping || (TimedOut(s.sup) && Last(s).phase != Gone)
  }

  lemma CrashLater(s: State, e: Event)
    requires Enabled(s, e) && CanCrash(Apply(s, e))
    ensures CanCrash(s)
  {
    var more :| Crashes(Apply(s, e), more);
    ExecOne(s, [], e);
    assert [] + [e] == [e];
    ExecAppend(s, [e], more);
    assert Crashes(s, [e] + more);
  }

  function PhaseRank(phase: Phase): nat {
    match phase
    case Starting => 3
    case Updating(first) => if first then 2 else 0
    case Adding(first) => if first then 2 else 0
    case Waiting => 1
    case Signalling => 0
    case Gone => 0
    case Crashed => 0
  }

  /** Refused calls drive an active routine to the closed error channel. */
  lemma {:induction false} DrivenToCrash(s: State)
    requires RoutinesOk(s) && ChannelsOk(s) && s.sup == Returned(false) && Active(Last(s))
    ensures CanCrash(s)
    decreases KeepAlive.RETRIES - Last(s).tries, PhaseRank(Last(s).phase)
  {
    var i := |s.routines| - 1;
    if Last(s).phase == Signalling {
      var t := Apply(s, Crash(i));
      assert Exec(t, []) == Some(t) && At(t, i, Crashed);
      assert Crashes(t, []);
      CrashLater(s, Crash(i));
    } else {
      var e := if Last(s).phase == Starting then Begin(i) else if Last(s).phase == Waiting then Tick(i)
               else Answer(i, KeepAlive.Refused);
      RoutinesStep(s, e);
      DrivenToCrash(Apply(s, e));
      CrashLater(s, e);
    }
  }

  lemma TimedOutCrashes(s: State)
    requires RoutinesOk(s) && ChannelsOk(s) && TimedOut(s.sup) && Last(s).phase != Gone
    ensures CanCrash(s)
  {
    if Last(s).phase == Crashed {
      assert Exec(s, []) == Some(s) && At(s, |s.routines| - 1, Crashed);
      assert Crashes(s, []);
    } else if s.sup == Returned(false) {
      DrivenToCrash(s);
    } else {
      var t := if s.sigClosed then s else Apply(s, CloseSignals);
      if !s.sigClosed { RoutinesStep(s, CloseSignals); }
      RoutinesStep(t, CloseErrors);
      DrivenToCrash(Apply(t, CloseErrors));
      CrashLater(t, CloseErrors);
      if !s.sigClosed { CrashLater(s, CloseSignals); }
    }
  }

  lemma StoppingCrashes(s: State)
    requires RoutinesOk(s) && ChannelsOk(s) && s.sup == Stopping
    ensures CanCrash(s)
  {
    RoutinesStep(s, TimeOut);
    TimedOutCrashes(Apply(s, TimeOut));
    CrashLater(s, TimeOut);
  }

  lemma SupervisedCrashes(s: State)
    requires RoutinesOk(s) && ChannelsOk(s) && (s.sup == Listening || s.sup == Restarting)
    ensures CanCrash(s)
  {
    var e := Restart(Last(s).endpoint);
    var t := if s.sup == Restarting then Apply(s, e) else s;
    if s.sup == Restarting { RoutinesStep(s, e); }
    RoutinesStep(t, AskedToStop);
    StoppingCrashes(Apply(t, AskedToStop));
    CrashLater(t, AskedToStop);
    if s.sup == Restarting { CrashLater(s, e); }
  }

  lemma SafeStep(s: State, e: Event)
    requires RoutinesOk(s) && ChannelsOk(s) && !MayCrash(s) && Enabled(s, e)
    ensures RoutinesOk(Apply(s, e)) && ChannelsOk(Apply(s, e)) && !MayCrash(Apply(s, e))
  {
    RoutinesStep(s, e);
    if Quiet(s.sup) { QuietStep(s, e); }
  }

  lemma {:induction false} Safe(s: State, more: seq<Event>)
    requires RoutinesOk(s) && ChannelsOk(s) && !MayCrash(s) && Exec(s, more).Some?
    ensures RoutinesOk(Exec(s, more).value) && ChannelsOk(Exec(s, more).value) && !MayCrash(Exec(s, more).value)
    decreases |more|
  {
    if more == [] {
    } else {
      Safe(s, more[..|more| - 1]);
      SafeStep(Exec(s, more[..|more| - 1]).value, more[|more| - 1]);
    }
  }

  /** From a reachable state some continuation crashes a routine if and only if the supervisor has not got through to
      its routine and not given up, and after a timed-out stop the routine has not ended. */
  lemma CanCrashIff(endpoint: string, discover: bool, events: seq<Event>)
    requires Exec(Init(endpoint, discover), events).Some?
    ensures var s := Exec(Init(endpoint, discover), events).value;
      s.routines != [] && (CanCrash(s) <==> MayCrash(s))
  {
    InvRun(endpoint, discover, events);
    var s := Exec(Init(endpoint, discover), events).value;
    if CanCrash(s) && !MayCrash(s) {
      var more :| Crashes(s, more);
      Safe(s, more);
    }
    if MayCrash(s) {
      if TimedOut(s.sup) {
        TimedOutCrashes(s);
      } else if s.sup == Stopping {
        StoppingCrashes(s);
      } else {
        SupervisedCrashes(s);
      }
    }
  }

  // ---- The end of a routine ----

  ghost predicate Ends(s: State, more: seq<Event>) {
    Exec(s, more).Some? && var t := Exec(s, more).value; t.routines != [] && Last(t).phase == Gone
  }

  ghost predicate CanEnd(s: State) { exists more :: Ends(s, more) }

  lemma EndNow(s: State)
    requires s.routines != [] && Last(s).phase == Gone
    ensures CanEnd(s)
  {
    assert Ends(s, []);
  }

  lemma EndLater(s: State, e: Event)
    requires Enabled(s, e) && CanEnd(Apply(s, e))
    ensures CanEnd(s)
  {
    var more :| Ends(Apply(s, e), more);
    ExecOne(s, [], e);
    assert [] + [e] == [e];
    ExecAppend(s, [e], more);
    assert Ends(s, [e] + more);
  }

  /** A waiting routine is stopped or sees the closed channel. */
  lemma WaitingEnds(s: State)
    requires RoutinesOk(s) && ChannelsOk(s) && Last(s).phase == Waiting
    ensures CanEnd(s)
  {
    var i := |s.routines| - 1;
    if s.sup == Listening || s.sup == Stopping {
      var t := if s.sup == Listening then Apply(s, AskedToStop) else s;
      EndNow(Apply(t, Stop(i)));
      EndLater(t, Stop(i));
      if s.sup == Listening { EndLater(s, AskedToStop); }
    } else {
      var t := if s.sigClosed then s else Apply(s, CloseSignals);
      EndNow(Apply(t, SeeClosed(i)));
      EndLater(t, SeeClosed(i));
      if !s.sigClosed { EndLater(s, CloseSignals); }
    }
  }

  lemma LiveEnds(s: State)
    requires RoutinesOk(s) && ChannelsOk(s) && Live(Last(s))
    ensures CanEnd(s)
  {
    var i := |s.routines| - 1;
    if Last(s).phase == Waiting {
      WaitingEnds(s);
    } else {
      var t := if Last(s).phase == Starting then Apply(s, Begin(i)) else s;
      if Last(s).phase == Starting { RoutinesStep(s, Begin(i)); }
      RoutinesStep(t, Answer(i, KeepAlive.Accepted));
      WaitingEnds(Apply(t, Answer(i, KeepAlive.Accepted)));
      EndLater(t, Answer(i, KeepAlive.Accepted));
      if Last(s).phase == Starting { EndLater(s, Begin(i)); }
    }
  }

  ghost predicate MayEnd(s: State)
    requires s.routines != []
  {
    s.sup == Listening || Live(Last(s)) || Last(s).phase == Gone
  }

  lemma NoEndStep(s: State, e: Event)
    requires RoutinesOk(s) && ChannelsOk(s) && !MayEnd(s) && Enabled(s, e)
    ensures Apply(s, e).routines != [] && !MayEnd(Apply(s, e))
  {
  }

  lemma {:induction false} NoEnd(s: State, more: seq<Event>)
    requires RoutinesOk(s) && ChannelsOk(s) && !MayEnd(s) && Exec(s, more).Some?
    ensures RoutinesOk(Exec(s, more).value) && ChannelsOk(Exec(s, more).value) && !MayEnd(Exec(s, more).value)
    decreases |more|
  {
    if more == [] {
    } else {
      var before, e := Exec(s, more[..|more| - 1]).value, more[|more| - 1];
      NoEnd(s, more[..|more| - 1]);
      RoutinesStep(before, e);
      NoEndStep(before, e);
    }
  }

  /** From a reachable state the last routine can still come to its end if and only if it has, it is live, or there is
      a supervisor to take its report. */
  lemma CanEndIff(endpoint: string, discover: bool, events: seq<Event>)
    requires Exec(Init(endpoint, discover), events).Some?
    ensures var s := Exec(Init(endpoint, discover), events).value;
      s.routines != [] && (CanEnd(s) <==> MayEnd(s))
  {
    InvRun(endpoint, discover, events);
    var s := Exec(Init(endpoint, discover), events).value;
    if CanEnd(s) && !MayEnd(s) {
      var more :| Ends(s, more);
      NoEnd(s, more);
    }
    if MayEnd(s) { MayEndCan(s); }
  }

  lemma MayEndCan(s: State)
    requires RoutinesOk(s) && ChannelsOk(s) && MayEnd(s)
    ensures CanEnd(s)
  {
    if Last(s).phase == Gone {
      EndNow(s);
    } else if Live(Last(s)) {
      LiveEnds(s);
    } else {
      EndNow(Apply(s, ReportError(|s.routines| - 1)));
      EndLater(s, ReportError(|s.routines| - 1));
    }
  }

  /** A supervisor that gives up ends everything: nothing happens any more. */
  lemma GivingUpEnds(endpoint: string, discover: bool, events: seq<Event>, e: Event)
    requires Exec(Init(endpoint, discover), events + [GiveUp]).Some?
    ensures !Enabled(Exec(Init(endpoint, discover), events + [GiveUp]).value, e)
  {
    InvRun(endpoint, discover, events);
    assert (events + [GiveUp])[..|events|] == events;
    NothingLeft(Exec(Init(endpoint, discover), events).value, e);
  }

  lemma NothingLeft(s: State, e: Event)
    requires RoutinesOk(s) && ChannelsOk(s) && s.sup == Restarting
    ensures !Enabled(Apply(s, GiveUp), e)
  {
  }
}
