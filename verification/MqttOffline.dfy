/** Publishing without a connection: when it can happen, and that an ordinary start allows it. */
module MqttOffline {
  import opened Prelude
  import opened MqttTopics
  import opened MqttPipeline

  lemma ExecOne(c: Config, s: State, events: seq<Event>, e: Event)
    requires Exec(c, s, events).Some? && Enabled(Exec(c, s, events).value, e)
    ensures Exec(c, s, events + [e]) == Some(Apply(c, Exec(c, s, events).value, e))
  {
    assert (events + [e])[..|events|] == events;
  }

  lemma {:induction false} ExecAppend(c: Config, s: State, first: seq<Event>, more: seq<Event>)
    requires Exec(c, s, first).Some?
    ensures Exec(c, s, first + more) == Exec(c, Exec(c, s, first).value, more)
    decreases |more|
  {
    if more == [] {
      assert first + more == first;
    } else {
      var front := more[..|more| - 1];
      ExecAppend(c, s, first, front);
      assert (first + more)[..|first + more| - 1] == first + front;
    }
  }

  // ---- Continuations without a connection ----

  /** The events happen from `s` on without a new connection, and a message goes out while there is none. */
  ghost predicate SendsDown(c: Config, s: State, events: seq<Event>) {
    && Connect !in events && Exec(c, s, events).Some?
    && var t := Exec(c, s, events).value;
       |t.published| > |s.published| && !t.published[|s.published|].up
  }

  ghost predicate CanSendDown(c: Config, s: State) { exists events :: SendsDown(c, s, events) }

  lemma SendsNow(c: Config, s: State, e: Event)
    requires Enabled(s, e) && e != Connect && !s.up && |Apply(c, s, e).published| > |s.published|
    ensures CanSendDown(c, s)
  {
    ExecOne(c, s, [], e);
    assert [] + [e] == [e];
    assert SendsDown(c, s, [e]);
  }

  lemma SendsLater(c: Config, s: State, e: Event)
    requires Enabled(s, e) && e != Connect
    requires Apply(c, s, e).published == s.published && CanSendDown(c, Apply(c, s, e))
    ensures CanSendDown(c, s)
  {
    var more :| SendsDown(c, Apply(c, s, e), more);
    ExecOne(c, s, [], e);
    assert [] + [e] == [e];
    ExecAppend(c, s, [e], more);
    assert SendsDown(c, s, [e] + more);
  }

  function PublisherRank(p: Publisher): nat {
    match p case Idle => 0 case Storing(_) => 1 case Sending(_) => 1 case Checking(_) => 2
  }

  function DrainRank(d: Drain): nat {
    match d case Over => 0 case Receiving => 0 case Handling(_) => 1 case Looking => 1
  }

  /** There is no connection, but there is a buffer and a drain that has not ended. */
  ghost predicate DrainAlive(c: Config, s: State, k: nat) {
    !s.up && c.capacity > 0 && |s.queue| <= QUEUE_SIZE && k < |s.drains| && s.drains[k] != Over
  }

  /** A drain that has not ended gets to publish: it works off what is on its way, and if nothing is, a new reading. */
  lemma {:induction false} DrainSends(c: Config, s: State, k: nat, r: Reading)
    requires DrainAlive(c, s, k) && Copies(c.devices, r.rid) > 0 && !r.isError
    ensures CanSendDown(c, s)
    decreases s.agent.left, |s.queue|, PublisherRank(s.publisher), |s.buffer|, DrainRank(s.drains[k])
  {
    if s.publisher.Sending? {
      SendsNow(c, s, Send);
    } else if s.drains[k].Handling? && !s.drains[k].r.isError {
      SendsNow(c, s, DrainHandle(k));
    } else if s.drains[k].Handling? {
      DrainSends(c, Apply(c, s, DrainHandle(k)), k, r);
      SendsLater(c, s, DrainHandle(k));
    } else if s.buffer != [] {
      var e := if s.drains[k].Looking? then DrainLook(k) else DrainTake(k);
      DrainSends(c, Apply(c, s, e), k, r);
      SendsLater(c, s, e);
    } else if s.publisher != Idle || s.queue != [] || s.agent.left > 0 {
      var e := if s.publisher.Checking? then Check else if s.publisher.Storing? then Store
               else if s.queue != [] then Take else Offer;
      DrainSends(c, Apply(c, s, e), k, r);
      SendsLater(c, s, e);
    } else {
      NewReadingSends(c, s, k, r);
    }
  }

  lemma NewReadingSends(c: Config, s: State, k: nat, r: Reading)
    requires DrainAlive(c, s, k) && Copies(c.devices, r.rid) > 0 && !r.isError
    requires s.agent.left == 0 && s.queue == [] && s.publisher == Idle && s.buffer == []
    requires s.drains[k] == Receiving || s.drains[k] == Looking
    ensures CanSendDown(c, s)
  {
    var s1 := Apply(c, s, Receive(r));
    var s2 := Apply(c, s1, Offer);
    var s3 := Apply(c, s2, Take);
    var s4 := Apply(c, s3, Check);
    var s5 := Apply(c, s4, Store);
    StoredSends(c, s5, k, r);
    SendsLater(c, s4, Store);
    SendsLater(c, s3, Check);
    SendsLater(c, s2, Take);
    SendsLater(c, s1, Offer);
    SendsLater(c, s, Receive(r));
  }

  lemma StoredSends(c: Config, s: State, k: nat, r: Reading)
    requires DrainAlive(c, s, k) && s.buffer == [r] && !r.isError
    requires s.drains[k] == Receiving || s.drains[k] == Looking
    ensures CanSendDown(c, s)
  {
    var t := if s.drains[k] == Looking then Apply(c, s, DrainLook(k)) else s;
    var u := Apply(c, t, DrainTake(k));
    SendsNow(c, u, DrainHandle(k));
    SendsLater(c, t, DrainTake(k));
    if s.drains[k] == Looking { SendsLater(c, s, DrainLook(k)); }
  }

  // ---- When it can happen ----

  /** No routine would still publish: the publisher is not about to, and without a buffer or with all drains at their
      end no drain ever will. */
  ghost predicate Calm(c: Config, s: State) {
    !s.publisher.Sending? && (c.capacity == 0 || forall k | 0 <= k < |s.drains| :: s.drains[k] == Over)
  }

  ghost predicate CalmDown(c: Config, s: State) {
    !s.up && Calm(c, s) && (c.capacity == 0 ==> NothingStored(s))
  }

  lemma CalmStep(c: Config, s: State, e: Event)
    requires CalmDown(c, s) && Enabled(s, e) && e != Connect
    ensures CalmDown(c, Apply(c, s, e)) && Apply(c, s, e).published == s.published
  {
    if c.capacity == 0 { NothingStoredStep(c, s, e); }
  }

  lemma {:induction false} CalmStays(c: Config, s: State, events: seq<Event>)
    requires CalmDown(c, s) && Connect !in events && Exec(c, s, events).Some?
    ensures CalmDown(c, Exec(c, s, events).value) && Exec(c, s, events).value.published == s.published
    decreases |events|
  {
    if events == [] {
    } else {
      var front, e := events[..|events| - 1], events[|events| - 1];
      CalmStays(c, s, front);
      CalmStep(c, Exec(c, s, front).value, e);
    }
  }

  /** Some resource is published at all. */
  ghost predicate Publishable(c: Config) { exists rid :: Copies(c.devices, rid) > 0 }

  /** What is published was offered. */
  lemma NothingPublishable(c: Config, history: seq<Event>, more: seq<Event>)
    requires Exec(c, INIT, history).Some? && SendsDown(c, Exec(c, INIT, history).value, more)
    ensures Publishable(c)
  {
    ExecAppend(c, INIT, history, more);
    InvRun(c, history + more);
    var t := Exec(c, INIT, history + more).value;
    var m := t.published[|Exec(c, INIT, history).value.published|];
    InPublished(t.published, m);
    assert Settled(m.reading, t) > 0;
    assert Occurs(m.reading, t.accepted) > 0;
    assert m.reading in t.accepted;
  }

  /** From a reachable state without a connection, a message can still go out before the next one comes if and only if
      some resource is published at all and the state is not calm. */
  lemma SendsDownIff(c: Config, history: seq<Event>)
    requires Exec(c, INIT, history).Some? && !Exec(c, INIT, history).value.up
    ensures var s := Exec(c, INIT, history).value; CanSendDown(c, s) <==> !Calm(c, s) && Publishable(c)
  {
    var s := Exec(c, INIT, history).value;
    InvRun(c, history);
    if c.capacity == 0 { NoBuffer(c, history); }
    if CanSendDown(c, s) {
      var more :| SendsDown(c, s, more);
      NothingPublishable(c, history, more);
      if Calm(c, s) { CalmStays(c, s, more); }
    }
    if !Calm(c, s) && Publishable(c) {
      if s.publisher.Sending? {
        SendsNow(c, s, Send);
      } else {
        var k :| 0 <= k < |s.drains| && s.drains[k] != Over;
        var rid :| Copies(c.devices, rid) > 0;
        DrainSends(c, s, k, Reading(rid, "", false));
      }
    }
  }

  // ---- An ordinary start ----

  /** As long as the first connection lasts, its drain waits at an empty buffer. */
  ghost predicate FirstConnection(s: State) {
    s.up && s.buffer == [] && !s.publisher.Storing? && s.drains == [Receiving]
  }

  lemma FirstConnectionStep(c: Config, s: State, e: Event)
    requires FirstConnection(s) && Enabled(s, e) && e != Disconnect
    ensures FirstConnection(Apply(c, s, e))
  {
  }

  lemma {:induction false} FirstConnectionLasts(c: Config, events: seq<Event>)
    requires Exec(c, INIT, [Connect] + events).Some? && Disconnect !in events
    ensures FirstConnection(Exec(c, INIT, [Connect] + events).value)
    decreases |events|
  {
    var all := [Connect] + events;
    if events == [] {
      assert all[..0] == [] && all == [Connect];
    } else {
      var front, e := events[..|events| - 1], events[|events| - 1];
      assert all[..|all| - 1] == [Connect] + front && all[|all| - 1] == e;
      FirstConnectionLasts(c, front);
      FirstConnectionStep(c, Exec(c, INIT, [Connect] + front).value, e);
    }
  }

  /** In every run that starts with a connection, with a buffer configured, the first loss of the connection is not
      calm: a message can go out before the connection is back. */
  lemma FirstLoss(c: Config, events: seq<Event>)
    requires c.capacity > 0 && Publishable(c) && Disconnect !in events
    requires Exec(c, INIT, [Connect] + events).Some?
    ensures var history := [Connect] + events + [Disconnect];
      Exec(c, INIT, history).Some? && CanSendDown(c, Exec(c, INIT, history).value)
  {
    FirstConnectionLasts(c, events);
    ExecOne(c, INIT, [Connect] + events, Disconnect);
    var s := Exec(c, INIT, [Connect] + events + [Disconnect]).value;
    assert s.drains[0] == Receiving;
    SendsDownIff(c, [Connect] + events + [Disconnect]);
  }

  lemma ExecThree(c: Config, events: seq<Event>, s: State, e1: Event, e2: Event, e3: Event)
    requires Exec(c, INIT, events) == Some(s) && Enabled(s, e1) && Enabled(Apply(c, s, e1), e2)
    requires Enabled(Apply(c, Apply(c, s, e1), e2), e3)
    ensures Exec(c, INIT, events + [e1, e2, e3]) == Some(Apply(c, Apply(c, Apply(c, s, e1), e2), e3))
  {
    ExecOne(c, INIT, events, e1);
    ExecOne(c, INIT, events + [e1], e2);
    ExecOne(c, INIT, events + [e1] + [e2], e3);
    assert events + [e1, e2, e3] == events + [e1] + [e2] + [e3];
  }

  /** The connection has come and gone, and `left` copies of `r` are to be offered. */
  function AfterLoss(r: Reading, left: nat): State {
    INIT.(drains := [Receiving], agent := Agent(r, left))
  }

  /** The publisher has taken the first copy to the buffer. */
  function InHand(r: Reading, left: nat): State {
    AfterLoss(r, left).(accepted := [r], taken := [r], publisher := Storing(r))
  }

  lemma LossFirst(c: Config, r: Reading)
    ensures Exec(c, INIT, [] + [Connect, Disconnect, Receive(r)]) == Some(AfterLoss(r, Copies(c.devices, r.rid)))
  {
    assert INIT.drains + [Receiving] == [Receiving];
    ExecThree(c, [], INIT, Connect, Disconnect, Receive(r));
  }

  lemma OfferNext(c: Config, events: seq<Event>, r: Reading, left: nat)
    requires Exec(c, INIT, events) == Some(AfterLoss(r, left)) && left > 0 && c.capacity > 0
    ensures Exec(c, INIT, events + [Offer, Take, Check]) == Some(InHand(r, left - 1))
  {
    var s := AfterLoss(r, left);
    var s1 := Apply(c, s, Offer);
    assert s1.queue == [r] && s1.queue[1..] == [] && s1.accepted == [r];
    ExecThree(c, events, s, Offer, Take, Check);
  }

  lemma StoreLast(c: Config, events: seq<Event>, r: Reading, left: nat)
    requires Exec(c, INIT, events) == Some(InHand(r, left)) && c.capacity > 0 && !r.isError
    ensures var end := Exec(c, INIT, events + [Store, DrainTake(0), DrainHandle(0)]);
      end.Some? && end.value.published == [Message(TopicOf(c, r.rid), r, false)] && end.value.stored == [r]
  {
    ExecThree(c, events, InHand(r, left), Store, DrainTake(0), DrainHandle(0));
  }

  /** Such a run: the drain of the first connection takes a reading stored after the connection is lost. */
  lemma PublishedWhileDown(c: Config, r: Reading) returns (events: seq<Event>)
    requires Copies(c.devices, r.rid) > 0 && !r.isError && c.capacity > 0
    ensures Exec(c, INIT, events).Some?
    ensures Exec(c, INIT, events).value.published == [Message(TopicOf(c, r.rid), r, false)]
    ensures Exec(c, INIT, events).value.stored == [r]
  {
    var n := Copies(c.devices, r.rid);
    LossFirst(c, r);
    events := [] + [Connect, Disconnect, Receive(r)];
    OfferNext(c, events, r, n);
    events := events + [Offer, Take, Check];
    StoreLast(c, events, r, n - 1);
    events := events + [Store, DrainTake(0), DrainHandle(0)];
  }
}
