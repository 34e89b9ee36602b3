/** From the agent manager to the broker: a queue, a publisher, and a buffer for the time without a connection, as a
    transition system over the steps of the agent manager, the publisher, and the routine that each new connection
    starts to drain the buffer. The connection comes and goes at any time. */
module MqttPipeline {
  import opened Prelude
  import opened MqttTopics

  const QUEUE_SIZE := 100

  datatype Reading = Reading(rid: string, payload: string, isError: bool)

  /** A reading handed to the broker's client, on what topic, and whether there was a connection. */
  datatype Message = Message(topic: string, reading: Reading, up: bool)

  datatype Publisher = Idle | Checking(r: Reading) | Sending(r: Reading) | Storing(r: Reading)

  datatype Drain = Receiving | Handling(r: Reading) | Looking | Over

  /** The agent manager still has `left` copies of a reading to offer. */
  datatype Agent = Agent(reading: Reading, left: nat)

  datatype Config = Config(devices: seq<Device>, topics: map<string, string>, capacity: nat)

  /** The histories list what entered and left the queue and the buffer, and what became of it. */
  datatype State = State(up: bool, agent: Agent, queue: seq<Reading>, publisher: Publisher, buffer: seq<Reading>,
                         drains: seq<Drain>, accepted: seq<Reading>, taken: seq<Reading>, stored: seq<Reading>,
                         drained: seq<Reading>, published: seq<Message>, errors: seq<Reading>, discarded: seq<Reading>)

  datatype Event =
    | Receive(r: Reading)
    | Offer
    | Connect
    | Disconnect
    | Take
    | Check
    | Send
    | Store
    | DrainTake(k: nat)
    | DrainHandle(k: nat)
    | DrainLook(k: nat)

  const NOTHING := Reading("", "", false)

  const INIT := State(false, Agent(NOTHING, 0), [], Idle, [], [], [], [], [], [], [], [], [])

  predicate Enabled(s: State, e: Event) {
    match e
    case Receive(_) => s.agent.left == 0
    case Offer => s.agent.left > 0
    case Connect => !s.up
    case Disconnect => s.up
    case Take => s.publisher == Idle && s.queue != []
    case Check => s.publisher.Checking?
    case Send => s.publisher.Sending?
    case Store => s.publisher.Storing?
    case DrainTake(k) => k < |s.drains| && s.drains[k] == Receiving && s.buffer != []
    case DrainHandle(k) => k < |s.drains| && s.drains[k].Handling?
    case DrainLook(k) => k < |s.drains| && s.drains[k] == Looking
  }

  /** A resource without a topic would be published on the empty one. */
  function TopicOf(c: Config, rid: string): string {
    if rid in c.topics then c.topics[rid] else ""
  }

  function Publish(c: Config, s: State, r: Reading): State {
    s.(published := s.published + [Message(TopicOf(c, r.rid), r, s.up)])
  }

  function Drop(s: State, r: Reading): State { s.(discarded := s.discarded + [r]) }

  function Apply(c: Config, s: State, e: Event): State
    requires Enabled(s, e)
  {
    match e
    case Receive(r) => s.(agent := Agent(r, Copies(c.devices, r.rid)))
    case Offer =>
      var t := s.(agent := s.agent.(left := s.agent.left - 1));
      if |s.queue| == QUEUE_SIZE then t
      else t.(queue := s.queue + [s.agent.reading], accepted := s.accepted + [s.agent.reading])
    case Connect => s.(up := true, drains := s.drains + [Receiving])
    case Disconnect => s.(up := false)
    case Take => s.(queue := s.queue[1..], taken := s.taken + [s.queue[0]], publisher := Checking(s.queue[0]))
    case Check =>
      var r := s.publisher.r;
      if s.up then
        if r.isError then s.(publisher := Idle, errors := s.errors + [r]) else s.(publisher := Sending(r))
      else if c.capacity == 0 then Drop(s.(publisher := Idle), r)
      else s.(publisher := Storing(r))
    case Send => Publish(c, s, s.publisher.r).(publisher := Idle)
    case Store =>
      var r := s.publisher.r;
      if |s.buffer| < c.capacity
      then s.(publisher := Idle, buffer := s.buffer + [r], stored := s.stored + [r])
      else Drop(s.(publisher := Idle), r)
    case DrainTake(k) =>
      s.(buffer := s.buffer[1..], drained := s.drained + [s.buffer[0]], drains := s.drains[k := Handling(s.buffer[0])])
    case DrainHandle(k) =>
      var r := s.drains[k].r;
      if r.isError then s.(errors := s.errors + [r], drains := s.drains[k := Receiving])
      else Publish(c, s, r).(drains := s.drains[k := Looking])
    case DrainLook(k) => s.(drains := s.drains[k := if s.buffer == [] then Over else Receiving])
  }

  /** The state after the events, if they can happen in this order. */
  function Exec(c: Config, s: State, events: seq<Event>): Option<State> {
    if events == [] then Some(s)
    else
      var before := Exec(c, s, events[..|events| - 1]);
      if before.Some? && Enabled(before.value, events[|events| - 1])
      then Some(Apply(c, before.value, events[|events| - 1])) else None
  }

  // ---- Where every accepted reading is ----

  function Occurs(r: Reading, rs: seq<Reading>): nat { multiset(rs)[r] }

  function WithPublisher(r: Reading, p: Publisher): nat { if !p.Idle? && p.r == r then 1 else 0 }

  function WithDrain(r: Reading, d: Drain): nat { if d == Handling(r) then 1 else 0 }

  function WithDrains(r: Reading, ds: seq<Drain>): nat {
    if ds == [] then 0 else WithDrains(r, ds[..|ds| - 1]) + WithDrain(r, ds[|ds| - 1])
  }

  function Published(r: Reading, ms: seq<Message>): nat {
    if ms == [] then 0 else Published(r, ms[..|ms| - 1]) + (if ms[|ms| - 1].reading == r then 1 else 0)
  }

  /** How often a reading is queued, in flight, or buffered. */
  function Moving(r: Reading, s: State): nat {
    Occurs(r, s.queue) + WithPublisher(r, s.publisher) + Occurs(r, s.buffer) + WithDrains(r, s.drains)
  }

  /** How often it was published, dropped as an error, or discarded. */
  function Settled(r: Reading, s: State): nat {
    Published(r, s.published) + Occurs(r, s.errors) + Occurs(r, s.discarded)
  }

  lemma {:induction false} WithDrainsUpdate(r: Reading, ds: seq<Drain>, k: nat, d: Drain)
    requires k < |ds|
    ensures WithDrains(r, ds[k := d]) + WithDrain(r, ds[k]) == WithDrains(r, ds) + WithDrain(r, d)
  {
    var n, changed := |ds| - 1, ds[k := d];
    assert WithDrains(r, changed) == WithDrains(r, changed[..n]) + WithDrain(r, changed[n]);
    if k < n {
      WithDrainsUpdate(r, ds[..n], k, d);
      assert changed[..n] == ds[..n][k := d];
    } else {
      assert changed[..n] == ds[..n];
    }
  }

  lemma FirstLeaves(r: Reading, rs: seq<Reading>)
    requires rs != []
    ensures Occurs(r, rs) == Occurs(r, rs[1..]) + (if rs[0] == r then 1 else 0)
  {
    assert rs == [rs[0]] + rs[1..];
  }

  lemma LastEnters(r: Reading, rs: seq<Reading>, x: Reading)
    ensures Occurs(r, rs + [x]) == Occurs(r, rs) + (if x == r then 1 else 0)
  {
  }

  lemma PublishedNext(r: Reading, ms: seq<Message>, m: Message)
    ensures Published(r, ms + [m]) == Published(r, ms) + (if m.reading == r then 1 else 0)
  {
    assert (ms + [m])[..|ms|] == ms;
  }

  function Accepts(r: Reading, s: State, e: Event): nat {
    if e == Offer && |s.queue| != QUEUE_SIZE && s.agent.reading == r then 1 else 0
  }

  /** A step loses no reading and makes none up, except that an offer brings one in if the queue is not full. */
  ghost predicate Kept(c: Config, s: State, e: Event, r: Reading)
    requires Enabled(s, e)
  {
    var t := Apply(c, s, e);
    && Moving(r, t) + Settled(r, t) == Moving(r, s) + Settled(r, s) + Accepts(r, s, e)
    && Occurs(r, t.accepted) == Occurs(r, s.accepted) + Accepts(r, s, e)
  }

  lemma SendStep(c: Config, s: State, e: Event, r: Reading)
    requires Enabled(s, e) && (e == Take || e == Send)
    ensures Kept(c, s, e, r)
  {
    if e == Take {
      FirstLeaves(r, s.queue);
    } else {
      PublishedNext(r, s.published, Message(TopicOf(c, s.publisher.r.rid), s.publisher.r, s.up));
    }
  }

  lemma CheckUp(c: Config, s: State, r: Reading)
    requires Enabled(s, Check) && s.up
    ensures Kept(c, s, Check, r)
  {
    LastEnters(r, s.errors, s.publisher.r);
  }

  lemma CheckDown(c: Config, s: State, r: Reading)
    requires Enabled(s, Check) && !s.up
    ensures Kept(c, s, Check, r)
  {
    LastEnters(r, s.discarded, s.publisher.r);
  }

  lemma StoreStep(c: Config, s: State, r: Reading)
    requires Enabled(s, Store)
    ensures Kept(c, s, Store, r)
  {
    if |s.buffer| < c.capacity {
      LastEnters(r, s.buffer, s.publisher.r);
    } else {
      LastEnters(r, s.discarded, s.publisher.r);
    }
  }

  lemma OfferStep(c: Config, s: State, r: Reading)
    requires Enabled(s, Offer)
    ensures Kept(c, s, Offer, r)
  {
    if |s.queue| != QUEUE_SIZE {
      LastEnters(r, s.queue, s.agent.reading);
      LastEnters(r, s.accepted, s.agent.reading);
    }
  }

  lemma ConnectionStep(c: Config, s: State, e: Event, r: Reading)
    requires Enabled(s, e) && (e.Receive? || e.Connect? || e.Disconnect?)
    ensures Kept(c, s, e, r)
  {
    if e == Connect { assert (s.drains + [Receiving])[..|s.drains|] == s.drains; }
  }

  lemma DrainTakeStep(c: Config, s: State, k: nat, r: Reading)
    requires Enabled(s, DrainTake(k))
    ensures Kept(c, s, DrainTake(k), r)
  {
    WithDrainsUpdate(r, s.drains, k, Handling(s.buffer[0]));
    FirstLeaves(r, s.buffer);
  }

  lemma DrainHandleStep(c: Config, s: State, k: nat, r: Reading)
    requires Enabled(s, DrainHandle(k))
    ensures Kept(c, s, DrainHandle(k), r)
  {
    var x := s.drains[k].r;
    if x.isError {
      WithDrainsUpdate(r, s.drains, k, Receiving);
      LastEnters(r, s.errors, x);
    } else {
      WithDrainsUpdate(r, s.drains, k, Looking);
      PublishedNext(r, s.published, Message(TopicOf(c, x.rid), x, s.up));
    }
  }

  lemma DrainLookStep(c: Config, s: State, k: nat, r: Reading)
    requires Enabled(s, DrainLook(k))
    ensures Kept(c, s, DrainLook(k), r)
  {
    WithDrainsUpdate(r, s.drains, k, if s.buffer == [] then Over else Receiving);
  }

  lemma PlacesStep(c: Config, s: State, e: Event, r: Reading)
    requires Enabled(s, e)
    ensures Kept(c, s, e, r)
  {
    match e
    case Offer => OfferStep(c, s, r);
    case Take => SendStep(c, s, e, r);
    case Check => if s.up { CheckUp(c, s, r); } else { CheckDown(c, s, r); }
    case Send => SendStep(c, s, e, r);
    case Store => StoreStep(c, s, r);
    case DrainTake(k) => DrainTakeStep(c, s, k, r);
    case DrainHandle(k) => DrainHandleStep(c, s, k, r);
    case DrainLook(k) => DrainLookStep(c, s, k, r);
    case _ => ConnectionStep(c, s, e, r);
  }

  // ---- The invariant ----

  /** Both channels keep to their capacity and are first in, first out. */
  ghost predicate ChannelsOk(c: Config, s: State) {
    && |s.queue| <= QUEUE_SIZE && |s.buffer| <= c.capacity
    && s.accepted == s.taken + s.queue && s.stored == s.drained + s.buffer
  }

  /** Every accepted reading is in exactly one place. */
  ghost predicate Conserved(s: State) {
    forall r :: Moving(r, s) + Settled(r, s) == Occurs(r, s.accepted)
  }

  /** Only readings for publishing are on their way, and no error is ever sent. */
  ghost predicate Eligible(c: Config, s: State) {
    && (s.agent.left > 0 ==> Copies(c.devices, s.agent.reading.rid) > 0)
    && (forall r | r in s.accepted :: Copies(c.devices, r.rid) > 0)
    && (s.publisher.Sending? ==> !s.publisher.r.isError)
    && (forall r | r in s.errors :: r.isError)
  }

  ghost predicate MessagesOk(c: Config, s: State) {
    forall m | m in s.published :: m.topic == TopicOf(c, m.reading.rid) && !m.reading.isError
  }

  ghost predicate Inv(c: Config, s: State) {
    ChannelsOk(c, s) && Conserved(s) && Eligible(c, s) && MessagesOk(c, s)
  }

  lemma ChannelsStep(c: Config, s: State, e: Event)
    requires ChannelsOk(c, s) && Enabled(s, e)
    ensures ChannelsOk(c, Apply(c, s, e))
  {
    match e
    case Take => FirstMoves(s.accepted, s.taken, s.queue);
    case DrainTake(k) => FirstMoves(s.stored, s.drained, s.buffer);
    case _ =>
  }

  lemma FirstMoves(all: seq<Reading>, out: seq<Reading>, left: seq<Reading>)
    requires all == out + left && left != []
    ensures all == out + [left[0]] + left[1..]
  {
  }

  lemma EligibleStep(c: Config, s: State, e: Event)
    requires Eligible(c, s) && MessagesOk(c, s) && Enabled(s, e)
    ensures Eligible(c, Apply(c, s, e)) && MessagesOk(c, Apply(c, s, e))
  {
  }

  lemma InvStep(c: Config, s: State, e: Event)
    requires Inv(c, s) && Enabled(s, e)
    ensures Inv(c, Apply(c, s, e))
  {
    ChannelsStep(c, s, e);
    EligibleStep(c, s, e);
    forall r ensures Moving(r, Apply(c, s, e)) + Settled(r, Apply(c, s, e)) == Occurs(r, Apply(c, s, e).accepted) {
      PlacesStep(c, s, e, r);
    }
  }

  lemma {:induction false} InvRun(c: Config, events: seq<Event>)
    requires Exec(c, INIT, events).Some?
    ensures Inv(c, Exec(c, INIT, events).value)
  {
    if events == [] {
    } else {
      var front, e := events[..|events| - 1], events[|events| - 1];
      InvRun(c, front);
      InvStep(c, Exec(c, INIT, front).value, e);
    }
  }

  lemma {:induction false} InPublished(ms: seq<Message>, m: Message)
    requires m in ms
    ensures Published(m.reading, ms) > 0
  {
    var front := ms[..|ms| - 1];
    assert ms == front + [ms[|ms| - 1]];
    if m in front { InPublished(front, m); }
  }

  /** In every run, every message is an accepted reading without an error, for a resource with a topic configured, and
      it is published on that topic. */
  lemma PublishedOnItsTopic(c: Config, prefix: string, events: seq<Event>, m: Message)
    requires Exec(c, INIT, events).Some? && c.topics == PubTopics(Uses(prefix, c.devices))
    requires m in Exec(c, INIT, events).value.published
    ensures m.reading.rid in c.topics && m.topic == c.topics[m.reading.rid] && !m.reading.isError
    ensures m.reading in Exec(c, INIT, events).value.accepted
  {
    InvRun(c, events);
    var s := Exec(c, INIT, events).value;
    InPublished(s.published, m);
    assert Settled(m.reading, s) > 0;
    assert Occurs(m.reading, s.accepted) > 0;
    OfferedHasTopic(prefix, c.devices, m.reading.rid);
  }

  /** In every run each accepted reading is, as often as it was accepted, in exactly one place: queued, in flight,
      buffered, published, dropped as an error, or discarded; and both channels keep order and capacity. */
  lemma Conservation(c: Config, events: seq<Event>, r: Reading)
    requires Exec(c, INIT, events).Some?
    ensures var s := Exec(c, INIT, events).value;
      Moving(r, s) + Settled(r, s) == Occurs(r, s.accepted) && ChannelsOk(c, s)
  {
    InvRun(c, events);
  }

  ghost predicate NothingStored(s: State) {
    && s.stored == [] && s.buffer == [] && !s.publisher.Storing?
    && forall k | 0 <= k < |s.drains| :: s.drains[k] == Receiving
  }

  lemma NothingStoredStep(c: Config, s: State, e: Event)
    requires NothingStored(s) && c.capacity == 0 && Enabled(s, e)
    ensures NothingStored(Apply(c, s, e))
  {
  }

  /** Without a buffer nothing is ever stored, and every drain once started waits for good. */
  lemma {:induction false} NoBuffer(c: Config, events: seq<Event>)
    requires Exec(c, INIT, events).Some? && c.capacity == 0
    ensures NothingStored(Exec(c, INIT, events).value)
  {
    if events == [] {
    } else {
      NoBuffer(c, events[..|events| - 1]);
      NothingStoredStep(c, Exec(c, INIT, events[..|events| - 1]).value, events[|events| - 1]);
    }
  }

  // ---- The loops without interference ----

  function Repeat(r: Reading, n: nat): (rs: seq<Reading>)
    ensures |rs| == n
  {
    seq(n, _ => r)
  }

  /** Offers a reading to the queue, once for each MQTT protocol of its resource, and skips what does not fit. */
  method Forward(c: Config, queue: seq<Reading>, r: Reading) returns (queue': seq<Reading>)
    requires |queue| <= QUEUE_SIZE
    ensures var n, room := Copies(c.devices, r.rid), QUEUE_SIZE - |queue|;
      queue' == queue + Repeat(r, if n <= room then n else room)
  {
    queue' := queue;
    var found := FindResource(c.devices, r.rid);
    if found.None? { return; }
    var ps := found.value.protocols;
    if found.value.agentType == "timer" || found.value.agentType == "service" {
      ghost var total, room := MqttCount(ps), QUEUE_SIZE - |queue|;
      ghost var n := 0;
      for i := 0 to |ps|
        invariant n + MqttCount(ps[i..]) == total
        invariant queue' == queue + Repeat(r, if n <= room then n else room)
      {
        assert ps[i..][0] == ps[i] && ps[i..][1..] == ps[i + 1..];
        if ps[i].typ == MQTT {
          n := n + 1;
          if |queue'| < QUEUE_SIZE { queue' := queue' + [r]; }
        }
      }
    }
  }

  function Sound(rs: seq<Reading>): seq<Reading> {
    if rs == [] then [] else Sound(rs[..|rs| - 1]) + (if rs[|rs| - 1].isError then [] else [rs[|rs| - 1]])
  }

  function Faulty(rs: seq<Reading>): seq<Reading> {
    if rs == [] then [] else Faulty(rs[..|rs| - 1]) + (if rs[|rs| - 1].isError then [rs[|rs| - 1]] else [])
  }

  /** The drain of a new connection, while nothing else touches the buffer: it publishes the buffered readings in the
      order they were stored, and comes to an end exactly if there are any and the last of them is not an error;
      otherwise it stays, waiting for more. */
  method DrainBuffer(c: Config, buffer: seq<Reading>) returns (sent: seq<Reading>, errors: seq<Reading>, ended: bool)
    ensures sent == Sound(buffer) && errors == Faulty(buffer)
    ensures ended <==> buffer != [] && !buffer[|buffer| - 1].isError
  {
    sent, errors, ended := [], [], false;
    var rest := buffer;
    ghost var n := 0;
    while rest != []
      invariant n <= |buffer| && rest == buffer[n..]
      invariant sent == Sound(buffer[..n]) && errors == Faulty(buffer[..n])
      invariant n == |buffer| > 0 ==> buffer[n - 1].isError
    {
      var r := rest[0];
      rest := rest[1..];
      assert buffer[..n + 1][..n] == buffer[..n];
      n := n + 1;
      if r.isError {
        errors := errors + [r];
        continue;
      }
      sent := sent + [r];
      if rest == [] {
        assert buffer[..n] == buffer;
        ended := true;
        break;
      }
    }
    assert buffer[..|buffer|] == buffer;
  }
}
