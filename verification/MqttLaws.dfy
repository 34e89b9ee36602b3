/** What becomes of the readings while there is a connection, before there is one, and when a buffer is drained. */
module MqttLaws {
  import opened Prelude
  import opened MqttTopics
  import opened MqttPipeline
  import opened MqttOffline

  // ---- Readings the publisher is done with ----

  /** The publisher has taken what it holds last. */
  ghost predicate InHandLast(s: State) {
    s.publisher == Idle || (s.taken != [] && s.taken[|s.taken| - 1] == s.publisher.r)
  }

  /** What the publisher has taken, without the reading in its hands. */
  function Done(s: State): seq<Reading> {
    if s.publisher == Idle || s.taken == [] then s.taken else s.taken[..|s.taken| - 1]
  }

  function Sent(ms: seq<Message>): (rs: seq<Reading>)
    ensures |rs| == |ms|
  {
    seq(|ms|, i requires 0 <= i < |ms| => ms[i].reading)
  }

  lemma SoundNext(rs: seq<Reading>, r: Reading)
    ensures Sound(rs + [r]) == if r.isError then Sound(rs) else Sound(rs) + [r]
    ensures Faulty(rs + [r]) == if r.isError then Faulty(rs) + [r] else Faulty(rs)
  {
    assert (rs + [r])[..|rs|] == rs;
  }

  lemma DoneNext(s: State)
    requires InHandLast(s) && s.publisher != Idle
    ensures s.taken == Done(s) + [s.publisher.r]
  {
  }

  // ---- While there is a connection ----

  /** A topic is the configured one. */
  predicate InMap(rid: string, topic: string, topics: map<string, string>) { rid in topics ==> topic == topics[rid] }

  /** Everything taken is published in order, but for the errors, which are dropped in order; nothing is stored or
      discarded. */
  ghost predicate Online(c: Config, s: State) {
    && s.up && InHandLast(s) && !s.publisher.Storing? && (s.publisher.Sending? ==> !s.publisher.r.isError)
    && s.buffer == [] && s.stored == [] && s.discarded == [] && s.drains == [Receiving]
    && s.errors == Faulty(Done(s)) && Sent(s.published) == Sound(Done(s))
    && forall i | 0 <= i < |s.published| ::
       s.published[i].up && InMap(s.published[i].reading.rid, s.published[i].topic, c.topics)
  }

  lemma OnlineTake(c: Config, s: State)
    requires Online(c, s) && Enabled(s, Take)
    ensures Online(c, Apply(c, s, Take))
  {
    var t := Apply(c, s, Take);
    assert t.taken[..|t.taken| - 1] == s.taken;
  }

  lemma OnlineCheck(c: Config, s: State)
    requires Online(c, s) && Enabled(s, Check)
    ensures Online(c, Apply(c, s, Check))
  {
    DoneNext(s);
    SoundNext(Done(s), s.publisher.r);
  }

  lemma OnlineSend(c: Config, s: State)
    requires Online(c, s) && Enabled(s, Send)
    ensures Online(c, Apply(c, s, Send))
  {
    var t := Apply(c, s, Send);
    DoneNext(s);
    SoundNext(Done(s), s.publisher.r);
    SentNext(s.published, Message(TopicOf(c, s.publisher.r.rid), s.publisher.r, true));
    assert Sent(t.published) == Sound(Done(t));
  }

  lemma SentNext(ms: seq<Message>, m: Message)
    ensures Sent(ms + [m]) == Sent(ms) + [m.reading]
  {
  }

  lemma OnlineStep(c: Config, s: State, e: Event)
    requires Online(c, s) && Enabled(s, e) && e != Disconnect
    ensures Online(c, Apply(c, s, e))
  {
    match e
    case Take => OnlineTake(c, s);
    case Check => OnlineCheck(c, s);
    case Send => OnlineSend(c, s);
    case _ =>
  }

  /** In every run that starts with a connection and does not lose it, every reading taken from the queue is published
      in order, on its topic, unless it is an error; nothing is ever stored or discarded. */
  lemma {:induction false} OnlineRun(c: Config, events: seq<Event>)
    requires Exec(c, INIT, [Connect] + events).Some? && Disconnect !in events
    ensures Online(c, Exec(c, INIT, [Connect] + events).value)
    decreases |events|
  {
    var all := [Connect] + events;
    if events == [] {
      assert all[..0] == [] && all == [Connect];
      assert INIT.drains + [Receiving] == [Receiving];
    } else {
      var front, e := events[..|events| - 1], events[|events| - 1];
      assert all[..|all| - 1] == [Connect] + front && all[|all| - 1] == e;
      OnlineRun(c, front);
      OnlineStep(c, Exec(c, INIT, [Connect] + front).value, e);
    }
  }

  // ---- While there never was a connection ----

  function Fits(c: Config, rs: seq<Reading>): nat { if |rs| < c.capacity then |rs| else c.capacity }

  /** The buffer takes the first readings until it is full, and the rest are discarded. */
  ghost predicate Offline(c: Config, s: State) {
    && !s.up && InHandLast(s) && !s.publisher.Sending? && (s.publisher.Storing? ==> c.capacity > 0)
    && s.drains == [] && s.published == [] && s.errors == []
    && s.stored == s.buffer == Done(s)[..Fits(c, Done(s))]
    && s.discarded == Done(s)[Fits(c, Done(s))..]
  }

  lemma OfflineTake(c: Config, s: State)
    requires Offline(c, s) && Enabled(s, Take)
    ensures Offline(c, Apply(c, s, Take))
  {
    var t := Apply(c, s, Take);
    assert t.taken[..|t.taken| - 1] == s.taken;
  }

  lemma FitsNext(c: Config, rs: seq<Reading>, r: Reading)
    ensures var more := rs + [r];
      if |rs| < c.capacity
      then more[..Fits(c, more)] == rs[..Fits(c, rs)] + [r] && more[Fits(c, more)..] == rs[Fits(c, rs)..]
      else more[..Fits(c, more)] == rs[..Fits(c, rs)] && more[Fits(c, more)..] == rs[Fits(c, rs)..] + [r]
  {
  }

  lemma OfflineCheck(c: Config, s: State, e: Event)
    requires Offline(c, s) && Enabled(s, e) && (e == Check || e == Store)
    ensures Offline(c, Apply(c, s, e))
  {
    DoneNext(s);
    FitsNext(c, Done(s), s.publisher.r);
  }

  lemma OfflineStep(c: Config, s: State, e: Event)
    requires Offline(c, s) && Enabled(s, e) && e != Connect
    ensures Offline(c, Apply(c, s, e))
  {
    match e
    case Take => OfflineTake(c, s);
    case Check => OfflineCheck(c, s, e);
    case Store => OfflineCheck(c, s, e);
    case _ =>
  }

  /** In every run without a connection nothing is published: the first readings taken are stored, errors among them,
      until the buffer is full, and the rest are discarded. */
  lemma {:induction false} OfflineRun(c: Config, events: seq<Event>)
    requires Exec(c, INIT, events).Some? && Connect !in events
    ensures Offline(c, Exec(c, INIT, events).value)
    decreases |events|
  {
    if events == [] {
    } else {
      OfflineRun(c, events[..|events| - 1]);
      OfflineStep(c, Exec(c, INIT, events[..|events| - 1]).value, events[|events| - 1]);
    }
  }

  // ---- Discarding ----

  /** A step discards exactly if it checks a reading without a connection and without a buffer, or fails to store one in
      a full buffer; and it discards that reading. */
  lemma DiscardsIff(c: Config, s: State, e: Event)
    requires Enabled(s, e)
    ensures Apply(c, s, e).discarded ==
      if (e == Check && !s.up && c.capacity == 0) || (e == Store && |s.buffer| >= c.capacity)
      then s.discarded + [s.publisher.r] else s.discarded
  {
  }

  /** And what is to be stored was checked without a connection. */
  lemma StoresIff(c: Config, s: State, e: Event)
    requires Enabled(s, e) && !s.publisher.Storing?
    ensures Apply(c, s, e).publisher.Storing? <==> e == Check && !s.up && c.capacity > 0
  {
  }

  // ---- Draining: the transitions and the loop ----

  /** The steps of drain `k` over `n` buffered readings: takes, handles, and looks after publishing. */
  function DrainEvents(k: nat, rs: seq<Reading>): seq<Event> {
    if rs == [] then []
    else
      var r := rs[|rs| - 1];
      DrainEvents(k, rs[..|rs| - 1]) +
      (if r.isError then [DrainTake(k), DrainHandle(k)] else [DrainTake(k), DrainHandle(k)] + [DrainLook(k)])
  }

  function MessagesOf(c: Config, rs: seq<Reading>): (ms: seq<Message>)
    ensures |ms| == |rs|
  {
    seq(|rs|, i requires 0 <= i < |rs| => Message(TopicOf(c, rs[i].rid), rs[i], true))
  }

  /** The state after the first `n` readings of the buffer. */
  function AfterDrain(c: Config, s: State, k: nat, n: nat): State
    requires k < |s.drains| && n <= |s.buffer|
  {
    var rs := s.buffer[..n];
    var ended := n > 0 && n == |s.buffer| && !rs[n - 1].isError;
    s.(buffer := s.buffer[n..], drained := s.drained + rs, drains := s.drains[k := if ended then Over else Receiving],
       published := s.published + MessagesOf(c, Sound(rs)), errors := s.errors + Faulty(rs))
  }

  lemma MessagesNext(c: Config, rs: seq<Reading>, r: Reading)
    ensures MessagesOf(c, rs + [r]) == MessagesOf(c, rs) + [Message(TopicOf(c, r.rid), r, true)]
  {
  }

  lemma ExecTwo(c: Config, s: State, events: seq<Event>, before: State, a: Event, b: Event)
    requires Exec(c, s, events) == Some(before) && Enabled(before, a) && Enabled(Apply(c, before, a), b)
    ensures Exec(c, s, events + [a, b]) == Some(Apply(c, Apply(c, before, a), b))
  {
    ExecOne(c, s, events, a);
    ExecOne(c, s, events + [a], b);
    assert events + [a, b] == events + [a] + [b];
  }

  lemma ExecThree(c: Config, s: State, events: seq<Event>, before: State, a: Event, b: Event, e: Event)
    requires Exec(c, s, events) == Some(before) && Enabled(before, a) && Enabled(Apply(c, before, a), b)
    requires Enabled(Apply(c, Apply(c, before, a), b), e)
    ensures Exec(c, s, events + ([a, b] + [e])) == Some(Apply(c, Apply(c, Apply(c, before, a), b), e))
  {
    ExecTwo(c, s, events, before, a, b);
    ExecOne(c, s, events + [a, b], e);
    assert events + [a, b] + [e] == events + ([a, b] + [e]);
  }

  lemma Appended<T>(xs: seq<T>, ys: seq<T>, z: T)
    ensures xs + ys + [z] == xs + (ys + [z])
  {
  }

  /** In the middle of one reading: it is in the hands of the drain. */
  function DrainHolds(c: Config, s: State, k: nat, n: nat): State
    requires k < |s.drains| && n < |s.buffer|
  {
    var before := AfterDrain(c, s, k, n);
    before.(buffer := s.buffer[n + 1..], drained := before.drained + [s.buffer[n]],
            drains := s.drains[k := Handling(s.buffer[n])])
  }

  lemma DrainTakes(c: Config, s: State, k: nat, n: nat)
    requires k < |s.drains| && n < |s.buffer|
    ensures var before := AfterDrain(c, s, k, n);
      Enabled(before, DrainTake(k)) && Apply(c, before, DrainTake(k)) == DrainHolds(c, s, k, n)
  {
    var before, r := AfterDrain(c, s, k, n), s.buffer[n];
    assert s.buffer[n..][0] == r && s.buffer[n..][1..] == s.buffer[n + 1..];
    assert before.drains[k := Handling(r)] == s.drains[k := Handling(r)];
  }

  lemma AfterError(c: Config, s: State, k: nat, n: nat)
    requires k < |s.drains| && n < |s.buffer| && s.buffer[n].isError
    ensures Apply(c, DrainHolds(c, s, k, n), DrainHandle(k)) == AfterDrain(c, s, k, n + 1)
  {
    var rs, r := s.buffer[..n], s.buffer[n];
    assert s.buffer[..n + 1] == rs + [r];
    SoundNext(rs, r);
    assert s.drains[k := Handling(r)][k := Receiving] == s.drains[k := Receiving];
    Appended(s.errors, Faulty(rs), r);
    Appended(s.drained, rs, r);
  }

  lemma AfterPublished(c: Config, s: State, k: nat, n: nat)
    requires k < |s.drains| && n < |s.buffer| && !s.buffer[n].isError && s.up
    ensures var t := Apply(c, DrainHolds(c, s, k, n), DrainHandle(k));
      Enabled(t, DrainLook(k)) && Apply(c, t, DrainLook(k)) == AfterDrain(c, s, k, n + 1)
  {
    var rs, r := s.buffer[..n], s.buffer[n];
    var t := Apply(c, DrainHolds(c, s, k, n), DrainHandle(k));
    var u := Apply(c, t, DrainLook(k));
    assert s.buffer[..n + 1] == rs + [r];
    SoundNext(rs, r);
    MessagesNext(c, Sound(rs), r);
    Appended(s.published, MessagesOf(c, Sound(rs)), Message(TopicOf(c, r.rid), r, true));
    Appended(s.drained, rs, r);
    assert u.drains == s.drains[k := if n + 1 == |s.buffer| then Over else Receiving];
  }

  lemma DrainOne(c: Config, s: State, events: seq<Event>, k: nat, n: nat)
    requires k < |s.drains| && n < |s.buffer| && s.up
    requires Exec(c, s, events) == Some(AfterDrain(c, s, k, n))
    ensures Exec(c, s, events + (if s.buffer[n].isError then [DrainTake(k), DrainHandle(k)]
                                 else [DrainTake(k), DrainHandle(k)] + [DrainLook(k)])) ==
      Some(AfterDrain(c, s, k, n + 1))
  {
    if s.buffer[n].isError { DrainError(c, s, events, k, n); } else { DrainSound(c, s, events, k, n); }
  }

  lemma DrainError(c: Config, s: State, events: seq<Event>, k: nat, n: nat)
    requires k < |s.drains| && n < |s.buffer| && s.up && s.buffer[n].isError
    requires Exec(c, s, events) == Some(AfterDrain(c, s, k, n))
    ensures Exec(c, s, events + [DrainTake(k), DrainHandle(k)]) == Some(AfterDrain(c, s, k, n + 1))
  {
    DrainTakes(c, s, k, n);
    AfterError(c, s, k, n);
    ExecTwo(c, s, events, AfterDrain(c, s, k, n), DrainTake(k), DrainHandle(k));
  }

  lemma DrainSound(c: Config, s: State, events: seq<Event>, k: nat, n: nat)
    requires k < |s.drains| && n < |s.buffer| && s.up && !s.buffer[n].isError
    requires Exec(c, s, events) == Some(AfterDrain(c, s, k, n))
    ensures Exec(c, s, events + ([DrainTake(k), DrainHandle(k)] + [DrainLook(k)])) == Some(AfterDrain(c, s, k, n + 1))
  {
    DrainTakes(c, s, k, n);
    AfterPublished(c, s, k, n);
    ExecThree(c, s, events, AfterDrain(c, s, k, n), DrainTake(k), DrainHandle(k), DrainLook(k));
  }

  /** While there is a connection and nothing else moves, a waiting drain does what the loop of `DrainBuffer` does: it
      publishes the sound readings of the buffer in order, drops the errors, and ends exactly if the last is sound. */
  lemma {:induction false} DrainAgrees(c: Config, s: State, k: nat, n: nat)
    requires k < |s.drains| && s.drains[k] == Receiving && n <= |s.buffer| && s.up
    ensures Exec(c, s, DrainEvents(k, s.buffer[..n])) == Some(AfterDrain(c, s, k, n))
  {
    if n == 0 {
      NothingDrained(c, s, k);
    } else {
      DrainAgrees(c, s, k, n - 1);
      DrainOne(c, s, DrainEvents(k, s.buffer[..n - 1]), k, n - 1);
      assert s.buffer[..n][..n - 1] == s.buffer[..n - 1];
    }
  }

  lemma NothingDrained(c: Config, s: State, k: nat)
    requires k < |s.drains| && s.drains[k] == Receiving
    ensures AfterDrain(c, s, k, 0) == s && s.buffer[..0] == []
  {
    assert s.buffer[0..] == s.buffer && s.drains[k := Receiving] == s.drains;
    assert s.drained + [] == s.drained && s.published + [] == s.published && s.errors + [] == s.errors;
  }

  // ---- Publishing the queue ----

  /** The steps of the publisher over readings in the queue. */
  function PublishEvents(rs: seq<Reading>): seq<Event> {
    if rs == [] then []
    else
      PublishEvents(rs[..|rs| - 1]) +
      (if rs[|rs| - 1].isError then [Take, Check] else [Take, Check] + [Send])
  }

  /** The state after the first `n` readings of the queue. */
  function AfterPublishing(c: Config, s: State, n: nat): State
    requires n <= |s.queue|
  {
    var rs := s.queue[..n];
    s.(queue := s.queue[n..], taken := s.taken + rs, publisher := Idle,
       published := s.published + MessagesOf(c, Sound(rs)), errors := s.errors + Faulty(rs))
  }

  /** In the middle of one reading: it is in the hands of the publisher. */
  function PublisherHolds(c: Config, s: State, n: nat): State
    requires n < |s.queue|
  {
    var before := AfterPublishing(c, s, n);
    before.(queue := s.queue[n + 1..], taken := before.taken + [s.queue[n]], publisher := Checking(s.queue[n]))
  }

  lemma PublisherTakes(c: Config, s: State, n: nat)
    requires n < |s.queue|
    ensures var before := AfterPublishing(c, s, n);
      Enabled(before, Take) && Apply(c, before, Take) == PublisherHolds(c, s, n)
  {
    assert s.queue[n..][0] == s.queue[n] && s.queue[n..][1..] == s.queue[n + 1..];
  }

  lemma PublisherDrops(c: Config, s: State, n: nat)
    requires n < |s.queue| && s.up && s.queue[n].isError
    ensures Apply(c, PublisherHolds(c, s, n), Check) == AfterPublishing(c, s, n + 1)
  {
    var rs, r := s.queue[..n], s.queue[n];
    assert s.queue[..n + 1] == rs + [r];
    SoundNext(rs, r);
    Appended(s.errors, Faulty(rs), r);
    Appended(s.taken, rs, r);
  }

  lemma PublisherSends(c: Config, s: State, n: nat)
    requires n < |s.queue| && s.up && !s.queue[n].isError
    ensures var t := Apply(c, PublisherHolds(c, s, n), Check);
      Enabled(t, Send) && Apply(c, t, Send) == AfterPublishing(c, s, n + 1)
  {
    var rs, r := s.queue[..n], s.queue[n];
    assert s.queue[..n + 1] == rs + [r];
    SoundNext(rs, r);
    MessagesNext(c, Sound(rs), r);
    Appended(s.published, MessagesOf(c, Sound(rs)), Message(TopicOf(c, r.rid), r, true));
    Appended(s.taken, rs, r);
  }

  lemma PublishOne(c: Config, s: State, events: seq<Event>, n: nat)
    requires n < |s.queue| && s.up && Exec(c, s, events) == Some(AfterPublishing(c, s, n))
    ensures Exec(c, s, events + (if s.queue[n].isError then [Take, Check] else [Take, Check] + [Send])) ==
      Some(AfterPublishing(c, s, n + 1))
  {
    if s.queue[n].isError { PublishError(c, s, events, n); } else { PublishSound(c, s, events, n); }
  }

  lemma PublishError(c: Config, s: State, events: seq<Event>, n: nat)
    requires n < |s.queue| && s.up && Exec(c, s, events) == Some(AfterPublishing(c, s, n)) && s.queue[n].isError
    ensures Exec(c, s, events + [Take, Check]) == Some(AfterPublishing(c, s, n + 1))
  {
    PublisherTakes(c, s, n);
    PublisherDrops(c, s, n);
    ExecTwo(c, s, events, AfterPublishing(c, s, n), Take, Check);
  }

  lemma PublishSound(c: Config, s: State, events: seq<Event>, n: nat)
    requires n < |s.queue| && s.up && Exec(c, s, events) == Some(AfterPublishing(c, s, n)) && !s.queue[n].isError
    ensures Exec(c, s, events + ([Take, Check] + [Send])) == Some(AfterPublishing(c, s, n + 1))
  {
    PublisherTakes(c, s, n);
    PublisherSends(c, s, n);
    ExecThree(c, s, events, AfterPublishing(c, s, n), Take, Check, Send);
  }

  /** While there is a connection and nothing else moves, an idle publisher gets the whole queue out: it publishes the
      sound readings in order and drops the errors. */
  lemma {:induction false} PublisherAgrees(c: Config, s: State, n: nat)
    requires s.publisher == Idle && s.up && n <= |s.queue|
    ensures Exec(c, s, PublishEvents(s.queue[..n])) == Some(AfterPublishing(c, s, n))
  {
    if n == 0 {
      NothingPublished(c, s);
    } else {
      PublisherAgrees(c, s, n - 1);
      PublishOne(c, s, PublishEvents(s.queue[..n - 1]), n - 1);
      assert s.queue[..n][..n - 1] == s.queue[..n - 1];
    }
  }

  lemma NothingPublished(c: Config, s: State)
    requires s.publisher == Idle
    ensures AfterPublishing(c, s, 0) == s && s.queue[..0] == []
  {
    assert s.queue[0..] == s.queue;
    assert s.taken + [] == s.taken && s.published + [] == s.published && s.errors + [] == s.errors;
  }

  // ---- Offering: the transitions and the loop ----

  function Offers(n: nat): seq<Event> { if n == 0 then [] else Offers(n - 1) + [Offer] }

  /** The state after `n` offers of a reading, of which those that fit in the queue are accepted. */
  function AfterOffers(s: State, r: Reading, left: nat, n: nat): State
    requires n <= left && |s.queue| <= QUEUE_SIZE
  {
    var room := QUEUE_SIZE - |s.queue|;
    var more := Repeat(r, if n <= room then n else room);
    s.(agent := Agent(r, left - n), queue := s.queue + more, accepted := s.accepted + more)
  }

  lemma RepeatNext(r: Reading, n: nat)
    ensures Repeat(r, n + 1) == Repeat(r, n) + [r]
  {
  }

  lemma OfferOne(c: Config, s: State, r: Reading, left: nat, n: nat)
    requires n < left && |s.queue| <= QUEUE_SIZE
    ensures var before := AfterOffers(s, r, left, n);
      Enabled(before, Offer) && Apply(c, before, Offer) == AfterOffers(s, r, left, n + 1)
  {
    RepeatNext(r, n);
    Appended(s.queue, Repeat(r, n), r);
    Appended(s.accepted, Repeat(r, n), r);
  }

  lemma {:induction false} OffersAre(c: Config, s: State, r: Reading, left: nat, n: nat)
    requires n <= left && |s.queue| <= QUEUE_SIZE && s.agent == Agent(r, left)
    ensures Exec(c, s, Offers(n)) == Some(AfterOffers(s, r, left, n))
  {
    if n == 0 {
      NothingOffered(s, r, left);
    } else {
      OffersAre(c, s, r, left, n - 1);
      OfferOne(c, s, r, left, n - 1);
      OfferNow(c, s, Offers(n - 1), AfterOffers(s, r, left, n - 1), AfterOffers(s, r, left, n));
    }
  }

  lemma OfferNow(c: Config, s: State, events: seq<Event>, before: State, after: State)
    requires Exec(c, s, events) == Some(before) && Enabled(before, Offer) && after == Apply(c, before, Offer)
    ensures Exec(c, s, events + [Offer]) == Some(after)
  {
    ExecOne(c, s, events, Offer);
  }

  lemma NothingOffered(s: State, r: Reading, left: nat)
    requires |s.queue| <= QUEUE_SIZE && s.agent == Agent(r, left)
    ensures AfterOffers(s, r, left, 0) == s
  {
    assert Repeat(r, 0) == [] && s.queue + [] == s.queue && s.accepted + [] == s.accepted;
  }

  /** While nothing else moves, a reading received is offered as the loop of `Forward` does it, and enters the queue as
      often as fits. */
  lemma OffersAgree(c: Config, s: State, r: Reading)
    requires s.agent.left == 0 && |s.queue| <= 100
    ensures var n, room := Copies(c.devices, r.rid), 100 - |s.queue|;
      var received := Apply(c, s, Receive(r));
      && Exec(c, received, Offers(n)).Some?
      && var end := Exec(c, received, Offers(n)).value;
      end.queue == s.queue + Repeat(r, if n <= room then n else room) && end.agent.left == 0
  {
    var n := Copies(c.devices, r.rid);
    OffersAre(c, Apply(c, s, Receive(r)), r, n, n);
  }
}
