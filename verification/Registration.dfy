/** A registrar against the catalog: the upsert, and what keeping a registration alive achieves. */
module Registration {
  import opened Prelude
  import opened Devices
  import opened ResourceCatalog
  import opened ResourceProofs
  import opened ResourceRuns
  import Expiry
  import KeepAlive

  function ReplyOf(outcome: Outcome): KeepAlive.Reply {
    if outcome.Done? then KeepAlive.Accepted
    else if outcome.error == NotFound then KeepAlive.Missing
    else KeepAlive.Refused
  }

  /** An update, and an add if that finds nothing, with no other client in between. */
  function Upsert(env: Env, rule: Expiry.TieRule, s: State, d: Device, now: int): (State, KeepAlive.Exchange) {
    var (s1, updated) := UpdateSpec(env, rule, s, d.id, d, now);
    if updated != Failed(NotFound) then (s1, KeepAlive.Exchange(ReplyOf(updated), KeepAlive.Refused))
    else
      var (s2, added) := AddSpec(env, s1, d, now);
      (s2, KeepAlive.Exchange(KeepAlive.Missing, ReplyOf(added)))
  }

  /** The upsert of a valid device succeeds exactly if it does not ask for a resource id of another device and, for a
      device to be named by the catalog, the generated name is free: the add after a missed update can never conflict
      otherwise. */
  lemma UpsertSucceedsIff(env: Env, rule: Expiry.TieRule, s: State, d: Device, now: int)
    requires RidExact(s.store, s.rid) && StoreOk(s.store) && ValidDevice(env.parses, d)
    ensures var (s', x) := Upsert(env, rule, s, d, now);
      var id := if d.id in s.store then d.id else IdFor(env, s, d);
      && (!KeepAlive.Fails(x) <==> !AsksForTaken(s, d.resources, d.id) && (d.id in s.store || id !in s.store))
      && (!KeepAlive.Fails(x) ==> id in s'.store && s'.store[id].expires == Expiry.ExpiresAt(d.ttl, now))
      && (KeepAlive.Fails(x) ==> s' == s.(counter := s'.counter))
  {
    UpdateOutcome(env, rule, s, d.id, d, now);
    if !AsksForTaken(s, d.resources, d.id) && d.id !in s.store {
      AddOutcome(env, s, d, now);
      assert forall x | x in s.rid :: s.rid[x] in Owns(s.store);
    }
  }

  /** Without a name for its device, a registrar that succeeds adds it. */
  lemma BlankUpsertAdds(env: Env, rule: Expiry.TieRule, s: State, d: Device, now: int)
    requires d.id == "" && "" !in s.store && !KeepAlive.Fails(Upsert(env, rule, s, d, now).1)
    ensures AddSpec(env, s, d, now).1.Done? && Upsert(env, rule, s, d, now).0 == AddSpec(env, s, d, now).0
  {
    UpdateOutcome(env, rule, s, d.id, d, now);
  }

  /** And then it never renews anything, because it does not keep the generated name: its next upsert fails if the
      device names a resource, and otherwise adds one more device beside the first. */
  lemma BlankIdNeverRenews(env: Env, rule: Expiry.TieRule, s: State, d: Device, now: int, s1: State, id: string,
                           later: int)
    requires d.id == "" && "" !in s.store && AddSpec(env, s, d, now) == (s1, Done(id))
    ensures id !in s.store && id in s1.store && |s1.store| == |s.store| + 1
    ensures UserIds(d.resources) != {} ==> KeepAlive.Fails(Upsert(env, rule, s1, d, later).1)
    ensures !KeepAlive.Fails(Upsert(env, rule, s1, d, later).1) ==>
      var s2 := Upsert(env, rule, s1, d, later).0;
      |s2.store| == |s1.store| + 1 && id in s2.store && s2.store[id] == s1.store[id]
  {
    BlankAdds(env, s, d, now);
    UpdateOutcome(env, rule, s1, d.id, d, later);
    if x :| x in UserIds(d.resources) {
      AddedOwns(env, s, d, now, x);
      assert AsksForTaken(s1, d.resources, d.id);
    }
    if !KeepAlive.Fails(Upsert(env, rule, s1, d, later).1) {
      BlankUpsertAdds(env, rule, s1, d, later);
      BlankAdds(env, s1, d, later);
    }
  }

  lemma BlankAdds(env: Env, s: State, d: Device, now: int)
    requires d.id == "" && AddSpec(env, s, d, now).1.Done?
    ensures var (s', outcome) := AddSpec(env, s, d, now);
      && outcome.id !in s.store && outcome.id != ""
      && s'.store == s.store[outcome.id := s'.store[outcome.id]] && |s'.store| == |s.store| + 1
  {
    var (s', outcome) := AddSpec(env, s, d, now);
    assert s'.store.Keys == s.store.Keys + {outcome.id};
  }

  /** A resource named in an accepted add is indexed for the new device. */
  lemma AddedOwns(env: Env, s: State, d: Device, now: int, x: string)
    requires x in UserIds(d.resources) && AddSpec(env, s, d, now).1.Done?
    ensures var (s', outcome) := AddSpec(env, s, d, now); x in s'.rid && s'.rid[x] == outcome.id
  {
    var (id, c) := DeviceId(env, s, d);
    AddOutcome(env, s, d, now);
    OwnsWhatItAsksFor(env, d.resources, c, DeviceUrl(env, id));
  }

  // ---- The lease, without assuming that renewals succeed ----

  /** `d` is registered, owns the resources it asks for by name, and its lease reaches past the next renewal. */
  ghost predicate Held(env: Env, s: State, d: Device, due: int) {
    && Good(s) && Exact(env, s) && ValidDevice(env.parses, d) && d.ttl > 0
    && NoFuture(env, s.counter, UserIds(d.resources))
    && d.id in s.store && UserIds(d.resources) <= Ids(s.store[d.id].resources)
    && s.store[d.id].expires.Some? && s.store[d.id].expires.value >= due + Expiry.Half(d.ttl)
  }

  /** What the clients do, whether or not it succeeds: the registrar of `d` sends each update less than half a life
      after it falls due; others leave `d` alone and do not ask for ids still to be generated. */
  ghost predicate OnSchedule(env: Env, s: State, op: Op, at: int, d: Device, due: int) {
    && at < due + Expiry.Half(d.ttl) && InputOk(env, s, op)
    && match op
       case Add(_, _) => true
       case Update(id, v, now) => id == d.id ==> v == d && now == at && due <= at
       case Delete(id) => id != d.id
       case Sweep(t) => t <= at
  }

  predicate IsRenewal(op: Op, d: Device) { op.Update? && op.id == d.id }

  lemma OwnsWhatItAsksFor(env: Env, rs: seq<Resource>, c: nat, url: string)
    ensures UserIds(rs) <= Ids(SortById(Fill(env, rs, c, url)))
  {
    FilledIds(env, rs, c, url);
    forall x | x in UserIds(rs) ensures x in Ids(SortById(Fill(env, rs, c, url))) {
      var r :| r in rs && r.id != "" && r.id == x;
      var i :| 0 <= i < |rs| && rs[i] == r;
      assert FilledId(env, rs, i, c) == x;
    }
  }

  lemma RenewalHolds(env: Env, rule: Expiry.TieRule, s: State, op: Op, at: int, d: Device, due: int)
    requires Held(env, s, d, due) && OnSchedule(env, s, op, at, d, due) && IsRenewal(op, d)
    ensures var (s', outcome) := Step(env, rule, s, op);
      outcome == Done(d.id) && Held(env, s', d, due + Expiry.Half(d.ttl))
  {
    OwnIdsNeverConflict(env, rule, s, d.id, d, at);
    UpdateOutcome(env, rule, s, d.id, d, at);
    var s' := Step(env, rule, s, op).0;
    GoodStep(env, rule, s, op);
    StepKeepsExact(env, rule, s, op);
    OwnsWhatItAsksFor(env, d.resources, s.counter, s.store[d.id].url);
    Expiry.RenewalExpires(d.ttl, at);
    FutureShrinks(env, s.counter, s'.counter, UserIds(d.resources));
  }

  lemma OthersLeaveIt(env: Env, rule: Expiry.TieRule, s: State, op: Op, at: int, d: Device, due: int)
    requires Held(env, s, d, due) && OnSchedule(env, s, op, at, d, due) && !IsRenewal(op, d)
    ensures Held(env, Step(env, rule, s, op).0, d, due)
  {
    var s' := Step(env, rule, s, op).0;
    GoodStep(env, rule, s, op);
    StepKeepsExact(env, rule, s, op);
    OthersKeep(env, rule, s, op, d.id);
    if op.Sweep? {
      SweptRefines(rule, s, op.t);
      Expiry.SweepRemoves(rule, Abstract(s), op.t, d.id);
      assert d.id in Abstract(s').live;
    }
    FutureShrinks(env, s.counter, s'.counter, UserIds(d.resources));
  }

  lemma OthersKeep(env: Env, rule: Expiry.TieRule, s: State, op: Op, id: string)
    requires StoreOk(s.store) && id in s.store && !(op.Update? && op.id == id) && op != Delete(id)
    ensures var s' := Step(env, rule, s, op).0;
      (id in s'.store || op.Sweep?) && (id in s'.store ==> s'.store[id] == s.store[id]) && s.counter <= s'.counter
  {
  }

  /** Every step on schedule keeps the registration, and every renewal on schedule is accepted. */
  lemma HeldStep(env: Env, rule: Expiry.TieRule, s: State, op: Op, at: int, d: Device, due: int)
    requires Held(env, s, d, due) && OnSchedule(env, s, op, at, d, due)
    ensures var (s', outcome) := Step(env, rule, s, op);
      if IsRenewal(op, d) then outcome == Done(d.id) && Held(env, s', d, due + Expiry.Half(d.ttl))
      else Held(env, s', d, due)
  {
    if IsRenewal(op, d) {
      RenewalHolds(env, rule, s, op, at, d, due);
    } else {
      OthersLeaveIt(env, rule, s, op, at, d, due);
    }
  }

  ghost predicate AllOnSchedule(env: Env, rule: Expiry.TieRule, s: State, trace: seq<Timed>, d: Device, due: int)
    decreases |trace|
  {
    trace == [] ||
    (OnSchedule(env, s, trace[0].op, trace[0].at, d, due) &&
     AllOnSchedule(env, rule, Step(env, rule, s, trace[0].op).0, trace[1..], d,
                   if IsRenewal(trace[0].op, d) then due + Expiry.Half(d.ttl) else due))
  }

  /** A device whose registrar sends its updates on time is registered after every step of every run of the catalog, and
      no update of it is ever refused, whatever other clients do with other devices, ties and sweeps included. */
  lemma {:induction false} KeptAlive(env: Env, rule: Expiry.TieRule, s: State, trace: seq<Timed>, d: Device, due: int,
                                     n: nat)
    requires Held(env, s, d, due) && AllOnSchedule(env, rule, s, trace, d, due) && n <= |trace|
    ensures d.id in Exec(env, rule, s, trace[..n]).store
    ensures n < |trace| && IsRenewal(trace[n].op, d) ==>
      Step(env, rule, Exec(env, rule, s, trace[..n]), trace[n].op).1 == Done(d.id)
    decreases n
  {
    if trace == [] {
    } else {
      var op, rest := trace[0].op, trace[1..];
      HeldStep(env, rule, s, op, trace[0].at, d, due);
      if n > 0 {
        var due' := if IsRenewal(op, d) then due + Expiry.Half(d.ttl) else due;
        assert trace[..n][0] == trace[0] && trace[..n][1..] == rest[..n - 1];
        KeptAlive(env, rule, Step(env, rule, s, op).0, rest, d, due', n - 1);
      }
    }
  }

  /** An update sent in answer to tick `k`, before the next tick. */
  ghost predicate Answers(step: Timed, d: Device, due: int, k: nat) {
    step.op == Update(d.id, d, step.at) && Expiry.AtTicks(step.at, due, Expiry.Half(d.ttl), k)
  }

  /** It answers every tick before the next. */
  ghost predicate AllAnswers(trace: seq<Timed>, d: Device, due: int) {
    forall k | 0 <= k < |trace| :: Answers(trace[k], d, due, k)
  }

  /** A registrar that answers every tick before the next, with nobody else about, keeps to its schedule. */
  lemma {:induction false} TicksAreOnSchedule(env: Env, rule: Expiry.TieRule, s: State, trace: seq<Timed>, d: Device,
                                              due: int)
    requires NoFuture(env, s.counter, UserIds(d.resources)) && AllAnswers(trace, d, due)
    ensures AllOnSchedule(env, rule, s, trace, d, due)
    decreases |trace|
  {
    if trace == [] {
    } else {
      AnswersShift(trace, d, due);
      assert Expiry.AtTicks(trace[0].at, due, Expiry.Half(d.ttl), 0);
      var s' := Step(env, rule, s, trace[0].op).0;
      CounterGrows(env, rule, s, trace[0].op);
      FutureShrinks(env, s.counter, s'.counter, UserIds(d.resources));
      TicksAreOnSchedule(env, rule, s', trace[1..], d, due + Expiry.Half(d.ttl));
    }
  }

  lemma CounterGrows(env: Env, rule: Expiry.TieRule, s: State, op: Op)
    ensures s.counter <= Step(env, rule, s, op).0.counter
  {
  }

  lemma AnswersShift(trace: seq<Timed>, d: Device, due: int)
    requires trace != [] && AllAnswers(trace, d, due)
    ensures Answers(trace[0], d, due, 0) && AllAnswers(trace[1..], d, due + Expiry.Half(d.ttl))
  {
    forall k | 0 <= k < |trace| - 1 ensures Answers(trace[1..][k], d, due + Expiry.Half(d.ttl), k) {
      assert Answers(trace[k + 1], d, due, k + 1);
      Expiry.NextTick(trace[k + 1].at, due, Expiry.Half(d.ttl), k);
    }
  }

  /** The registrar of `d` made its first registration, which was accepted. */
  ghost predicate Registers(env: Env, rule: Expiry.TieRule, s: State, op: Op, after: State, d: Device, start: int) {
    && (op == Add(d, start) || op == Update(d.id, d, start))
    && Step(env, rule, s, op) == (after, Done(d.id))
  }

  /** The first registration, be it an add or an update, establishes the lease; the next renewal is due one period after
      the ticker was created, which is before the registration. */
  lemma FirstRegistration(env: Env, rule: Expiry.TieRule, s: State, op: Op, after: State, d: Device, ticker: int,
                          start: int)
    requires Good(s) && Exact(env, s) && InputOk(env, s, op) && d.ttl > 0 && ticker <= start
    requires d.id != "" && Registers(env, rule, s, op, after, d, start)
    ensures Held(env, after, d, ticker + Expiry.Half(d.ttl))
  {
    GoodStep(env, rule, s, op);
    StepKeepsExact(env, rule, s, op);
    Expiry.RenewalExpires(d.ttl, start);
    if op.Add? {
      AddOutcome(env, s, d, start);
      OwnsWhatItAsksFor(env, d.resources, s.counter, DeviceUrl(env, d.id));
    } else {
      UpdateOutcome(env, rule, s, d.id, d, start);
      OwnsWhatItAsksFor(env, d.resources, s.counter, s.store[d.id].url);
    }
    FutureShrinks(env, s.counter, after.counter, UserIds(d.resources));
  }

  /** So a device whose registrar registers it once and then sends its updates on time stays registered. */
  lemma KeptFromStart(env: Env, rule: Expiry.TieRule, s: State, op: Op, after: State, d: Device, ticker: int,
                      start: int, trace: seq<Timed>, due: int, n: nat)
    requires Good(s) && Exact(env, s) && InputOk(env, s, op) && d.ttl > 0 && ticker <= start
    requires d.id != "" && Registers(env, rule, s, op, after, d, start)
    requires due == ticker + Expiry.Half(d.ttl) && n <= |trace| && AllOnSchedule(env, rule, after, trace, d, due)
    ensures d.id in Exec(env, rule, after, trace[..n]).store
  {
    FirstRegistration(env, rule, s, op, after, d, ticker, start);
    KeptAlive(env, rule, after, trace, d, due, n);
  }
}
