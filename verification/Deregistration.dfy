/** A registrar's shutdown against the catalogs that serve its calls. */
module Deregistration {
  import opened Prelude
  import Devices
  import Expiry
  import KeepAlive
  import Registration
  import ResourceCatalog
  import Shutdown

  /** A catalog at some endpoint serves a call of the registrar, or an operation of another client. */
  datatype Served = Mine(call: Shutdown.Call, now: int) | Others(endpoint: string, op: ResourceCatalog.Op)

  function EndpointOf(x: Served): string { if x.Mine? then x.call.endpoint else x.endpoint }

  function OpOf(x: Served, d: Devices.Device): ResourceCatalog.Op {
    match x
    case Mine(Update(_), now) => ResourceCatalog.Update(d.id, d, now)
    case Mine(Add(_), now) => ResourceCatalog.Add(d, now)
    case Mine(Delete(_), _) => ResourceCatalog.Delete(d.id)
    case Others(_, op) => op
  }

  /** The catalog at `endpoint` after serving what of the history is addressed to it. */
  function Serve(env: ResourceCatalog.Env, rule: Expiry.TieRule, endpoint: string, s: ResourceCatalog.State,
                 history: seq<Served>, d: Devices.Device): ResourceCatalog.State
  {
    if history == [] then s
    else
      var before := Serve(env, rule, endpoint, s, history[..|history| - 1], d);
      var x := history[|history| - 1];
      if EndpointOf(x) == endpoint then ResourceCatalog.Step(env, rule, before, OpOf(x, d)).0 else before
  }

  /** The calls of the registrar, in the order they are served. */
  function CallsIn(history: seq<Served>): seq<Shutdown.Call> {
    if history == [] then []
    else
      var x := history[|history| - 1];
      CallsIn(history[..|history| - 1]) + (if x.Mine? then [x.call] else [])
  }

  /** One renewal or registration, served without others in between. */
  function Renewal(endpoint: string, x: KeepAlive.Exchange, now: int): seq<Served> {
    [Mine(Shutdown.Update(endpoint), now)] +
    (if x.update == KeepAlive.Missing then [Mine(Shutdown.Add(endpoint), now)] else [])
  }

  lemma ServeNext(env: ResourceCatalog.Env, rule: Expiry.TieRule, endpoint: string, s: ResourceCatalog.State,
                  history: seq<Served>, x: Served, d: Devices.Device)
    requires EndpointOf(x) == endpoint
    ensures Serve(env, rule, endpoint, s, history + [x], d) ==
      ResourceCatalog.Step(env, rule, Serve(env, rule, endpoint, s, history, d), OpOf(x, d)).0
    ensures CallsIn(history + [x]) == CallsIn(history) + (if x.Mine? then [x.call] else [])
  {
    assert (history + [x])[..|history|] == history;
  }

  /** It does to the catalog what the upsert does, and consists of the calls that the routine makes. */
  lemma RenewalIsUpsert(env: ResourceCatalog.Env, rule: Expiry.TieRule, endpoint: string, s: ResourceCatalog.State,
                        history: seq<Served>, d: Devices.Device, now: int)
    ensures var (after, x) := Registration.Upsert(env, rule, Serve(env, rule, endpoint, s, history, d), d, now);
      && Serve(env, rule, endpoint, s, history + Renewal(endpoint, x, now), d) == after
      && CallsIn(history + Renewal(endpoint, x, now)) ==
         CallsIn(history) + Shutdown.CallsTo(endpoint, KeepAlive.Calls(x))
  {
    var x := Registration.Upsert(env, rule, Serve(env, rule, endpoint, s, history, d), d, now).1;
    if x.update == KeepAlive.Missing {
      MissedRenewal(env, rule, endpoint, s, history, d, now, x);
    } else {
      PlainRenewal(env, rule, endpoint, s, history, d, now, x);
    }
  }

  lemma PlainRenewal(env: ResourceCatalog.Env, rule: Expiry.TieRule, endpoint: string, s: ResourceCatalog.State,
                     history: seq<Served>, d: Devices.Device, now: int, x: KeepAlive.Exchange)
    requires x.update != KeepAlive.Missing
    ensures var all := history + Renewal(endpoint, x, now);
      && Serve(env, rule, endpoint, s, all, d) ==
         ResourceCatalog.UpdateSpec(env, rule, Serve(env, rule, endpoint, s, history, d), d.id, d, now).0
      && CallsIn(all) == CallsIn(history) + Shutdown.CallsTo(endpoint, KeepAlive.Calls(x))
  {
    var update := Mine(Shutdown.Update(endpoint), now);
    ServeNext(env, rule, endpoint, s, history, update, d);
    assert Renewal(endpoint, x, now) == [update];
    assert Shutdown.CallsTo(endpoint, KeepAlive.Calls(x)) == [Shutdown.Update(endpoint)];
  }

  lemma MissedRenewal(env: ResourceCatalog.Env, rule: Expiry.TieRule, endpoint: string, s: ResourceCatalog.State,
                      history: seq<Served>, d: Devices.Device, now: int, x: KeepAlive.Exchange)
    requires x.update == KeepAlive.Missing
    ensures var all := history + Renewal(endpoint, x, now);
      && Serve(env, rule, endpoint, s, all, d) ==
         ResourceCatalog.AddSpec(env, ResourceCatalog.UpdateSpec(env, rule, Serve(env, rule, endpoint, s, history, d),
                                                                 d.id, d, now).0, d, now).0
      && CallsIn(all) == CallsIn(history) + Shutdown.CallsTo(endpoint, KeepAlive.Calls(x))
  {
    var update, add := Mine(Shutdown.Update(endpoint), now), Mine(Shutdown.Add(endpoint), now);
    ServeNext(env, rule, endpoint, s, history, update, d);
    ServeNext(env, rule, endpoint, s, history + [update], add, d);
    assert history + Renewal(endpoint, x, now) == history + [update] + [add];
    assert Shutdown.CallsTo(endpoint, KeepAlive.Calls(x)) == [Shutdown.Update(endpoint), Shutdown.Add(endpoint)];
    var calls := CallsIn(history);
    assert calls + [update.call] + [add.call] == calls + [update.call, add.call];
  }

  /** Others do not register the same device, nor have the catalog name theirs. */
  predicate LeavesAlone(x: Served, id: string) {
    x.Others? && x.op.Add? ==> x.op.d.id != "" && x.op.d.id != id
  }

  lemma OthersDoNotAdd(env: ResourceCatalog.Env, rule: Expiry.TieRule, s: ResourceCatalog.State, x: Served, id: string,
                       d: Devices.Device)
    requires x.Others? && LeavesAlone(x, id) && id !in s.store && ResourceCatalog.StoreOk(s.store)
    ensures id !in ResourceCatalog.Step(env, rule, s, OpOf(x, d)).0.store
  {
  }

  lemma {:induction false} ServeKeepsStoreOk(env: ResourceCatalog.Env, rule: Expiry.TieRule, endpoint: string,
                                             s: ResourceCatalog.State, history: seq<Served>, d: Devices.Device)
    requires ResourceCatalog.StoreOk(s.store)
    ensures ResourceCatalog.StoreOk(Serve(env, rule, endpoint, s, history, d).store)
    decreases |history|
  {
    if history == [] {
    } else {
      var front, x := history[..|history| - 1], history[|history| - 1];
      ServeKeepsStoreOk(env, rule, endpoint, s, front, d);
      ResourceCatalog.StepKeepsStoreOk(env, rule, Serve(env, rule, endpoint, s, front, d), OpOf(x, d));
    }
  }

  lemma {:induction false} DeletedIsAbsent(env: ResourceCatalog.Env, rule: Expiry.TieRule, endpoint: string,
                                           s: ResourceCatalog.State, history: seq<Served>, d: Devices.Device)
    requires ResourceCatalog.StoreOk(s.store) && forall x | x in history :: LeavesAlone(x, d.id)
    requires var calls := CallsIn(history); calls != [] && calls[|calls| - 1] == Shutdown.Delete(endpoint)
    ensures d.id !in Serve(env, rule, endpoint, s, history, d).store
    decreases |history|
  {
    var front, x := history[..|history| - 1], history[|history| - 1];
    assert x in history;
    var before := Serve(env, rule, endpoint, s, front, d);
    if x.Mine? {
      assert x.call == Shutdown.Delete(endpoint);
    } else {
      assert CallsIn(history) == CallsIn(front);
      DeletedIsAbsent(env, rule, endpoint, s, front, d);
      ServeKeepsStoreOk(env, rule, endpoint, s, front, d);
      OthersDoNotAdd(env, rule, before, x, d.id, d);
    }
  }

  /** After a stop that got through to a routine at the first endpoint, the device is absent from the catalog it was
      registered with, whatever the order in which that served the calls of others. */
  lemma StoppedIsAbsent(endpoint: string, discover: bool, events: seq<Shutdown.Event>, env: ResourceCatalog.Env,
                        rule: Expiry.TieRule, s: ResourceCatalog.State, history: seq<Served>, d: Devices.Device)
    requires Shutdown.Exec(Shutdown.Init(endpoint, discover), events).Some?
    requires var end := Shutdown.Exec(Shutdown.Init(endpoint, discover), events).value;
      end.sup == Shutdown.Returned(true) && CallsIn(history) == end.log
    requires ResourceCatalog.StoreOk(s.store) && forall x | x in history :: LeavesAlone(x, d.id)
    ensures var end := Shutdown.Exec(Shutdown.Init(endpoint, discover), events).value;
      end.routines != [] &&
      (Shutdown.Last(end).endpoint == endpoint ==>
        d.id !in Serve(env, rule, Shutdown.Last(end).endpoint, s, history, d).store)
  {
    Shutdown.InvRun(endpoint, discover, events);
    DeletedIsAbsent(env, rule, endpoint, s, history, d);
  }

  lemma StaysRegistered(env: ResourceCatalog.Env, rule: Expiry.TieRule, s: ResourceCatalog.State,
                        op: ResourceCatalog.Op, id: string)
    requires id in s.store && op != ResourceCatalog.Delete(id) && !op.Sweep?
    ensures id in ResourceCatalog.Step(env, rule, s, op).0.store
  {
  }

  /** What is registered at some point stays so, if nobody deletes it and no sweep comes. */
  lemma {:induction false} NeverDeleted(env: ResourceCatalog.Env, rule: Expiry.TieRule, endpoint: string,
                                        s: ResourceCatalog.State, history: seq<Served>, n: nat, d: Devices.Device)
    requires n <= |history| && d.id in Serve(env, rule, endpoint, s, history[..n], d).store
    requires Shutdown.Delete(endpoint) !in CallsIn(history)
    requires forall k | n <= k < |history| && history[k].Others? ::
      history[k].op != ResourceCatalog.Delete(d.id) && !history[k].op.Sweep?
    ensures d.id in Serve(env, rule, endpoint, s, history, d).store
    decreases |history|
  {
    if n == |history| {
      assert history[..n] == history;
    } else {
      var front, x := history[..|history| - 1], history[|history| - 1];
      assert front[..n] == history[..n];
      NeverDeleted(env, rule, endpoint, s, front, n, d);
      var before := Serve(env, rule, endpoint, s, front, d);
      if x.Mine? { assert x.call in CallsIn(history); }
      if EndpointOf(x) == endpoint { StaysRegistered(env, rule, before, OpOf(x, d), d.id); }
    }
  }

  /** But if a restart led elsewhere, a device once registered with the catalog of the last routine stays there, unless
      a sweep or somebody else removes it. */
  lemma AstrayStays(endpoint: string, discover: bool, events: seq<Shutdown.Event>, env: ResourceCatalog.Env,
                    rule: Expiry.TieRule, s: ResourceCatalog.State, history: seq<Served>, n: nat, d: Devices.Device)
    requires Shutdown.Exec(Shutdown.Init(endpoint, discover), events).Some?
    requires var end := Shutdown.Exec(Shutdown.Init(endpoint, discover), events).value;
      end.sup == Shutdown.Returned(true) && CallsIn(history) == end.log && end.routines != [] &&
      Shutdown.Last(end).endpoint != endpoint && n <= |history| &&
      d.id in Serve(env, rule, Shutdown.Last(end).endpoint, s, history[..n], d).store
    requires forall k | n <= k < |history| && history[k].Others? ::
      history[k].op != ResourceCatalog.Delete(d.id) && !history[k].op.Sweep?
    ensures var end := Shutdown.Exec(Shutdown.Init(endpoint, discover), events).value;
      d.id in Serve(env, rule, Shutdown.Last(end).endpoint, s, history, d).store
  {
    Shutdown.DeleteReachesIff(endpoint, discover, events);
    var end := Shutdown.Exec(Shutdown.Init(endpoint, discover), events).value;
    NeverDeleted(env, rule, Shutdown.Last(end).endpoint, s, history, n, d);
  }
}
