/** The service catalog controller: a store of services and the index of their expiry times. Each method is one locked
    step. */
module ServiceController {
  import opened Prelude
  import opened Tree
  import opened ServiceCatalog
  import Devices
  import Expiry
  import ExpiryIndex
  import Paging
  import Query
  import Storage
  import Urn

  class Controller {
    const env: Env
    const storage: Storage.CatalogStorage<Service>
    const expSid: TimeTree
    var counter: nat
    /** Every identifier generated so far. */
    ghost var issued: seq<string>

    ghost predicate Valid()
      reads this, storage, storage.tree, expSid
    {
      Trees() && Good(State()) && LogOk()
    }

    ghost predicate Trees()
      reads this, storage, storage.tree, expSid
    {
      storage.Valid() && expSid.Valid() && ExpiryIndex.DistinctIds(expSid.items)
    }

    /** One identifier was generated for every value of the counter. */
    ghost predicate LogOk() reads this { |issued| == counter && Urn.IssuedFrom(env.start, issued) }

    ghost function State(): State
      reads this, storage, storage.tree, expSid
    {
      ServiceCatalog.State(storage.Contents(), ExpiryIndex.SetOf(expSid.items), counter)
    }

    // ---- Start-up ----

    /** Indexes whatever the storage already holds. */
    constructor (env: Env, storage: Storage.CatalogStorage<Service>)
      requires storage.Valid() && StoreOk(storage.Contents())
      ensures Valid() && this.env == env && this.storage == storage && fresh(expSid)
      ensures State() == ServiceCatalog.State(storage.Contents(), Expiry.Entries(Abstract(State()).live), 0)
    {
      this.env := env;
      this.storage := storage;
      expSid := new TimeTree();
      counter := 0;
      issued := [];
      new;
      InOrderServices(storage.Contents());
      InitIndices(Storage.InOrder(storage.Contents()));
      RebuiltEntries(storage.Contents());
    }

    /** The index holds exactly what the listed services call for. */
    ghost predicate Indexed(services: seq<Service>)
      reads this, expSid
    {
      && expSid.Valid() && ExpiryIndex.DistinctIds(expSid.items)
      && ExpiryIndex.SetOf(expSid.items) == RebuildExp(services)
    }

    method InitIndices(ghost all: seq<Service>)
      requires storage.Valid() && all == Storage.InOrder(storage.Contents()) && ServicesDistinct(all)
      requires expSid.Valid() && expSid.items == []
      modifies expSid
      ensures Indexed(all)
    {
      ghost var done := [];
      var page := 1;
      while true
        invariant 1 <= page && (page == 1 || (page - 1) * Storage.MAX_PER_PAGE < |all|)
        invariant done == Paging.Seen(all, page, Storage.MAX_PER_PAGE) && done <= all
        invariant Indexed(done)
        decreases |all| - |done|
      {
        var services, last := storage.ReadPage(page);
        IndexPage(services, done, all);
        done := done + services;
        if last { break; }
        page := page + 1;
      }
    }

    method IndexPage(services: seq<Service>, ghost done: seq<Service>, ghost all: seq<Service>)
      requires ServicesDistinct(all) && done + services <= all && Indexed(done)
      modifies expSid
      ensures Indexed(done + services)
    {
      assert done + services[..0] == done;
      for i := 0 to |services|
        invariant Indexed(done + services[..i])
      {
        ExtendRebuild(all, done + services[..i], services[i]);
        forall e | e in expSid.items ensures e.id != services[i].id { assert e in ExpiryIndex.SetOf(expSid.items); }
        AddIndices(services[i]);
        assert done + services[..i + 1] == done + services[..i] + [services[i]];
      }
      assert services[..|services|] == services;
    }

    // ---- Indices ----

    method AddIndices(s: Service)
      requires expSid.Valid() && ExpiryIndex.DistinctIds(expSid.items)
      requires s.ttl != 0 ==> s.expires.Some? && ExpiryIndex.Lacks(expSid.items, s.id)
      modifies expSid
      ensures expSid.Valid() && ExpiryIndex.DistinctIds(expSid.items)
      ensures ExpiryIndex.SetOf(expSid.items) == ExpiryIndex.SetOf(old(expSid.items)) + EntryOf(s)
    {
      if s.ttl != 0 {
        ExpiryIndex.AddEntry(expSid, Entry(s.expires.value, s.id));
      }
    }

    method RemoveIndices(s: Service)
      requires expSid.Valid() && ExpiryIndex.DistinctIds(expSid.items)
      modifies expSid
      ensures expSid.Valid() && ExpiryIndex.DistinctIds(expSid.items)
      ensures ExpiryIndex.SetOf(expSid.items) ==
        Unindexed(Expiry.Literal, ExpiryIndex.SetOf(old(expSid.items)), s)
    {
      if s.ttl != 0 {
        ExpiryIndex.RemoveLiteral(expSid, s.id);
      }
    }

    method NewURN() returns (urn: string)
      requires LogOk()
      modifies this`counter, this`issued
      ensures LogOk() && counter == old(counter) + 1
      ensures urn == Urn.Make(Urn.ServiceKind, env.start + counter)
      ensures issued == old(issued) + [urn]
    {
      counter := counter + 1;
      urn := Urn.Make(Urn.ServiceKind, env.start + counter);
      Urn.MadeNumbered(Urn.ServiceKind, env.start + counter);
      Urn.IssueNext(env.start, issued, urn);
      issued := issued + [urn];
    }

    // ---- Services ----

    method Validate(v: Service) returns (ok: bool)
      ensures ok == ValidService(v)
    {
      if |v.protocols| == 0 { return false; }
      for i := 0 to |v.protocols|
        invariant forall p | p in v.protocols[..i] :: Devices.ValidProtocol(p)
      {
        assert v.protocols[i] in v.protocols && v.protocols[..i + 1] == v.protocols[..i] + [v.protocols[i]];
        if v.protocols[i].typ == "" || |v.protocols[i].endpoint| == 0 { return false; }
      }
      assert v.protocols[..|v.protocols|] == v.protocols;
      ok := true;
    }

    method Add(v: Service, now: int) returns (r: Outcome)
      requires Valid()
      modifies this`counter, this`issued, storage.tree, expSid
      ensures Valid() && old(issued) <= issued
      ensures (State(), r) == AddSpec(env, old(State()), v, now)
    {
      ghost var s := State();
      GoodStep(env, Expiry.Literal, s, ServiceCatalog.Add(v, now));
      var valid := Validate(v);
      if !valid { return Failed(BadRequest); }
      var id := v.id;
      if id == "" { id := NewURN(); }
      forall e | e in expSid.items && id !in s.store ensures e.id != id {
        assert e in s.exp;
        Expiry.InEntries(Abstract(s).live, e);
      }
      var service := NewService(env, v, id, now);
      var stored := storage.Add(id, service);
      if stored.Err? { return Failed(Conflict); }
      AddIndices(service);
      r := Done(id);
    }

    method Update(id: string, v: Service, now: int) returns (r: Outcome)
      requires Valid()
      modifies storage.tree, expSid
      ensures Valid()
      ensures (State(), r) == UpdateSpec(Expiry.Literal, old(State()), id, v, now)
    {
      ghost var s := State();
      GoodStep(env, Expiry.Literal, s, ServiceCatalog.Update(id, v, now));
      var valid := Validate(v);
      if !valid { return Failed(BadRequest); }
      var stored := storage.Get(id);
      if stored.Err? { return Failed(NotFound); }
      Replace(stored.value, ChangedService(stored.value, v, now), s);
      r := Done(id);
    }

    method Replace(stored: Service, service: Service, ghost s: State)
      requires Trees() && Good(s) && State() == s && (service.expires.Some? <==> service.ttl != 0)
      requires stored.id == service.id && stored.id in s.store && stored == s.store[stored.id]
      modifies storage.tree, expSid
      ensures Trees() && State() == Replaced(Expiry.Literal, s, stored, service)
    {
      var updated := storage.Update(service.id, service);
      assert updated.Ok?;
      assert (s.store - {stored.id})[stored.id := service] == s.store[stored.id := service];
      RemoveIndices(stored);
      forall e | e in expSid.items ensures e.id != service.id {
        assert e in ExpiryIndex.SetOf(expSid.items);
        Expiry.InEntries(Abstract(s).live, e);
      }
      AddIndices(service);
    }

    method Delete(id: string) returns (r: Outcome)
      requires Valid()
      modifies storage.tree, expSid
      ensures Valid() && (State(), r) == DeleteSpec(Expiry.Literal, old(State()), id)
    {
      GoodStep(env, Expiry.Literal, State(), ServiceCatalog.Delete(id));
      var stored := storage.Get(id);
      if stored.Err? { return Failed(NotFound); }
      var deleted := storage.Delete(id);
      assert deleted.Ok?;
      RemoveIndices(stored.value);
      r := Done(id);
    }

    /** One sweep. Its two error exits are unreachable: every listed service is still stored when its turn comes. */
    method CleanExpired(t: int)
      requires Valid()
      modifies storage.tree, expSid
      ensures Valid() && State() == SweepSpec(old(State()), t)
    {
      ghost var s, items := State(), expSid.items;
      GoodStep(env, Expiry.Literal, s, Sweep(t));
      var expired := ExpiryIndex.CollectExpired(expSid, t);
      ghost var gone: set<string> := {};
      for n := 0 to |expired|
        invariant gone == ExpiryIndex.IdsOf(expired[..n])
        invariant Trees() && counter == s.counter && Swept(s, t, gone)
      {
        ExpiryIndex.NextDue(items, expired, n);
        Evict(expired[n], t, s, gone);
        gone := gone + {expired[n].id};
      }
      assert expired[..|expired|] == expired;
      ExpiryIndex.DueIds(items, expired, t);
      Expiry.SweepingEnds(s.exp, t, gone, ExpiryIndex.SetOf(expSid.items));
    }

    /** The state part of the way through a sweep that began in `s`. */
    ghost predicate Swept(s: State, t: int, gone: set<string>)
      reads this, storage, storage.tree, expSid
    {
      && storage.Contents() == s.store - gone
      && Expiry.Sweeping(s.exp, t, gone, ExpiryIndex.SetOf(expSid.items))
    }

    /** One round of the sweep. */
    method Evict(m: Entry, t: int, ghost s: State, ghost gone: set<string>)
      requires Trees() && Good(s) && Swept(s, t, gone)
      requires m in s.exp && m.time <= t && m.id !in gone
      modifies storage.tree, expSid
      ensures Trees() && Swept(s, t, gone + {m.id})
    {
      Expiry.InEntries(Abstract(s).live, m);
      Expiry.SweepingStep(Expiry.Literal, Abstract(s), t, gone, ExpiryIndex.SetOf(expSid.items), m);
      assert s.store - gone - {m.id} == s.store - (gone + {m.id});
      var stored := storage.Get(m.id);
      assert stored.Ok?;
      var deleted := storage.Delete(m.id);
      assert deleted.Ok?;
      RemoveIndices(stored.value);
    }

    method Filter(matches: Service -> Query.Verdict, page: int, perPage: int) returns (r: Result<(seq<Service>, nat)>)
      requires Valid()
      ensures r == Query.FilterPage(Storage.InOrder(storage.Contents()), matches, page, perPage)
    {
      r := Query.ScanFilter(storage, (v: Service) => v, matches, page, perPage);
      ghost var all := Storage.InOrder(storage.Contents());
      assert Query.Project(all, (v: Service) => v) == all;
    }
  }

  lemma ExtendRebuild(all: seq<Service>, before: seq<Service>, v: Service)
    requires ServicesDistinct(all) && before + [v] <= all
    ensures RebuildExp(before + [v]) == RebuildExp(before) + EntryOf(v)
    ensures v.expires.Some? <==> v.ttl != 0
    ensures forall e | e in RebuildExp(before) :: e.id != v.id
  {
    assert forall i | 0 <= i < |before| :: all[i] == before[i];
    assert all[|before|] == v;
  }
}
