/** The resource catalog controller: a store of devices with two secondary indices. Each method is one locked step. */
module ResourceController {
  import opened Prelude
  import opened Tree
  import opened Devices
  import opened ResourceCatalog
  import Expiry
  import ExpiryIndex
  import opened ResourceProofs
  import opened ResourceQueries
  import Paging
  import Query
  import Storage
  import Urn

  class Controller {
    const env: Env
    const storage: Storage.CatalogStorage<Device>
    const ridDid: UniqueTree<string>
    const expDid: TimeTree
    var counter: nat
    /** Every identifier generated so far. */
    ghost var issued: seq<string>

    ghost predicate Valid()
      reads this, storage, storage.tree, ridDid, expDid
    {
      Trees() && Good(State()) && LogOk()
    }

    /** The structural part: well-formed trees that do not share, and at most one expiry entry for each device. */
    ghost predicate Trees()
      reads this, storage, storage.tree, ridDid, expDid
    {
      && storage.Valid() && ridDid.Valid() && expDid.Valid()
      && storage.tree as object != ridDid
      && ExpiryIndex.DistinctIds(expDid.items)
    }

    /** One identifier was generated for every value of the counter. */
    ghost predicate LogOk() reads this { |issued| == counter && Urn.IssuedFrom(env.start, issued) }

    ghost function State(): State
      reads this, storage, storage.tree, ridDid, expDid
    {
      ResourceCatalog.State(storage.Contents(), ridDid.Contents(), ExpiryIndex.SetOf(expDid.items), counter)
    }

    // ---- Start-up ----

    /** Indexes whatever the storage already holds. */
    constructor (env: Env, storage: Storage.CatalogStorage<Device>)
      requires storage.Valid() && StoreOk(storage.Contents())
      ensures Valid() && this.env == env && this.storage == storage && fresh(ridDid) && fresh(expDid)
      ensures State() == ResourceCatalog.State(storage.Contents(), RebuildRid(Storage.InOrder(storage.Contents())),
                                               Expiry.Entries(Abstract(State()).live), 0)
      ensures RidExact(State().store, State().rid) <==>
              ListsStrict(storage.Contents()) && NoneShared(Owns(storage.Contents()))
    {
      this.env := env;
      this.storage := storage;
      ridDid := new UniqueTree<string>();
      expDid := new TimeTree();
      counter := 0;
      issued := [];
      new;
      InOrderDevices(storage.Contents());
      InitIndices(Storage.InOrder(storage.Contents()));
      RebuiltEntries(storage.Contents());
      RebuildExactIff(storage.Contents());
    }

    method InitIndices(ghost all: seq<Device>)
      requires storage.Valid() && storage.tree as object != ridDid
      requires all == Storage.InOrder(storage.Contents()) && DevicesDistinct(all)
      requires ridDid.Valid() && ridDid.Contents() == map[] && expDid.Valid() && expDid.items == []
      modifies ridDid, expDid
      ensures Indexed(all)
    {
      ghost var done := [];
      var page := 1;
      while true
        invariant 1 <= page && (page == 1 || (page - 1) * Storage.MAX_PER_PAGE < |all|)
        invariant done == Paging.Seen(all, page, Storage.MAX_PER_PAGE)
        invariant Indexed(done)
        decreases |all| - |done|
      {
        ghost var more;
        var last;
        last, more := ListAndIndex(page, all, done);
        done := done + more;
        if last { break; }
        page := page + 1;
      }
    }

    /** Both indices hold exactly what the listed devices call for. */
    ghost predicate Indexed(devices: seq<Device>)
      reads this, ridDid, expDid
    {
      && ridDid.Valid() && expDid.Valid() && ExpiryIndex.DistinctIds(expDid.items)
      && ridDid.Contents() == RebuildRid(devices)
      && ExpiryIndex.SetOf(expDid.items) == RebuildExp(devices)
    }

    /** One round of the start-up loop. */
    method ListAndIndex(page: nat, ghost all: seq<Device>, ghost done: seq<Device>)
      returns (last: bool, ghost more: seq<Device>)
      requires storage.Valid() && storage.tree as object != ridDid
      requires all == Storage.InOrder(storage.Contents()) && DevicesDistinct(all)
      requires 1 <= page && (page == 1 || (page - 1) * Storage.MAX_PER_PAGE < |all|)
      requires done == Paging.Seen(all, page, Storage.MAX_PER_PAGE)
      requires Indexed(done)
      modifies ridDid, expDid
      ensures Indexed(done + more)
      ensures Paging.Seen(all, page + 1, Storage.MAX_PER_PAGE) == done + more <= all
      ensures last ==> done + more == all
      ensures !last ==> more != [] && page * Storage.MAX_PER_PAGE < |all|
    {
      var devices;
      devices, last := storage.ReadPage(page);
      DistinctFront(all, done + devices);
      IndexPage(devices, done);
      more := devices;
    }

    /** Indexes the devices of one page, after those of the earlier pages. */
    method IndexPage(devices: seq<Device>, ghost done: seq<Device>)
      requires DevicesDistinct(done + devices) && Indexed(done)
      modifies ridDid, expDid
      ensures Indexed(done + devices)
    {
      Append(done, devices);
      for i := 0 to |devices|
        invariant Indexed(done + devices[..i])
      {
        AppendNext(done, devices, i);
        IndexOne(devices[i], done + devices[..i]);
      }
    }

    method IndexOne(d: Device, ghost before: seq<Device>)
      requires Indexed(before) && DevicesDistinct(before + [d])
      modifies ridDid, expDid
      ensures Indexed(before + [d])
    {
      ExtendRebuild(before, d);
      forall e | e in expDid.items ensures e.id != d.id { assert e in ExpiryIndex.SetOf(expDid.items); }
      AddIndices(d);
    }

    // ---- Identifiers ----

    method NewURN(kind: Urn.Kind) returns (urn: string)
      requires LogOk()
      modifies this`counter, this`issued
      ensures LogOk() && counter == old(counter) + 1 && old(issued) <= issued
      ensures urn == Urn.Make(kind, env.start + counter)
      ensures issued == old(issued) + [urn]
    {
      counter := counter + 1;
      urn := Urn.Make(kind, env.start + counter);
      Urn.MadeNumbered(kind, env.start + counter);
      Urn.IssueNext(env.start, issued, urn);
      issued := issued + [urn];
    }

    /** The rounds of the two loops that fill in the resources of a registration. */
    method FillNext(rs: seq<Resource>, i: nat, url: string, ghost c: nat) returns (r: Resource)
      requires LogOk() && i < |rs| && counter == c + Blanks(rs[..i])
      modifies this`counter, this`issued
      ensures LogOk() && counter == c + Blanks(rs[..i + 1]) && old(issued) <= issued
      ensures r == Stamp(env, rs[i], FilledId(env, rs, i, c), url)
    {
      assert rs[..i + 1][..i] == rs[..i];
      var id := rs[i].id;
      if id == "" { id := NewURN(Urn.ResourceKind); }
      r := Stamp(env, rs[i], id, url);
    }

    /** A user-defined id that is already indexed. */
    method IsTaken(r: Resource) returns (taken: bool)
      requires ridDid.Valid()
      ensures taken == Taken(ridDid.Contents(), r)
    {
      if r.id == "" { return false; }
      var found := ridDid.Find(r.id);
      taken := found.Some?;
    }

    /** Stops at the first resource whose user-defined id is taken. */
    method FillForAdd(rs: seq<Resource>, url: string) returns (filled: seq<Resource>, k: nat)
      requires LogOk() && ridDid.Valid()
      modifies this`counter, this`issued
      ensures LogOk() && old(issued) <= issued
      ensures k == FirstTaken(ridDid.Contents(), rs)
      ensures counter == old(counter) + Blanks(rs[..k])
      ensures filled == Fill(env, rs, old(counter), url)[..k]
    {
      ghost var rid, all := ridDid.Contents(), Fill(env, rs, counter, url);
      filled, k := [], 0;
      while k < |rs|
        invariant k <= |rs| && FirstTaken(rid, rs[..k]) == k
        invariant LogOk() && old(issued) <= issued && counter == old(counter) + Blanks(rs[..k])
        invariant filled == all[..k]
      {
        var taken := IsTaken(rs[k]);
        if taken {
          FirstTakenIs(rid, rs, k);
          return;
        }
        assert rs[..k + 1][..k] == rs[..k];
        var r := FillNext(rs, k, url, old(counter));
        assert all[..k + 1] == all[..k] + [all[k]] && r == all[k];
        filled := filled + [r];
        k := k + 1;
      }
      assert rs[..k] == rs;
    }

    method FillForUpdate(rs: seq<Resource>, url: string) returns (filled: seq<Resource>)
      requires LogOk()
      modifies this`counter, this`issued
      ensures LogOk() && old(issued) <= issued && counter == old(counter) + Blanks(rs)
      ensures filled == Fill(env, rs, old(counter), url)
    {
      ghost var all := Fill(env, rs, counter, url);
      filled := [];
      for i := 0 to |rs|
        invariant LogOk() && old(issued) <= issued && counter == old(counter) + Blanks(rs[..i])
        invariant filled == all[..i]
      {
        var r := FillNext(rs, i, url, old(counter));
        assert all[..i + 1] == all[..i] + [all[i]];
        filled := filled + [r];
      }
      assert rs[..|rs|] == rs;
    }

    // ---- Indices ----

    method AddIndices(d: Device)
      requires ridDid.Valid() && expDid.Valid() && ExpiryIndex.DistinctIds(expDid.items)
      requires d.ttl != 0 ==> d.expires.Some? && ExpiryIndex.Lacks(expDid.items, d.id)
      modifies ridDid, expDid
      ensures ridDid.Valid() && expDid.Valid() && ExpiryIndex.DistinctIds(expDid.items)
      ensures ridDid.Contents() == IndexAdd(old(ridDid.Contents()), Ids(d.resources), d.id)
      ensures ExpiryIndex.SetOf(expDid.items) == ExpiryIndex.SetOf(old(expDid.items)) +
        (if d.ttl != 0 then {Entry(d.expires.value, d.id)} else {})
    {
      AddRids(ridDid, d.resources, d.id);
      if d.ttl != 0 {
        ExpiryIndex.AddEntry(expDid, Entry(d.expires.value, d.id));
      }
    }

    method RemoveIndices(d: Device)
      requires ridDid.Valid() && expDid.Valid() && ExpiryIndex.DistinctIds(expDid.items)
      modifies ridDid, expDid
      ensures ridDid.Valid() && expDid.Valid() && ExpiryIndex.DistinctIds(expDid.items)
      ensures ridDid.Contents() == old(ridDid.Contents()) - Ids(d.resources)
      ensures ExpiryIndex.SetOf(expDid.items) ==
        if d.ttl != 0 then Expiry.Drop(Expiry.Literal, ExpiryIndex.SetOf(old(expDid.items)), d.id)
        else ExpiryIndex.SetOf(old(expDid.items))
    {
      RemoveRids(ridDid, d.resources);
      if d.ttl != 0 {
        ExpiryIndex.RemoveLiteral(expDid, d.id);
      }
    }

    // ---- Devices ----

    method Add(d: Device, now: int) returns (r: Outcome)
      requires Valid()
      modifies this`counter, this`issued, storage.tree, ridDid, expDid
      ensures Valid() && old(issued) <= issued
      ensures (State(), r) == AddSpec(env, old(State()), d, now)
    {
      ghost var s := State();
      ghost var after := AddSpec(env, s, d, now);
      GoodAdd(env, s, d, now);
      var valid := Validate(env.parses, d);
      if !valid { return Failed(BadRequest); }
      var id := d.id;
      if id == "" { id := NewURN(Urn.DeviceKind); }
      assert after == AddAs(env, s, d, id, counter, now);
      r := AddUnder(d, id, now, s, after);
    }

    /** The rest of an add, once the id of the device is settled. */
    method AddUnder(d: Device, id: string, now: int, ghost s: State, ghost after: (State, Outcome)) returns (r: Outcome)
      requires Trees() && LogOk() && State() == s.(counter := counter) && Good(s)
      requires after == AddAs(env, s, d, id, counter, now)
      modifies this`counter, this`issued, storage.tree, ridDid, expDid
      ensures Trees() && LogOk() && old(issued) <= issued
      ensures (State(), r) == after
    {
      ghost var c := counter;
      var url := DeviceUrl(env, id);
      var filled, k := FillForAdd(d.resources, url);
      if k < |d.resources| { return Failed(Conflict); }
      assert d.resources[..k] == d.resources;
      r := AddFilled(d, id, now, filled, s, c, after);
    }

    /** The rest of an add, once all resources are filled in. */
    method AddFilled(d: Device, id: string, now: int, filled: seq<Resource>, ghost s: State, ghost c: nat,
                     ghost after: (State, Outcome))
      returns (r: Outcome)
      requires Trees() && Good(s) && State() == s.(counter := c + Blanks(d.resources))
      requires FirstTaken(s.rid, d.resources) == |d.resources|
      requires filled == Fill(env, d.resources, c, DeviceUrl(env, id))
      requires after == AddAs(env, s, d, id, c, now)
      modifies storage.tree, ridDid, expDid
      ensures Trees() && (State(), r) == after
    {
      var device := NewDevice(env, d, id, now, SortById(filled));
      RegisteredIs(env, d, id, now, c, filled);
      AddAsIs(env, s, d, id, c, now, device, after);
      r := StoreAndIndex(device, s, after, c + Blanks(d.resources));
    }

    /** Stores a new device and, unless its id is taken, indexes it. */
    method StoreAndIndex(device: Device, ghost s: State, ghost after: (State, Outcome), ghost c: nat)
      returns (r: Outcome)
      requires Trees() && DeviceOk(device) && Good(s) && State() == s.(counter := c)
      requires AddEnds(s, device, c, after)
      modifies storage.tree, ridDid, expDid
      ensures Trees() && (State(), r) == after
    {
      forall e | e in expDid.items && device.id !in s.store ensures e.id != device.id {
        assert e in s.exp;
        NotStoredNotIndexed(s, device.id);
      }
      var stored := storage.Add(device.id, device);
      if stored.Err? { return Failed(Conflict); }
      AddIndices(device);
      r := Done(device.id);
    }

    method Update(id: string, d: Device, now: int) returns (r: Outcome)
      requires Valid()
      modifies this`counter, this`issued, storage.tree, ridDid, expDid
      ensures Valid() && old(issued) <= issued
      ensures (State(), r) == UpdateSpec(env, Expiry.Literal, old(State()), id, d, now)
    {
      ghost var s := State();
      ghost var after := UpdateSpec(env, Expiry.Literal, s, id, d, now);
      GoodUpdate(env, Expiry.Literal, s, id, d, now);
      var valid := Validate(env.parses, d);
      if !valid { return Failed(BadRequest); }
      var conflict := IsAnyTaken(d.resources, id);
      if conflict { return Failed(Conflict); }
      var stored := storage.Get(id);
      if stored.Err? { return Failed(NotFound); }
      UpdateIs(env, Expiry.Literal, s, id, d, now);
      ghost var renewed := Renewed(env, stored.value, d, now, s.counter);
      UpdateStored(stored.value, d, now, s, renewed);
      r := Done(id);
    }

    /** The rest of an update, once the stored device is at hand. */
    method UpdateStored(stored: Device, d: Device, now: int, ghost s: State, ghost renewed: Device)
      requires Trees() && LogOk() && State() == s && Good(s)
      requires stored.id in s.store && stored == s.store[stored.id]
      requires renewed == Renewed(env, stored, d, now, s.counter)
      modifies this`counter, this`issued, storage.tree, ridDid, expDid
      ensures Trees() && LogOk() && old(issued) <= issued
      ensures State() == Replaced(Expiry.Literal, s, stored, renewed, s.counter + Blanks(d.resources))
    {
      var filled := FillForUpdate(d.resources, stored.url);
      var device := ChangedDevice(stored, d, now, SortById(filled));
      RenewedIs(env, stored, d, now, s.counter, filled);
      Replace(stored, device, s);
    }

    method Replace(stored: Device, device: Device, ghost s: State)
      requires Trees() && Good(s) && DeviceOk(device) && State() == s.(counter := counter)
      requires stored.id == device.id && stored.id in s.store && stored == s.store[stored.id]
      modifies storage.tree, ridDid, expDid
      ensures Trees() && State() == Replaced(Expiry.Literal, s, stored, device, counter)
    {
      var updated := storage.Update(device.id, device);
      assert updated.Ok?;
      assert (s.store - {stored.id})[stored.id := device] == s.store[stored.id := device];
      Reindex(stored, device, s);
    }

    method IsAnyTaken(rs: seq<Resource>, id: string) returns (conflict: bool)
      requires ridDid.Valid()
      ensures conflict == AnyTakenByOther(ridDid.Contents(), rs, id)
    {
      for i := 0 to |rs|
        invariant forall r | r in rs[..i] :: !TakenByOther(ridDid.Contents(), r, id)
      {
        if rs[i].id != "" {
          var owner := ridDid.Find(rs[i].id);
          if owner.Some? && owner.value != id {
            assert TakenByOther(ridDid.Contents(), rs[i], id);
            return true;
          }
        }
        assert rs[..i + 1] == rs[..i] + [rs[i]];
      }
      assert rs[..|rs|] == rs;
      conflict := false;
    }

    /** Takes the index entries of the old device out and puts those of the new one in. */
    method Reindex(stored: Device, device: Device, ghost s: State)
      requires Trees() && Good(s) && DeviceOk(device)
      requires stored.id == device.id && stored.id in s.store && stored == s.store[stored.id]
      requires State() == ResourceCatalog.State(s.store[device.id := device], s.rid, s.exp, counter)
      modifies ridDid, expDid
      ensures Trees() && State() == Replaced(Expiry.Literal, s, stored, device, counter)
    {
      RemoveIndices(stored);
      forall e | e in expDid.items ensures e.id != device.id {
        assert e in ExpiryIndex.SetOf(expDid.items);
        GoneAfterRemoval(s, stored, e);
      }
      AddIndices(device);
    }

    method Delete(id: string) returns (r: Outcome)
      requires Valid()
      modifies storage.tree, ridDid, expDid
      ensures Valid() && (State(), r) == DeleteSpec(Expiry.Literal, old(State()), id)
    {
      ghost var s := State();
      GoodDelete(env, Expiry.Literal, s, id);
      var stored := storage.Get(id);
      if stored.Err? { return Failed(NotFound); }
      var deleted := storage.Delete(id);
      assert deleted.Ok?;
      RemoveIndices(stored.value);
      r := Done(id);
    }

    /** One sweep. Its two error exits are unreachable: every listed device is still stored when its turn comes. */
    method CleanExpired(t: int)
      requires Valid()
      modifies storage.tree, ridDid, expDid
      ensures Valid() && State() == SweepSpec(old(State()), t)
    {
      ghost var s, items := State(), expDid.items;
      GoodSweep(env, s, t);
      var expired := ExpiryIndex.CollectExpired(expDid, t);
      ghost var gone: set<string> := {};
      for n := 0 to |expired|
        invariant gone == ExpiryIndex.IdsOf(expired[..n])
        invariant Trees() && counter == s.counter && Swept(s, t, gone)
      {
        ExpiryIndex.NextDue(items, expired, n);
        Evict(expired[n], t, s, gone);
        gone := gone + {expired[n].id};
      }
      assert expired[..|expired|] == expired;
      ExpiryIndex.DueIds(items, expired, t);
      Expiry.SweepingEnds(s.exp, t, gone, ExpiryIndex.SetOf(expDid.items));
    }

    /** The state part of the way through a sweep that began in `s`. */
    ghost predicate Swept(s: State, t: int, gone: set<string>)
      reads this, storage, storage.tree, ridDid, expDid
    {
      && storage.Contents() == s.store - gone
      && ridDid.Contents() == s.rid - AllIds(Owns(s.store), gone)
      && Expiry.Sweeping(s.exp, t, gone, ExpiryIndex.SetOf(expDid.items))
    }

    /** One round of the sweep. */
    method Evict(m: Entry, t: int, ghost s: State, ghost gone: set<string>)
      requires Trees() && Good(s) && Swept(s, t, gone)
      requires m in s.exp && m.time <= t && m.id !in gone
      modifies storage.tree, ridDid, expDid
      ensures Trees() && Swept(s, t, gone + {m.id})
    {
      Expiry.InEntries(Abstract(s).live, m);
      Expiry.SweepingStep(Expiry.Literal, Abstract(s), t, gone, ExpiryIndex.SetOf(expDid.items), m);
      EvictIds(s, gone, m.id);
      var stored := storage.Get(m.id);
      assert stored.Ok?;
      var deleted := storage.Delete(m.id);
      assert deleted.Ok?;
      RemoveIndices(stored.value);
    }

    // ---- Queries ----

    method Filter(matches: SimpleDevice -> Query.Verdict, page: int, perPage: int)
      returns (r: Result<(seq<SimpleDevice>, nat)>)
      requires Valid()
      ensures r ==
        Query.FilterPage(Query.Project(Storage.InOrder(storage.Contents()), Simplify), matches, page, perPage)
    {
      r := Query.ScanFilter(storage, Simplify, matches, page, perPage);
    }

    method GetResource(id: string) returns (r: Result<Resource>)
      requires Valid()
      ensures r == GetResourceSpec(State(), id)
    {
      var did := ridDid.Find(id);
      if did.None? { return Err(NotFound); }
      var device := storage.Get(did.value);
      if device.Err? { return Err(NotFound); }
      var found := FindById(device.value.resources, id);
      r := if found.Some? then Ok(found.value) else Err(NotFound);
    }

    /** The device of an indexed resource, through the cache of the call. */
    method Cached(devices: map<string, Device>, did: string) returns (r: Result<Device>, devices': map<string, Device>)
      requires storage.Valid() && Caches(devices)
      ensures Caches(devices')
      ensures r == if did in storage.Contents() then Ok(storage.Contents()[did]) else Err(NotFound)
    {
      devices' := devices;
      if did in devices { return Ok(devices[did]), devices; }
      r := storage.Get(did);
      if r.Ok? { devices' := devices[did := r.value]; }
    }

    ghost predicate Caches(devices: map<string, Device>)
      reads this, storage, storage.tree
    {
      forall did | did in devices :: did in storage.Contents() && devices[did] == storage.Contents()[did]
    }

    method ListResources(page: int, perPage: int) returns (r: Result<(seq<Resource>, nat)>)
      requires Valid()
      ensures r == ListResourcesSpec(State(), page, perPage)
    {
      var data := ridDid.items;
      NodesOfView(data);
      var total := |data|;
      var attr := Paging.GetPagingAttr(total, page, perPage, Storage.MAX_PER_PAGE);
      if attr.Err? { return Err(BadRequest); }
      Paging.PageIsStretch(total, page, perPage, Storage.MAX_PER_PAGE);
      var (offset, limit) := attr.value;
      ListResourcesIs(State(), data, page, perPage, offset, limit);
      if limit == 0 {
        assert data[offset..offset + limit] == [];
        return Ok(([], total));
      }
      var listed := Collect(data[offset..offset + limit]);
      r := if listed.Err? then Err(listed.error) else Ok((listed.value, total));
    }

    /** The resources behind a stretch of the index. */
    method Collect(nodes: seq<Node<string>>) returns (r: Result<seq<Resource>>)
      requires storage.Valid()
      ensures r == Listed(storage.Contents(), nodes)
    {
      var devices: map<string, Device> := map[];
      var listed: seq<Resource> := [];
      for i := 0 to |nodes|
        invariant Caches(devices) && Listed(storage.Contents(), nodes[..i]) == Ok(listed)
      {
        assert nodes[..i + 1][..i] == nodes[..i];
        var device;
        device, devices := Cached(devices, nodes[i].val);
        if device.Err? {
          ListedError(storage.Contents(), nodes, i + 1);
          return Err(NotFound);
        }
        var found := FindById(device.value.resources, nodes[i].key);
        if found.Some? { listed := listed + [found.value]; }
      }
      assert nodes[..|nodes|] == nodes;
      r := Ok(listed);
    }

    method FilterResources(matches: Resource -> Query.Verdict, page: int, perPage: int)
      returns (r: Result<(seq<Resource>, nat)>)
      requires Valid()
      ensures r == FilterResourcesSpec(State(), matches, page, perPage)
    {
      NodesOfView(ridDid.items);
      var found := CollectMatching(ridDid.items, matches);
      if found.Err? { return Err(found.error); }
      r := Query.CutPage(found.value, page, perPage);
    }

    method CollectMatching(nodes: seq<Node<string>>, matches: Resource -> Query.Verdict)
      returns (r: Result<seq<Resource>>)
      requires storage.Valid()
      ensures r == Filtered(storage.Contents(), nodes, matches)
    {
      var devices: map<string, Device> := map[];
      var found: seq<Resource> := [];
      for i := 0 to |nodes|
        invariant Caches(devices) && Filtered(storage.Contents(), nodes[..i], matches) == Ok(found)
      {
        assert nodes[..i + 1][..i] == nodes[..i];
        var device;
        device, devices := Cached(devices, nodes[i].val);
        if device.Err? {
          FilteredError(storage.Contents(), nodes, matches, i + 1);
          return Err(NotFound);
        }
        var more := MatchById(device.value.resources, nodes[i].key, matches);
        if more.Err? {
          FilteredError(storage.Contents(), nodes, matches, i + 1);
          return Err(more.error);
        }
        found := found + more.value;
      }
      assert nodes[..|nodes|] == nodes;
      r := Ok(found);
    }
  }

  /** Matches every resource with the given id; the first that cannot be matched ends it. */
  method MatchById(rs: seq<Resource>, id: string, matches: Resource -> Query.Verdict) returns (r: Result<seq<Resource>>)
    ensures r == Query.Answer(AllWith(rs, id), matches)
  {
    var found: seq<Resource> := [];
    for i := 0 to |rs|
      invariant Query.Answer(AllWith(rs[..i], id), matches) == Ok(found)
    {
      assert rs[..i + 1][..i] == rs[..i];
      if rs[i].id == id {
        Query.AnswerNext(AllWith(rs[..i], id), rs[i], matches);
        var next := Query.Next(found, rs[i], matches(rs[i]));
        if next.Err? {
          AllWithPrefix(rs, i + 1, id);
          assert AllWith(rs, id)[..|AllWith(rs[..i + 1], id)|] == AllWith(rs[..i + 1], id);
          Query.FaultStays(AllWith(rs, id), |AllWith(rs[..i + 1], id)|, matches);
          return next;
        }
        found := next.value;
      }
    }
    assert rs[..|rs|] == rs;
    r := Ok(found);
  }

  lemma {:induction false} AllWithPrefix(rs: seq<Resource>, n: nat, id: string)
    requires n <= |rs|
    ensures AllWith(rs[..n], id) <= AllWith(rs, id)
    decreases |rs|
  {
    if n == |rs| {
      assert rs[..n] == rs;
    } else {
      assert rs[..|rs| - 1][..n] == rs[..n];
      AllWithPrefix(rs[..|rs| - 1], n, id);
    }
  }

  /** The first resource with the given id. */
  method FindById(rs: seq<Resource>, id: string) returns (r: Option<Resource>)
    ensures r == FirstWith(rs, id)
  {
    r := None;
    for i := 0 to |rs|
      invariant r == None == FirstWith(rs[..i], id)
    {
      assert rs[..i + 1][..i] == rs[..i];
      if rs[i].id == id {
        FirstWithPrefix(rs, i + 1, id);
        return Some(rs[i]);
      }
    }
    assert rs[..|rs|] == rs;
  }

  lemma {:induction false} FirstWithPrefix(rs: seq<Resource>, n: nat, id: string)
    requires n <= |rs| && FirstWith(rs[..n], id).Some?
    ensures FirstWith(rs, id) == FirstWith(rs[..n], id)
    decreases |rs|
  {
    if n < |rs| {
      assert rs[..|rs| - 1][..n] == rs[..n];
      FirstWithPrefix(rs[..|rs| - 1], n, id);
    } else {
      assert rs[..n] == rs;
    }
  }

  lemma EvictIds(s: State, gone: set<string>, id: string)
    requires id in s.store
    ensures AllIds(Owns(s.store), gone + {id}) == AllIds(Owns(s.store), gone) + Ids(s.store[id].resources)
    ensures s.store - gone - {id} == s.store - (gone + {id})
  {
    assert id in Owns(s.store) && Owns(s.store)[id] == Ids(s.store[id].resources);
  }

  /** A device's own removal leaves no expiry entry of it. */
  lemma GoneAfterRemoval(s: State, stored: Device, e: Entry)
    requires Good(s) && stored.id in s.store && stored == s.store[stored.id]
    requires e in Unindexed(Expiry.Literal, s.exp, stored)
    ensures e.id != stored.id
  {
    Expiry.InEntries(Abstract(s).live, e);
  }

  method AddRids(tree: UniqueTree<string>, rs: seq<Resource>, did: string)
    requires tree.Valid()
    modifies tree
    ensures tree.Valid() && tree.Contents() == IndexAdd(old(tree.Contents()), Ids(rs), did)
  {
    for i := 0 to |rs|
      invariant tree.Valid() && tree.Contents() == IndexAdd(old(tree.Contents()), Ids(rs[..i]), did)
    {
      IdsExtend(rs, i);
      IndexAddOne(old(tree.Contents()), Ids(rs[..i]), rs[i].id, did);
      var _ := tree.Add(rs[i].id, did);
    }
    assert rs[..|rs|] == rs;
  }

  method RemoveRids(tree: UniqueTree<string>, rs: seq<Resource>)
    requires tree.Valid()
    modifies tree
    ensures tree.Valid() && tree.Contents() == old(tree.Contents()) - Ids(rs)
  {
    for i := 0 to |rs|
      invariant tree.Valid() && tree.Contents() == old(tree.Contents()) - Ids(rs[..i])
    {
      var _ := tree.Remove(rs[i].id);
      IdsExtend(rs, i);
    }
    assert rs[..|rs|] == rs;
  }

  lemma IndexAddOne(rid: map<string, string>, ids: set<string>, x: string, did: string)
    ensures var m := IndexAdd(rid, ids, did);
      IndexAdd(rid, ids + {x}, did) == if x in m then m else m[x := did]
  {
  }

  lemma IdsExtend(rs: seq<Resource>, i: nat)
    requires i < |rs|
    ensures Ids(rs[..i + 1]) == Ids(rs[..i]) + {rs[i].id}
  {
    assert rs[..i + 1] == rs[..i] + [rs[i]];
  }

  lemma Append<T>(done: seq<T>, more: seq<T>)
    ensures done + more[..0] == done && done + more[..|more|] == done + more
  {
  }

  lemma AppendNext(done: seq<Device>, more: seq<Device>, i: nat)
    requires i < |more| && DevicesDistinct(done + more)
    ensures done + more[..i + 1] == done + more[..i] + [more[i]]
    ensures DevicesDistinct(done + more[..i] + [more[i]])
  {
    assert done + more[..i + 1] == done + more[..i] + [more[i]];
    DistinctFront(done + more, done + more[..i + 1]);
  }
}
