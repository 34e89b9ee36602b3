/** The index of resources agrees with the stored devices: exactly when it does, and over whole runs. */
module ResourceProofs {
  import opened Prelude
  import opened Tree
  import opened Devices
  import opened ResourceCatalog
  import Expiry
  import Order
  import Storage
  import Urn

  // ---- Generated resource ids ----

  lemma {:induction false} BlanksGrow(rs: seq<Resource>, i: nat, j: nat)
    requires i < j < |rs| && rs[j].id == ""
    ensures Blanks(rs[..i + 1]) < Blanks(rs[..j + 1])
    decreases j
  {
    assert rs[..j + 1][..j] == rs[..j];
    BlanksMonotone(rs, i + 1, j);
  }

  lemma {:induction false} BlanksMonotone(rs: seq<Resource>, i: nat, j: nat)
    requires i <= j <= |rs|
    ensures Blanks(rs[..i]) <= Blanks(rs[..j])
    decreases j
  {
    if i < j {
      assert rs[..j][..j - 1] == rs[..j - 1];
      BlanksMonotone(rs, i, j - 1);
    }
  }

  lemma FilledIds(env: Env, rs: seq<Resource>, c: nat, url: string)
    ensures Ids(SortById(Fill(env, rs, c, url))) == set i | 0 <= i < |rs| :: FilledId(env, rs, i, c)
  {
    var filled := Fill(env, rs, c, url);
    SortedIds(filled);
    forall x | x in Ids(filled) ensures exists i | 0 <= i < |rs| :: x == FilledId(env, rs, i, c) {
      var r :| r in filled && r.id == x;
      var i :| 0 <= i < |filled| && filled[i] == r;
      assert x == FilledId(env, rs, i, c);
    }
    forall i | 0 <= i < |rs| ensures FilledId(env, rs, i, c) in Ids(filled) { assert filled[i] in filled; }
  }

  /** A number that is about to be generated is already the id of something else: of a resource in the same request,
      or of an indexed resource of another device. The caller can tell before the call. */
  ghost predicate Clash(env: Env, rid: map<string, string>, rs: seq<Resource>, c: nat, owner: string) {
    exists i | 0 <= i < |rs| && rs[i].id == "" ::
      var x := FilledId(env, rs, i, c);
      x in UserIds(rs) || (x in rid && rid[x] != owner)
  }

  lemma BlanksDiffer(env: Env, rs: seq<Resource>, c: nat, i: nat, j: nat)
    requires i < j < |rs| && rs[i].id == "" && rs[j].id == ""
    ensures FilledId(env, rs, i, c) != FilledId(env, rs, j, c)
  {
    BlanksGrow(rs, i, j);
    Urn.MakeInjective(Urn.ResourceKind, env.start + c + Blanks(rs[..i + 1]),
                      Urn.ResourceKind, env.start + c + Blanks(rs[..j + 1]));
  }

  lemma FilledIdIsUserId(env: Env, rs: seq<Resource>, i: nat, c: nat)
    requires i < |rs| && rs[i].id != ""
    ensures FilledId(env, rs, i, c) == rs[i].id && rs[i].id in UserIds(rs)
  {
    assert rs[i] in rs;
  }

  /** No identifier to be generated is one that the user gave in the same request. */
  ghost predicate NoneUser(env: Env, rs: seq<Resource>, c: nat) {
    forall i | 0 <= i < |rs| && rs[i].id == "" :: FilledId(env, rs, i, c) !in UserIds(rs)
  }

  ghost predicate AllDiffer(env: Env, rs: seq<Resource>, c: nat) {
    forall i, j | 0 <= i < j < |rs| :: FilledId(env, rs, i, c) != FilledId(env, rs, j, c)
  }

  lemma FillDiffers(env: Env, rs: seq<Resource>, c: nat, url: string)
    ensures IdsDistinct(Fill(env, rs, c, url)) <==> AllDiffer(env, rs, c)
  {
    var filled := Fill(env, rs, c, url);
    assert forall i | 0 <= i < |rs| :: filled[i].id == FilledId(env, rs, i, c);
  }

  lemma IdsDiffer(env: Env, rs: seq<Resource>, c: nat)
    requires UserIdsDistinct(rs)
    ensures AllDiffer(env, rs, c) <==> NoneUser(env, rs, c)
  {
    if NoneUser(env, rs, c) {
      forall i, j | 0 <= i < j < |rs| ensures FilledId(env, rs, i, c) != FilledId(env, rs, j, c) {
        if rs[i].id == "" && rs[j].id == "" { BlanksDiffer(env, rs, c, i, j); }
        if rs[i].id != "" { FilledIdIsUserId(env, rs, i, c); }
        if rs[j].id != "" { FilledIdIsUserId(env, rs, j, c); }
      }
    } else {
      var i :| 0 <= i < |rs| && rs[i].id == "" && FilledId(env, rs, i, c) in UserIds(rs);
      var r :| r in rs && r.id != "" && r.id == FilledId(env, rs, i, c);
      var j :| 0 <= j < |rs| && rs[j] == r;
      assert FilledId(env, rs, j, c) == FilledId(env, rs, i, c);
    }
  }

  // ---- One operation ----

  lemma PutInverse(owns: map<string, set<string>>, rid: map<string, string>, id: string, ids: set<string>)
    requires Inverse(owns, rid)
    ensures var dropped := if id in owns then owns[id] else {};
      Inverse(owns[id := ids], IndexAdd(rid - dropped, ids, id)) <==> forall x | x in ids && x in rid :: rid[x] == id
  {
    var dropped := if id in owns then owns[id] else {};
    var owns', rid' := owns[id := ids], IndexAdd(rid - dropped, ids, id);
    if x :| x in ids && x in rid && rid[x] != id {
      var other := rid[x];
      assert other in owns' && owns'[other] == owns[other] && owns'[id] == ids;
      assert x in owns'[other] && x in owns'[id];
      assert rid'[x] != id || rid'[x] != other;
      assert !Inverse(owns', rid');
    } else {
      forall did, x | did in owns' && x in owns'[did] ensures x in rid' && rid'[x] == did {
        if did != id { assert x in rid && rid[x] == did; }
      }
    }
  }

  /** Storing `device` under `id`, after dropping the index entries of what was stored there. */
  lemma PutExact(store: map<string, Device>, rid: map<string, string>, id: string, device: Device)
    requires RidExact(store, rid)
    ensures var dropped := if id in store then Ids(store[id].resources) else {};
      RidExact(store[id := device], IndexAdd(rid - dropped, Ids(device.resources), id)) <==>
      StrictById(device.resources) && forall x | x in Ids(device.resources) && x in rid :: rid[x] == id
  {
    PutInverse(Owns(store), rid, id, Ids(device.resources));
    var store' := store[id := device];
    assert Owns(store') == Owns(store)[id := Ids(device.resources)];
    assert ListsStrict(store') <==> StrictById(device.resources) by { assert store'[id] == device; }
  }

  lemma {:induction false} NoneTaken(rid: map<string, string>, rs: seq<Resource>)
    requires FirstTaken(rid, rs) == |rs|
    ensures forall x | x in UserIds(rs) :: x !in rid
  {
    if rs == [] {
    } else {
      NoneTaken(rid, rs[..|rs| - 1]);
      assert rs == rs[..|rs| - 1] + [rs[|rs| - 1]];
    }
  }

  /** A filled-in device is indexed exactly unless a generated id clashes. */
  lemma FilledExact(env: Env, rid: map<string, string>, rs: seq<Resource>, c: nat, url: string, id: string)
    requires UserIdsDistinct(rs)
    requires forall x | x in UserIds(rs) && x in rid :: rid[x] == id
    ensures var out := SortById(Fill(env, rs, c, url));
      StrictById(out) && (forall x | x in Ids(out) && x in rid :: rid[x] == id) <==> !Clash(env, rid, rs, c, id)
  {
    var out := SortById(Fill(env, rs, c, url));
    FilledIds(env, rs, c, url);
    FillDiffers(env, rs, c, url);
    IdsDiffer(env, rs, c);
    StrictIffDistinct(Fill(env, rs, c, url));
    forall i | 0 <= i < |rs| && rs[i].id != "" ensures FilledId(env, rs, i, c) in UserIds(rs) {}
    if Clash(env, rid, rs, c, id) {
      var i :| 0 <= i < |rs| && rs[i].id == "" &&
        var x := FilledId(env, rs, i, c); x in UserIds(rs) || (x in rid && rid[x] != id);
      assert FilledId(env, rs, i, c) in Ids(out);
    }
  }

  lemma RegisteredExact(env: Env, s: State, d: Device, id: string, now: int, c: nat)
    requires RidExact(s.store, s.rid) && UserIdsDistinct(d.resources) && id !in s.store
    requires FirstTaken(s.rid, d.resources) == |d.resources|
    ensures var device := Registered(env, d, id, now, c);
      RidExact(s.store[id := device], IndexAdd(s.rid, Ids(device.resources), id)) <==>
      !Clash(env, s.rid, d.resources, c, id)
  {
    NoneTaken(s.rid, d.resources);
    FilledExact(env, s.rid, d.resources, c, DeviceUrl(env, id), id);
    PutExact(s.store, s.rid, id, Registered(env, d, id, now, c));
    assert s.rid - {} == s.rid;
  }

  /** An add that succeeds keeps the index of resources exact if and only if no generated id clashes. */
  lemma AddExactIff(env: Env, s: State, d: Device, now: int)
    requires RidExact(s.store, s.rid) && AddSpec(env, s, d, now).1.Done?
    ensures var (s', outcome) := AddSpec(env, s, d, now);
      RidExact(s'.store, s'.rid) <==>
      !Clash(env, s.rid, d.resources, DeviceId(env, s, d).1, outcome.id)
  {
    var (id, c) := DeviceId(env, s, d);
    RegisteredExact(env, s, d, id, now, c);
  }

  lemma RenewedExact(env: Env, s: State, id: string, d: Device, now: int)
    requires RidExact(s.store, s.rid) && UserIdsDistinct(d.resources) && id in s.store
    requires forall r | r in d.resources :: !TakenByOther(s.rid, r, id)
    ensures var device := Renewed(env, s.store[id], d, now, s.counter);
      RidExact(s.store[id := device], IndexAdd(s.rid - Ids(s.store[id].resources), Ids(device.resources), id)) <==>
      !Clash(env, s.rid, d.resources, s.counter, id)
  {
    FilledExact(env, s.rid, d.resources, s.counter, s.store[id].url, id);
    PutExact(s.store, s.rid, id, Renewed(env, s.store[id], d, now, s.counter));
  }

  /** So does an update; ids of the device's own stored resources never count against it. */
  lemma UpdateExactIff(env: Env, rule: Expiry.TieRule, s: State, id: string, d: Device, now: int)
    requires RidExact(s.store, s.rid) && StoreOk(s.store) && UpdateSpec(env, rule, s, id, d, now).1.Done?
    ensures var s' := UpdateSpec(env, rule, s, id, d, now).0;
      RidExact(s'.store, s'.rid) <==> !Clash(env, s.rid, d.resources, s.counter, id)
  {
    RenewedExact(env, s, id, d, now);
  }

  lemma RemovalInverse(owns: map<string, set<string>>, rid: map<string, string>, dids: set<string>)
    requires Inverse(owns, rid)
    ensures Inverse(owns - dids, rid - AllIds(owns, dids))
  {
    var owns', rid' := owns - dids, rid - AllIds(owns, dids);
    forall x | x in rid' ensures rid'[x] in owns' && x in owns'[rid'[x]] {
      assert rid[x] in dids ==> x in AllIds(owns, dids);
    }
  }

  lemma RemovalExact(s: State, dids: set<string>)
    requires RidExact(s.store, s.rid)
    ensures RidExact(s.store - dids, s.rid - AllIds(Owns(s.store), dids))
  {
    RemovalInverse(Owns(s.store), s.rid, dids);
    assert Owns(s.store - dids) == Owns(s.store) - dids;
  }

  /** Deleting and sweeping always keep the index of resources exact. */
  lemma DeleteExact(rule: Expiry.TieRule, s: State, id: string)
    requires RidExact(s.store, s.rid)
    ensures var s' := DeleteSpec(rule, s, id).0; RidExact(s'.store, s'.rid)
  {
    if id in s.store {
      RemovalExact(s, {id});
      assert id in Owns(s.store);
      assert AllIds(Owns(s.store), {id}) == Owns(s.store)[id];
    }
  }

  lemma SweepExact(s: State, t: int)
    requires RidExact(s.store, s.rid)
    ensures var s' := SweepSpec(s, t); RidExact(s'.store, s'.rid)
  {
    RemovalExact(s, Expiry.Due(s.exp, t));
  }

  // ---- Rebuilding both indices from a listing of the store ----

  /** A listing of devices with distinct ids and consistent expiry times. */
  ghost predicate DevicesDistinct(devices: seq<Device>) {
    && (forall i | 0 <= i < |devices| :: devices[i].expires.Some? <==> devices[i].ttl != 0)
    && (forall i, j | 0 <= i < j < |devices| :: devices[i].id != devices[j].id)
  }

  lemma DistinctFront(all: seq<Device>, front: seq<Device>)
    requires DevicesDistinct(all) && front <= all
    ensures DevicesDistinct(front)
  {
  }

  /** The listing of a store has every stored device once. */
  lemma InOrderDevices(store: map<string, Device>)
    requires StoreOk(store)
    ensures DevicesDistinct(Storage.InOrder(store))
    ensures forall d: Device :: d in Storage.InOrder(store) <==> d.id in store && store[d.id] == d
  {
    var all := Storage.InOrder(store);
    Storage.InOrderKeyed(store, (d: Device) => d.id);
    assert forall i | 0 <= i < |all| :: all[i] in all;
  }

  lemma ExtendRebuild(before: seq<Device>, d: Device)
    requires DevicesDistinct(before + [d])
    ensures RebuildRid(before + [d]) == IndexAdd(RebuildRid(before), Ids(d.resources), d.id)
    ensures RebuildExp(before + [d]) == RebuildExp(before) + EntryOf(d)
    ensures forall e | e in RebuildExp(before) :: e.id != d.id
  {
    var all := before + [d];
    assert all[..|all| - 1] == before;
    assert forall i | 0 <= i < |before| :: all[i] == before[i];
    assert all[|before|] == d;
  }

  lemma RebuiltEntries(store: map<string, Device>)
    requires StoreOk(store)
    ensures RebuildExp(Storage.InOrder(store)) == Expiry.Entries(map id | id in store :: store[id].expires)
  {
    InOrderDevices(store);
    EntriesOfDevices(Storage.InOrder(store), store, map id | id in store :: store[id].expires);
  }

  lemma EntriesOfDevices(all: seq<Device>, store: map<string, Device>, live: map<string, Option<int>>)
    requires forall d: Device :: d in all <==> d.id in store && store[d.id] == d
    requires forall id | id in store :: store[id].id == id
    requires live.Keys == store.Keys && forall id | id in store :: live[id] == store[id].expires
    ensures RebuildExp(all) == Expiry.Entries(live)
  {
    forall e | e in Expiry.Entries(live) ensures e in RebuildExp(all) {
      var d := store[e.id];
      assert d in all && e == Entry(d.expires.value, d.id);
    }
  }

  // ---- When the rebuilt index of resources is exact ----

  /** No resource id is owned by two devices. */
  ghost predicate NoneShared(owns: map<string, set<string>>) {
    forall a, b, x | a in owns && b in owns && x in owns[a] && x in owns[b] :: a == b
  }

  ghost predicate OwnedIn(devices: seq<Device>, x: string, did: string) {
    exists d | d in devices :: d.id == did && x in Ids(d.resources)
  }

  /** The index of a listing has the ids of all its devices, and each for a device that owns it. */
  lemma {:induction false} RebuildOwned(devices: seq<Device>)
    ensures forall x | x in RebuildRid(devices) :: OwnedIn(devices, x, RebuildRid(devices)[x])
    ensures forall d, x | d in devices && x in Ids(d.resources) :: x in RebuildRid(devices)
  {
    if devices == [] {
    } else {
      var front, last := devices[..|devices| - 1], devices[|devices| - 1];
      assert devices == front + [last];
      RebuildOwned(front);
      forall x | x in RebuildRid(devices) ensures OwnedIn(devices, x, RebuildRid(devices)[x]) {
        if x in RebuildRid(front) {
          assert OwnedIn(front, x, RebuildRid(front)[x]);
        } else {
          assert last in devices;
        }
      }
    }
  }

  /** The index has what the devices own, and nothing else; an id that two devices own is there for one of them. */
  ghost predicate Knows(owns: map<string, set<string>>, rid: map<string, string>) {
    && (forall x | x in rid :: rid[x] in owns && x in owns[rid[x]])
    && (forall did, x | did in owns && x in owns[did] :: x in rid)
  }

  lemma InverseIff(owns: map<string, set<string>>, rid: map<string, string>)
    requires Knows(owns, rid)
    ensures Inverse(owns, rid) <==> NoneShared(owns)
  {
    if Inverse(owns, rid) {
      forall a, b, x | a in owns && b in owns && x in owns[a] && x in owns[b] ensures a == b {
        assert rid[x] == a;
        assert rid[x] == b;
      }
    }
    if NoneShared(owns) {
      forall did, x | did in owns && x in owns[did] ensures rid[x] == did { assert x in owns[rid[x]]; }
    }
  }

  lemma InverseUnique(owns: map<string, set<string>>, r1: map<string, string>, r2: map<string, string>)
    requires Inverse(owns, r1) && Knows(owns, r2)
    ensures r1 == r2
  {
    forall x | x in r1 ensures x in r2 && r1[x] == r2[x] { assert x in owns[r1[x]]; }
    forall x | x in r2 ensures x in r1 { assert x in owns[r2[x]]; }
  }

  /** The index of the whole store knows what every stored device owns. */
  lemma RebuildKnows(store: map<string, Device>)
    requires StoreOk(store)
    ensures Knows(Owns(store), RebuildRid(Storage.InOrder(store)))
  {
    var all, owns := Storage.InOrder(store), Owns(store);
    var rid := RebuildRid(all);
    InOrderDevices(store);
    RebuildOwned(all);
    forall x | x in rid ensures rid[x] in owns && x in owns[rid[x]] { assert OwnedIn(all, x, rid[x]); }
    forall did, x | did in owns && x in owns[did] ensures x in rid { assert store[did] in all; }
  }

  /** The index built at start-up is exact if and only if the stored lists are strictly sorted and no resource id is
      owned by two devices. */
  lemma RebuildExactIff(store: map<string, Device>)
    requires StoreOk(store)
    ensures RidExact(store, RebuildRid(Storage.InOrder(store))) <==> ListsStrict(store) && NoneShared(Owns(store))
  {
    RebuildKnows(store);
    InverseIff(Owns(store), RebuildRid(Storage.InOrder(store)));
  }

  /** There is only one exact index, so the index built at start-up is the incremental one. */
  lemma RebuildExact(store: map<string, Device>, rid: map<string, string>)
    requires StoreOk(store) && RidExact(store, rid)
    ensures RebuildRid(Storage.InOrder(store)) == rid
  {
    RebuildKnows(store);
    InverseUnique(Owns(store), rid, RebuildRid(Storage.InOrder(store)));
  }
}
