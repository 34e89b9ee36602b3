/** The resource catalog over whole runs: failures, generated ids, expiry, restarts, leases. */
module ResourceRuns {
  import opened Prelude
  import opened Tree
  import opened Devices
  import opened ResourceCatalog
  import opened ResourceProofs
  import Expiry
  import ExpiryLosses
  import JsonModel
  import Storage
  import Urn

  // ---- Outcomes ----

  /** A user-defined resource id of the request is indexed for a device other than `owner`. */
  ghost predicate AsksForTaken(s: State, rs: seq<Resource>, owner: string) {
    exists x | x in UserIds(rs) :: x in s.rid && s.rid[x] != owner
  }

  lemma {:induction false} FirstTakenComplete(rid: map<string, string>, rs: seq<Resource>)
    ensures FirstTaken(rid, rs) == |rs| <==> UserIds(rs) !! rid.Keys
  {
    if rs == [] {
    } else {
      var front, last := rs[..|rs| - 1], rs[|rs| - 1];
      FirstTakenComplete(rid, front);
      assert rs == front + [last];
      assert UserIds(rs) == UserIds(front) + (if last.id != "" then {last.id} else {});
    }
  }

  /** An add fails for exactly these reasons, and a failed one changes nothing but the counter. */
  lemma AddOutcome(env: Env, s: State, d: Device, now: int)
    ensures var (s', outcome) := AddSpec(env, s, d, now);
      && (outcome == Failed(BadRequest) <==> !ValidDevice(env.parses, d))
      && (outcome == Failed(Conflict) <==>
           ValidDevice(env.parses, d) && (!(UserIds(d.resources) !! s.rid.Keys) || IdFor(env, s, d) in s.store))
      && (outcome.Failed? ==> s' == s.(counter := s'.counter) && outcome.error in {BadRequest, Conflict})
      && (outcome == Failed(BadRequest) ==> s'.counter == s.counter)
      && (outcome.Done? ==> outcome.id == IdFor(env, s, d))
      && s.counter <= s'.counter
  {
    FirstTakenComplete(s.rid, d.resources);
  }

  /** The id that a device asks for or, if it asks for none, the next one generated. */
  function IdFor(env: Env, s: State, d: Device): string {
    if d.id != "" then d.id else "urn:ls_device:" + Urn.Hex(env.start + s.counter + 1)
  }

  /** An update fails for exactly these reasons, and a failed one changes nothing at all. */
  lemma UpdateOutcome(env: Env, rule: Expiry.TieRule, s: State, id: string, d: Device, now: int)
    ensures var (s', outcome) := UpdateSpec(env, rule, s, id, d, now);
      && (outcome == Failed(BadRequest) <==> !ValidDevice(env.parses, d))
      && (outcome == Failed(Conflict) <==> ValidDevice(env.parses, d) && AsksForTaken(s, d.resources, id))
      && (outcome == Failed(NotFound) <==>
           ValidDevice(env.parses, d) && !AsksForTaken(s, d.resources, id) && id !in s.store)
      && (outcome.Failed? ==> s' == s)
  {
    if x :| x in UserIds(d.resources) && x in s.rid && s.rid[x] != id {
      var r :| r in d.resources && r.id != "" && r.id == x;
      assert TakenByOther(s.rid, r, id);
    }
    if r :| r in d.resources && TakenByOther(s.rid, r, id) { assert r.id in UserIds(d.resources); }
  }

  /** A device that asks again for resource ids of its own never runs into a conflict. */
  lemma OwnIdsNeverConflict(env: Env, rule: Expiry.TieRule, s: State, id: string, d: Device, now: int)
    requires RidExact(s.store, s.rid) && id in s.store && UserIds(d.resources) <= Ids(s.store[id].resources)
    ensures UpdateSpec(env, rule, s, id, d, now).1 in {Done(id), Failed(BadRequest)}
  {
    UpdateOutcome(env, rule, s, id, d, now);
    forall x | x in UserIds(d.resources) ensures x in s.rid && s.rid[x] == id { assert x in Owns(s.store)[id]; }
  }

  /** A stored resource has what the request gave, and its id or, if that was blank, a new one. */
  ghost predicate Keeps(r: Resource, given: Resource) {
    && r.name == given.name && r.meta == given.meta && r.protocols == given.protocols
    && r.representation == given.representation
    && if given.id != "" then r.id == given.id else exists n: nat :: r.id == "urn:ls_resource:" + Urn.Hex(n)
  }

  /** The stored resources are those of the request, in another order. */
  ghost predicate KeepsAll(stored: seq<Resource>, given: seq<Resource>) {
    exists made: seq<Resource> | multiset(made) == multiset(stored) ::
      |made| == |given| && forall i | 0 <= i < |made| :: Keeps(made[i], given[i])
  }

  lemma StampKeeps(env: Env, rs: seq<Resource>, i: nat, c: nat, deviceUrl: string)
    requires i < |rs|
    ensures Keeps(Stamp(env, rs[i], FilledId(env, rs, i, c), deviceUrl), rs[i])
  {
    if rs[i].id == "" {
      assert FilledId(env, rs, i, c) == "urn:ls_resource:" + Urn.Hex(env.start + c + Blanks(rs[..i + 1]));
    }
  }

  lemma FillKeeps(env: Env, rs: seq<Resource>, c: nat, deviceUrl: string)
    ensures KeepsAll(SortById(Fill(env, rs, c, deviceUrl)), rs)
  {
    var made := Fill(env, rs, c, deviceUrl);
    SortPermutes(made);
    forall i | 0 <= i < |made| ensures Keeps(made[i], rs[i]) { StampKeeps(env, rs, i, c, deviceUrl); }
  }

  /** What the controller writes into each of them. */
  lemma FillStamps(env: Env, rs: seq<Resource>, c: nat, deviceUrl: string)
    ensures forall r | r in SortById(Fill(env, rs, c, deviceUrl)) ::
      r.url == env.apiLocation + "/resources/" + r.id && r.typ == "Resource" && r.device == deviceUrl
  {
    var made := Fill(env, rs, c, deviceUrl);
    SortPermutes(made);
    forall r | r in SortById(made)
      ensures r.url == env.apiLocation + "/resources/" + r.id && r.typ == "Resource" && r.device == deviceUrl
    {
      assert r in multiset(SortById(made)) && r in multiset(made) && r in made;
      var i :| 0 <= i < |made| && made[i] == r;
    }
  }

  lemma RegisteredContents(env: Env, d: Device, id: string, now: int, c: nat)
    ensures var stored := Registered(env, d, id, now, c);
      && stored.id == id && stored.url == env.apiLocation + "/devices/" + id && stored.typ == "Device"
      && stored.name == d.name && stored.meta == d.meta && stored.description == d.description && stored.ttl == d.ttl
      && stored.created == stored.updated == now
      && stored.expires == (if d.ttl == 0 then None else Some(now + d.ttl * 1_000_000_000))
  {
  }

  lemma RenewedContents(env: Env, before: Device, d: Device, now: int, c: nat)
    ensures var stored := Renewed(env, before, d, now, c);
      && stored.id == before.id && stored.url == before.url && stored.created == before.created
      && stored.typ == "Device"
      && stored.name == d.name && stored.meta == d.meta && stored.description == d.description && stored.ttl == d.ttl
      && stored.updated == now
      && stored.expires == (if d.ttl == 0 then None else Some(now + d.ttl * 1_000_000_000))
  {
  }

  lemma AddedIs(env: Env, s: State, d: Device, now: int) returns (id: string, c: nat)
    requires AddSpec(env, s, d, now).1.Done?
    ensures AddSpec(env, s, d, now).1 == Done(id)
    ensures AddSpec(env, s, d, now).0.store == s.store[id := Registered(env, d, id, now, c)]
  {
    var made := DeviceId(env, s, d);
    id, c := made.0, made.1;
  }

  /** What an add stores: the device as given, stamped, with every requested resource in it once, in the order of ids;
      and nothing else changes. */
  lemma AddStores(env: Env, s: State, d: Device, now: int) returns (id: string, stored: Device)
    requires AddSpec(env, s, d, now).1.Done?
    ensures AddSpec(env, s, d, now).1 == Done(id) && AddSpec(env, s, d, now).0.store == s.store[id := stored]
    ensures stored.id == id && stored.url == env.apiLocation + "/devices/" + id && stored.typ == "Device"
    ensures stored.name == d.name && stored.meta == d.meta && stored.description == d.description && stored.ttl == d.ttl
    ensures stored.created == stored.updated == now
    ensures stored.expires == if d.ttl == 0 then None else Some(now + d.ttl * 1_000_000_000)
    ensures KeepsAll(stored.resources, d.resources) && WeakById(stored.resources)
    ensures forall r | r in stored.resources ::
      r.url == env.apiLocation + "/resources/" + r.id && r.typ == "Resource" && r.device == stored.url
  {
    var c;
    id, c := AddedIs(env, s, d, now);
    stored := Registered(env, d, id, now, c);
    RegisteredContents(env, d, id, now, c);
    SortByIdSorted(Fill(env, d.resources, c, DeviceUrl(env, id)));
    FillStamps(env, d.resources, c, DeviceUrl(env, id));
    FillKeeps(env, d.resources, c, DeviceUrl(env, id));
  }

  lemma UpdatedIs(env: Env, rule: Expiry.TieRule, s: State, id: string, d: Device, now: int)
    requires StoreOk(s.store) && UpdateSpec(env, rule, s, id, d, now).1.Done?
    ensures id in s.store && UpdateSpec(env, rule, s, id, d, now).0.store ==
      s.store[id := Renewed(env, s.store[id], d, now, s.counter)]
  {
  }

  /** What an update stores: it leaves id, URL and creation time alone and takes the rest from the request; and nothing
      else changes. */
  lemma UpdateStores(env: Env, rule: Expiry.TieRule, s: State, id: string, d: Device, now: int) returns (stored: Device)
    requires StoreOk(s.store) && UpdateSpec(env, rule, s, id, d, now).1.Done?
    ensures id in s.store && UpdateSpec(env, rule, s, id, d, now).0.store == s.store[id := stored]
    ensures stored.id == id && stored.url == s.store[id].url && stored.created == s.store[id].created
    ensures stored.typ == "Device"
    ensures stored.name == d.name && stored.meta == d.meta && stored.description == d.description && stored.ttl == d.ttl
    ensures stored.updated == now
    ensures stored.expires == if d.ttl == 0 then None else Some(now + d.ttl * 1_000_000_000)
    ensures KeepsAll(stored.resources, d.resources) && WeakById(stored.resources)
    ensures forall r | r in stored.resources ::
      r.url == env.apiLocation + "/resources/" + r.id && r.typ == "Resource" && r.device == stored.url
  {
    var before := s.store[id];
    stored := Renewed(env, before, d, now, s.counter);
    UpdatedIs(env, rule, s, id, d, now);
    RenewedContents(env, before, d, now, s.counter);
    SortByIdSorted(Fill(env, d.resources, s.counter, before.url));
    FillStamps(env, d.resources, s.counter, before.url);
    FillKeeps(env, d.resources, s.counter, before.url);
  }

  /** Where a request leaves the name of a resource to the catalog. */
  ghost function BlankPlaces(rs: seq<Resource>): set<nat> { set i: nat | i < |rs| && rs[i].id == "" }

  lemma {:induction false} BlanksCount(rs: seq<Resource>)
    ensures Blanks(rs) == |BlankPlaces(rs)|
  {
    if rs == [] {
      assert BlankPlaces(rs) == {};
    } else {
      var n := |rs| - 1;
      BlanksCount(rs[..n]);
      assert BlankPlaces(rs) == BlankPlaces(rs[..n]) + if rs[n].id == "" then {n} else {};
    }
  }

  /** `x` was generated with a counter value after `from` and up to `to`. */
  ghost predicate Generated(env: Env, from: nat, to: nat, x: string) {
    exists n: nat | env.start + from < n <= env.start + to :: x == "urn:ls_resource:" + Urn.Hex(n)
  }

  lemma BlankNumbered(env: Env, rs: seq<Resource>, i: nat, c: nat)
    requires i < |rs| && rs[i].id == ""
    ensures Generated(env, c, c + Blanks(rs), FilledId(env, rs, i, c))
  {
    BlankPosition(rs, i);
    Urn.Shape(env.start + c + Blanks(rs[..i + 1]));
  }

  lemma FillNumbers(env: Env, rs: seq<Resource>, c: nat, url: string, x: string)
    requires x in Ids(SortById(Fill(env, rs, c, url))) && x !in UserIds(rs)
    ensures Generated(env, c, c + |BlankPlaces(rs)|, x)
  {
    FilledIds(env, rs, c, url);
    BlanksCount(rs);
    var i: nat :| i < |rs| && FilledId(env, rs, i, c) == x;
    assert rs[i] in rs;
    BlankNumbered(env, rs, i, c);
  }

  /** What an add generates: one identifier for the device if it has none, then one for each resource without. */
  lemma AddNumbers(env: Env, s: State, d: Device, now: int)
    requires AddSpec(env, s, d, now).1.Done?
    ensures var (s', outcome) := AddSpec(env, s, d, now); var c := if d.id == "" then s.counter + 1 else s.counter;
      && s'.counter == c + |BlankPlaces(d.resources)|
      && outcome.id in s'.store
      && forall x | x in Ids(s'.store[outcome.id].resources) ::
           x in UserIds(d.resources) || Generated(env, c, s'.counter, x)
  {
    var (id, c) := DeviceId(env, s, d);
    BlanksCount(d.resources);
    var stored := SortById(Fill(env, d.resources, c, DeviceUrl(env, id)));
    forall x | x in Ids(stored) && x !in UserIds(d.resources)
      ensures Generated(env, c, c + |BlankPlaces(d.resources)|, x)
    {
      FillNumbers(env, d.resources, c, DeviceUrl(env, id), x);
    }
  }

  lemma {:induction false} FirstTakenSplits(rid: map<string, string>, rs: seq<Resource>)
    ensures var k := FirstTaken(rid, rs);
      && (forall i | 0 <= i < k :: rs[i].id == "" || rs[i].id !in rid)
      && (k < |rs| ==> rs[k].id != "" && rs[k].id in rid)
  {
    if rs != [] {
      FirstTakenSplits(rid, rs[..|rs| - 1]);
    }
  }

  /** An add that ends in a conflict has generated the identifier of the device, if that has none, and one for each
      resource without before the first that asks for a taken one. */
  lemma ConflictNumbers(env: Env, s: State, d: Device, now: int) returns (k: nat)
    requires AddSpec(env, s, d, now).1 == Failed(Conflict)
    ensures k <= |d.resources| && (k < |d.resources| ==> d.resources[k].id != "" && d.resources[k].id in s.rid)
    ensures forall i | 0 <= i < k :: d.resources[i].id == "" || d.resources[i].id !in s.rid
    ensures AddSpec(env, s, d, now).0.counter ==
      s.counter + (if d.id == "" then 1 else 0) + |BlankPlaces(d.resources[..k])|
  {
    k := FirstTaken(s.rid, d.resources);
    FirstTakenSplits(s.rid, d.resources);
    BlanksCount(d.resources[..k]);
    assert d.resources[..|d.resources|] == d.resources;
  }

  /** An update generates one for each resource without. */
  lemma UpdateNumbers(env: Env, rule: Expiry.TieRule, s: State, id: string, d: Device, now: int)
    requires StoreOk(s.store) && UpdateSpec(env, rule, s, id, d, now).1.Done?
    ensures var s' := UpdateSpec(env, rule, s, id, d, now).0;
      && s'.counter == s.counter + |BlankPlaces(d.resources)|
      && id in s'.store
      && forall x | x in Ids(s'.store[id].resources) ::
           x in UserIds(d.resources) || Generated(env, s.counter, s'.counter, x)
  {
    var c, url := s.counter, s.store[id].url;
    BlanksCount(d.resources);
    forall x | x in Ids(SortById(Fill(env, d.resources, c, url))) && x !in UserIds(d.resources)
      ensures Generated(env, c, c + |BlankPlaces(d.resources)|, x)
    {
      FillNumbers(env, d.resources, c, url, x);
    }
  }

  // ---- Generated ids and the index of resources ----

  /** `x` is a resource id that is still to be generated after counter value `c`. */
  ghost predicate Future(env: Env, c: nat, x: string) {
    Urn.NumberIn(Urn.ResourceKind, x) > env.start + c
  }

  ghost predicate NoFuture(env: Env, c: nat, ids: set<string>) {
    forall x | x in ids :: !Future(env, c, x)
  }

  /** The user does not ask for ids that are still to be generated. */
  ghost predicate InputOk(env: Env, s: State, op: Op) {
    match op
    case Add(d, _) => NoFuture(env, s.counter, UserIds(d.resources))
    case Update(_, d, _) => NoFuture(env, s.counter, UserIds(d.resources))
    case Delete(_) => true
    case Sweep(_) => true
  }

  lemma BlankPosition(rs: seq<Resource>, i: nat)
    requires i < |rs| && rs[i].id == ""
    ensures 1 <= Blanks(rs[..i + 1]) <= Blanks(rs)
  {
    assert rs[..i + 1][..i] == rs[..i];
    BlanksMonotone(rs, i + 1, |rs|);
    assert rs[..|rs|] == rs;
  }

  lemma FilledNumber(env: Env, rs: seq<Resource>, i: nat, c: nat)
    requires i < |rs| && rs[i].id == ""
    ensures Urn.NumberIn(Urn.ResourceKind, FilledId(env, rs, i, c)) == env.start + c + Blanks(rs[..i + 1])
  {
    Urn.NumberInMade(Urn.ResourceKind, env.start + c + Blanks(rs[..i + 1]));
  }

  /** An id generated from counter `c` was still to be generated then, and no longer is once `after` is reached. */
  lemma FilledIsFuture(env: Env, rs: seq<Resource>, i: nat, c: nat, after: nat, x: string)
    requires i < |rs| && rs[i].id == "" && x == FilledId(env, rs, i, c) && after == c + Blanks(rs)
    ensures Future(env, c, x) && !Future(env, after, x)
  {
    BlankPosition(rs, i);
    FilledNumber(env, rs, i, c);
  }

  lemma FutureShrinks(env: Env, c: nat, c': nat, ids: set<string>)
    requires c <= c' && NoFuture(env, c, ids)
    ensures NoFuture(env, c', ids)
  {
    forall x | x in ids ensures !Future(env, c', x) {
      assert Future(env, c', x) ==> Future(env, c, x);
    }
  }

  /** Ids that are not still to be generated cannot clash with generated ones. */
  lemma NoClash(env: Env, rid: map<string, string>, rs: seq<Resource>, c: nat, owner: string)
    requires NoFuture(env, c, rid.Keys) && NoFuture(env, c, UserIds(rs))
    ensures !Clash(env, rid, rs, c, owner)
  {
    forall i | 0 <= i < |rs| && rs[i].id == ""
      ensures FilledId(env, rs, i, c) !in UserIds(rs) && FilledId(env, rs, i, c) !in rid
    {
      FilledIsFuture(env, rs, i, c, c + Blanks(rs), FilledId(env, rs, i, c));
    }
  }

  lemma FilledNoFuture(env: Env, rs: seq<Resource>, c: nat, url: string, after: nat)
    requires NoFuture(env, c, UserIds(rs)) && after == c + Blanks(rs)
    ensures NoFuture(env, after, Ids(SortById(Fill(env, rs, c, url))))
  {
    FilledIds(env, rs, c, url);
    FutureShrinks(env, c, after, UserIds(rs));
    forall i | 0 <= i < |rs| ensures !Future(env, after, FilledId(env, rs, i, c)) {
      if rs[i].id == "" {
        FilledIsFuture(env, rs, i, c, after, FilledId(env, rs, i, c));
      } else {
        FilledIdIsUserId(env, rs, i, c);
      }
    }
  }

  ghost predicate Exact(env: Env, s: State) {
    RidExact(s.store, s.rid) && NoFuture(env, s.counter, s.rid.Keys)
  }

  lemma IndexAddNoFuture(env: Env, c: nat, rid: map<string, string>, ids: set<string>, did: string)
    requires NoFuture(env, c, rid.Keys) && NoFuture(env, c, ids)
    ensures NoFuture(env, c, IndexAdd(rid, ids, did).Keys)
  {
  }

  lemma AddKeepsExact(env: Env, s: State, d: Device, now: int)
    requires Exact(env, s) && NoFuture(env, s.counter, UserIds(d.resources))
    ensures Exact(env, AddSpec(env, s, d, now).0)
  {
    var (s', outcome) := AddSpec(env, s, d, now);
    AddOutcome(env, s, d, now);
    FutureShrinks(env, s.counter, s'.counter, s.rid.Keys);
    if outcome.Done? {
      var (id, c) := DeviceId(env, s, d);
      FutureShrinks(env, s.counter, c, s.rid.Keys);
      FutureShrinks(env, s.counter, c, UserIds(d.resources));
      NoClash(env, s.rid, d.resources, c, id);
      AddExactIff(env, s, d, now);
      FilledNoFuture(env, d.resources, c, DeviceUrl(env, id), s'.counter);
      var device := Registered(env, d, id, now, c);
      IndexAddNoFuture(env, s'.counter, s.rid, Ids(device.resources), id);
    }
  }

  lemma UpdateKeepsExact(env: Env, rule: Expiry.TieRule, s: State, id: string, d: Device, now: int)
    requires Exact(env, s) && StoreOk(s.store) && NoFuture(env, s.counter, UserIds(d.resources))
    ensures Exact(env, UpdateSpec(env, rule, s, id, d, now).0)
  {
    var (s', outcome) := UpdateSpec(env, rule, s, id, d, now);
    if outcome.Done? {
      NoClash(env, s.rid, d.resources, s.counter, id);
      UpdateExactIff(env, rule, s, id, d, now);
      FilledNoFuture(env, d.resources, s.counter, s.store[id].url, s'.counter);
      var device := Renewed(env, s.store[id], d, now, s.counter);
      FutureShrinks(env, s.counter, s'.counter, s.rid.Keys);
      IndexAddNoFuture(env, s'.counter, s.rid - Ids(s.store[id].resources), Ids(device.resources), id);
    }
  }

  lemma StepKeepsExact(env: Env, rule: Expiry.TieRule, s: State, op: Op)
    requires Exact(env, s) && StoreOk(s.store) && InputOk(env, s, op)
    ensures Exact(env, Step(env, rule, s, op).0)
  {
    match op
    case Add(d, now) => AddKeepsExact(env, s, d, now);
    case Update(id, d, now) => UpdateKeepsExact(env, rule, s, id, d, now);
    case Delete(id) => DeleteExact(rule, s, id);
    case Sweep(t) => SweepExact(s, t);
  }

  ghost predicate InputsOk(env: Env, rule: Expiry.TieRule, s: State, ops: seq<Op>) {
    forall n | 0 <= n < |ops| :: InputOk(env, Run(env, rule, s, ops[..n]), ops[n])
  }

  /** In every reachable state each expiry entry is true of a stored device. */
  lemma {:induction false} GoodRun(env: Env, rule: Expiry.TieRule, s: State, ops: seq<Op>)
    requires Good(s)
    ensures Good(Run(env, rule, s, ops))
    decreases |ops|
  {
    if ops == [] {
    } else {
      GoodRun(env, rule, s, ops[..|ops| - 1]);
      GoodStep(env, rule, Run(env, rule, s, ops[..|ops| - 1]), ops[|ops| - 1]);
    }
  }

  /** In every reachable state the index of resources is exact. */
  lemma {:induction false} ExactRun(env: Env, rule: Expiry.TieRule, s: State, ops: seq<Op>)
    requires Good(s) && Exact(env, s) && InputsOk(env, rule, s, ops)
    ensures Exact(env, Run(env, rule, s, ops))
    decreases |ops|
  {
    if ops == [] {
    } else {
      var front := ops[..|ops| - 1];
      assert forall n | 0 <= n < |front| :: front[..n] == ops[..n];
      ExactRun(env, rule, s, front);
      GoodRun(env, rule, s, front);
      StepKeepsExact(env, rule, Run(env, rule, s, front), ops[|ops| - 1]);
    }
  }

  // The precondition on ids is needed: a request can name the first id to be generated beside a resource without an id.

  const ENDPOINT := Protocol("REST", map["url" := JsonModel.Null], [], [])

  function Unnamed(id: string): Resource { Resource(id, "", "", "", map[], [ENDPOINT], map[], "") }

  /** The first resource id that a controller generates, if it is the first id of all. */
  function FirstId(env: Env): string { Urn.Make(Urn.ResourceKind, env.start + 1) }

  function Clashing(env: Env): Device {
    Device("dev", "", "", "", map[], "", 0, 0, 0, None, [Unnamed(""), Unnamed(FirstId(env))])
  }

  lemma {:induction false} NoSlashes(s: string)
    requires '/' !in s
    ensures CountSlashes(s) == 0
  {
    if s == "" {
    } else {
      NoSlashes(s[..|s| - 1]);
    }
  }

  lemma {:induction false} HexHasNoSlash(n: nat)
    ensures '/' !in Urn.Hex(n)
  {
    assert forall c | c in Urn.DIGITS :: c != '/';
    assert Urn.DIGITS[n % 16] in Urn.DIGITS;
    if n < 16 {
      assert Urn.DIGITS[n] in Urn.DIGITS;
    } else {
      HexHasNoSlash(n / 16);
    }
  }

  lemma UnnamedIsValid(env: Env, id: string)
    requires env.parses(id) && '/' !in id
    ensures ValidResource(env.parses, Unnamed(id))
  {
    NoSlashes(id);
    assert id != "" ==> id[0] in id;
    assert ENDPOINT.endpoint.Keys == {"url"} && ValidProtocol(ENDPOINT);
  }

  /** The ids of the request can be used in a URL. */
  predicate ClashingParses(env: Env) { env.parses("dev") && env.parses("") && env.parses(FirstId(env)) }

  lemma ClashingIsValid(env: Env)
    requires ClashingParses(env)
    ensures ValidDevice(env.parses, Clashing(env))
  {
    HexHasNoSlash(env.start + 1);
    UnnamedIsValid(env, "");
    UnnamedIsValid(env, FirstId(env));
    assert Clashing(env).resources == [Unnamed(""), Unnamed(FirstId(env))];
  }

  /** A blank id that comes first is filled in with the first id. */
  lemma FirstIdGenerated(env: Env, rs: seq<Resource>)
    requires rs != [] && rs[0].id == ""
    ensures FilledId(env, rs, 0, 0) == FirstId(env)
  {
    assert rs[..1] == [rs[0]] && rs[..1][..0] == [];
    assert Blanks(rs[..1]) == 1;
  }

  lemma ClashingClashes(env: Env)
    ensures Clash(env, map[], Clashing(env).resources, 0, "dev")
  {
    var rs := Clashing(env).resources;
    FirstIdGenerated(env, rs);
    assert rs[1] in rs && rs[1].id == FirstId(env) && rs[0].id == "";
  }

  /** Whatever the start time of the controller, there is an accepted add after which two stored resources have one id,
      and the index of resources is no longer exact. */
  lemma ClashBreaksIndex(env: Env)
    requires ClashingParses(env)
    ensures var s := State(map[], map[], {}, 0); var (s', outcome) := AddSpec(env, s, Clashing(env), 0);
      RidExact(s.store, s.rid) && outcome == Done("dev") && !RidExact(s'.store, s'.rid)
  {
    var s := State(map[], map[], {}, 0);
    ClashingIsValid(env);
    AddOutcome(env, s, Clashing(env), 0);
    assert DeviceId(env, s, Clashing(env)) == ("dev", 0);
    ClashingClashes(env);
    AddExactIff(env, s, Clashing(env), 0);
  }

  // ---- Expiry ----

  /** No sweep at any moment of any run, ties included, deletes a device whose current expiry is after its time; and
      apart from sweeps only a delete makes a device disappear. */
  lemma NeverEarly(env: Env, rule: Expiry.TieRule, s: State, ops: seq<Op>, op: Op, id: string)
    requires Good(s)
    ensures var before := Run(env, rule, s, ops); var after := Step(env, rule, before, op).0;
      id in before.store && id !in after.store ==>
        op == Delete(id) || (op.Sweep? && before.store[id].expires.Some? && before.store[id].expires.value <= op.t)
  {
    GoodRun(env, rule, s, ops);
    var before := Run(env, rule, s, ops);
    var (after, outcome) := Step(env, rule, before, op);
    StepRefines(env, rule, before, op);
    if id in before.store && op.Sweep? { Expiry.SweepRemoves(rule, Abstract(before), op.t, id); }
  }

  /** The operations of the registry machine that a run amounts to. */
  function Effects(env: Env, rule: Expiry.TieRule, s: State, ops: seq<Op>): (es: seq<Expiry.Op>)
    ensures |es| == |ops|
  {
    if ops == [] then []
    else
      var front, op := ops[..|ops| - 1], ops[|ops| - 1];
      var before := Run(env, rule, s, front);
      Effects(env, rule, s, front) + [Effect(env, before, op, Step(env, rule, before, op).1)]
  }

  lemma {:induction false} RunRefines(env: Env, rule: Expiry.TieRule, s: State, ops: seq<Op>)
    requires Good(s)
    ensures Abstract(Run(env, rule, s, ops)) == Expiry.Run(rule, Abstract(s), Effects(env, rule, s, ops))
    decreases |ops|
  {
    if ops == [] {
    } else {
      var front, op := ops[..|ops| - 1], ops[|ops| - 1];
      RunRefines(env, rule, s, front);
      GoodRun(env, rule, s, front);
      StepRefines(env, rule, Run(env, rule, s, front), op);
      var es := Effects(env, rule, s, ops);
      assert es[..|es| - 1] == Effects(env, rule, s, front);
    }
  }

  /** With the intended tie handling the index of expiry times is complete in every reachable state. */
  lemma IntendedComplete(env: Env, s: State, ops: seq<Op>)
    requires Good(s) && Expiry.Complete(Abstract(s))
    ensures Expiry.Complete(Abstract(Run(env, Expiry.Intended, s, ops)))
  {
    RunRefines(env, Expiry.Intended, s, ops);
    Expiry.IntendedCompleteRun(Abstract(s), Effects(env, Expiry.Intended, s, ops));
  }

  lemma {:induction false} EffectsPrefix(env: Env, rule: Expiry.TieRule, s: State, ops: seq<Op>, n: nat)
    requires n <= |ops|
    ensures Effects(env, rule, s, ops)[..n] == Effects(env, rule, s, ops[..n])
    decreases |ops|
  {
    if n == |ops| {
      assert ops[..n] == ops;
    } else {
      assert ops[..|ops| - 1][..n] == ops[..n];
      EffectsPrefix(env, rule, s, ops[..|ops| - 1], n);
    }
  }

  /** The code as it stands keeps the index complete all along a run exactly if it never takes one of two equal times
      out. */
  lemma LiteralCompleteIff(env: Env, s: State, ops: seq<Op>)
    requires Good(s) && Expiry.Complete(Abstract(s))
    ensures (forall n | 0 <= n <= |ops| :: Expiry.Complete(Abstract(Run(env, Expiry.Literal, s, ops[..n])))) <==>
      Expiry.TieFree(Abstract(s), Effects(env, Expiry.Literal, s, ops))
  {
    var es := Effects(env, Expiry.Literal, s, ops);
    ExpiryLosses.AlwaysCompleteIff(Abstract(s), es);
    forall n | 0 <= n <= |ops|
      ensures Abstract(Run(env, Expiry.Literal, s, ops[..n])) == Expiry.Run(Expiry.Literal, Abstract(s), es[..n])
    {
      RunRefines(env, Expiry.Literal, s, ops[..n]);
      EffectsPrefix(env, Expiry.Literal, s, ops, n);
    }
  }

  /** After any run of the code as it stands, a device with an expiry has no entry exactly if some operation took the
      entry of another device with the same time out, and none on the device itself came after. */
  lemma OrphanIffLost(env: Env, s: State, ops: seq<Op>, id: string)
    requires Good(s) && Expiry.Complete(Abstract(s))
    ensures Expiry.Orphan(Abstract(Run(env, Expiry.Literal, s, ops)), id) <==>
      ExpiryLosses.Lost(Abstract(s), Effects(env, Expiry.Literal, s, ops), id)
  {
    RunRefines(env, Expiry.Literal, s, ops);
    ExpiryLosses.OrphanIffLost(Abstract(s), Effects(env, Expiry.Literal, s, ops), id);
  }

  /** A sweep leaves exactly the devices with no expiry, a later one, or no entry; and those it leaves as they are. */
  lemma SweepLeaves(s: State, t: int, id: string)
    requires Good(s) && id in s.store
    ensures id in SweepSpec(s, t).store <==>
      s.store[id].expires.None? || s.store[id].expires.value > t || Expiry.Orphan(Abstract(s), id)
    ensures id in SweepSpec(s, t).store ==> SweepSpec(s, t).store[id] == s.store[id]
  {
    SweptRefines(Expiry.Literal, s, t);
    ExpiryLosses.SweepLeaves(Expiry.Literal, Abstract(s), t, id);
    assert id in SweepSpec(s, t).store <==> id in Abstract(SweepSpec(s, t)).live;
  }

  /** So after any run of the code as it stands a sweep at `t` leaves exactly the devices with no expiry, a later one,
      or one that the run has lost track of. */
  lemma SweepsLeave(env: Env, s: State, ops: seq<Op>, t: int, id: string)
    requires Good(s) && Expiry.Complete(Abstract(s))
    ensures var before := Run(env, Expiry.Literal, s, ops); var after := SweepSpec(before, t);
      id in after.store <==>
      id in before.store && (before.store[id].expires.None? || before.store[id].expires.value > t ||
                             ExpiryLosses.Lost(Abstract(s), Effects(env, Expiry.Literal, s, ops), id))
  {
    GoodRun(env, Expiry.Literal, s, ops);
    OrphanIffLost(env, s, ops, id);
    var before := Run(env, Expiry.Literal, s, ops);
    if id in before.store { SweepLeaves(before, t, id); }
  }

  // ---- Restart ----

  /** What a controller starts with over a storage; see its constructor. */
  ghost function Started(store: map<string, Device>): State {
    State(store, RebuildRid(Storage.InOrder(store)), Expiry.Entries(map id | id in store :: store[id].expires), 0)
  }

  /** What a controller starts with over the storage of another one. */
  ghost function Restarted(s: State): State { Started(s.store) }

  /** From start-up on the index of resources is exact in every reachable state, over any storage with strictly sorted
      lists, no resource id owned by two devices, and none that is still to be generated. */
  lemma ExactFromStart(env: Env, rule: Expiry.TieRule, store: map<string, Device>, ops: seq<Op>)
    requires StoreOk(store) && ListsStrict(store) && NoneShared(Owns(store))
    requires forall did | did in store :: NoFuture(env, 0, Ids(store[did].resources))
    requires InputsOk(env, rule, Started(store), ops)
    ensures Good(Run(env, rule, Started(store), ops)) && Exact(env, Run(env, rule, Started(store), ops))
  {
    var s := Started(store);
    RebuildExactIff(store);
    assert Abstract(s).live == map id | id in store :: store[id].expires;
    forall x | x in s.rid ensures !Future(env, 0, x) {
      assert s.rid[x] in Owns(store) && x in Owns(store)[s.rid[x]];
      assert x in Ids(store[s.rid[x]].resources);
    }
    GoodRun(env, rule, s, ops);
    ExactRun(env, rule, s, ops);
  }

  /** A restart keeps an exact index of resources as it is and completes the index of expiry times: it never loses an
      entry, changes nothing if the index was complete, and otherwise brings back what ties had cost. */
  lemma RestartEquivalent(env: Env, rule: Expiry.TieRule, s: State, ops: seq<Op>)
    requires Good(s) && Exact(env, s) && InputsOk(env, rule, s, ops)
    ensures var before := Run(env, rule, s, ops); var after := Restarted(before);
      && Good(after) && after.store == before.store && after.rid == before.rid
      && before.exp <= after.exp && Expiry.Complete(Abstract(after))
      && (after.exp == before.exp <==> Expiry.Complete(Abstract(before)))
  {
    GoodRun(env, rule, s, ops);
    ExactRun(env, rule, s, ops);
    var before := Run(env, rule, s, ops);
    RebuildExact(before.store, before.rid);
    assert Abstract(before).live == map id | id in before.store :: before.store[id].expires;
    assert Abstract(Restarted(before)).live == Abstract(before).live;
  }

  /** With the intended tie handling a restart is not observable in the indices at all. */
  lemma RestartInvisible(env: Env, s: State, ops: seq<Op>)
    requires Good(s) && Exact(env, s) && InputsOk(env, Expiry.Intended, s, ops) && Expiry.Complete(Abstract(s))
    ensures var before := Run(env, Expiry.Intended, s, ops); Restarted(before) == before.(counter := 0)
  {
    IntendedComplete(env, s, ops);
    RestartEquivalent(env, Expiry.Intended, s, ops);
  }

  // ---- Leases ----

  /** An operation and its time; `mine` marks the renewals of the registrar whose lease is at stake. */
  datatype Timed = Timed(op: Op, at: int, mine: bool)

  function Exec(env: Env, rule: Expiry.TieRule, s: State, trace: seq<Timed>): State
    decreases |trace|
  {
    if trace == [] then s else Exec(env, rule, Step(env, rule, s, trace[0].op).0, trace[1..])
  }

  /** A successful add or update of a device is a renewal as the schedule of the registry asks for: it extends the lease
      by two periods of the ticker. */
  lemma RenewalEffect(env: Env, rule: Expiry.TieRule, s: State, op: Op)
    requires (op.Add? || op.Update?) && op.d.ttl > 0 && Step(env, rule, s, op).1.Done?
    ensures var outcome := Step(env, rule, s, op).1;
      Effect(env, s, op, outcome) == Expiry.Put(outcome.id, Some(op.now + 2 * Expiry.Half(op.d.ttl)))
  {
    Expiry.RenewalExpires(op.d.ttl, op.now);
  }

  /** The registry steps that a trace amounts to; a failed operation is none. */
  function Abstracted(env: Env, rule: Expiry.TieRule, s: State, trace: seq<Timed>): (out: seq<Expiry.Timed>)
    ensures |out| == |trace|
    decreases |trace|
  {
    if trace == [] then []
    else
      var (s', outcome) := Step(env, rule, s, trace[0].op);
      [Expiry.Timed(Effect(env, s, trace[0].op, outcome), trace[0].at, trace[0].mine)] +
      Abstracted(env, rule, s', trace[1..])
  }

  lemma {:induction false} ExecRefines(env: Env, rule: Expiry.TieRule, s: State, trace: seq<Timed>, n: nat)
    requires Good(s) && n <= |trace|
    ensures Abstract(Exec(env, rule, s, trace[..n])) ==
      Expiry.Exec(rule, Abstract(s), Abstracted(env, rule, s, trace)[..n])
    decreases n
  {
    if n == 0 {
    } else {
      var s' := Step(env, rule, s, trace[0].op).0;
      var abs, abs' := Abstracted(env, rule, s, trace), Abstracted(env, rule, s', trace[1..]);
      GoodStep(env, rule, s, trace[0].op);
      StepRefines(env, rule, s, trace[0].op);
      ExecRefines(env, rule, s', trace[1..], n - 1);
      assert trace[..n][0] == trace[0] && trace[..n][1..] == trace[1..][..n - 1];
      assert abs[..n][0] == abs[0] && abs[..n][1..] == abs'[..n - 1];
    }
  }

  /** The lease: from its first registration on, a registration renewed on time is stored after every step of every
      run, whatever else happens in the catalog, ties included. Other clients may write it too, as long as what they
      write lasts until half a life after the next renewal is due; the schedule is that of the registry, see
      `Expiry.Timely`. */
  lemma Lease(env: Env, rule: Expiry.TieRule, s: State, id: string, start: int, ttl: nat, trace: seq<Timed>, n: nat)
    requires Good(s) && 1 <= n <= |trace| && trace[0].mine
    requires Expiry.OnTime(id, start, Expiry.Half(ttl), Abstracted(env, rule, s, trace))
    ensures id in Exec(env, rule, s, trace[..n]).store
  {
    ExecRefines(env, rule, s, trace, n);
    Expiry.LeaseFromStart(rule, Abstract(s), id, start, Expiry.Half(ttl), Abstracted(env, rule, s, trace), n);
  }
}
