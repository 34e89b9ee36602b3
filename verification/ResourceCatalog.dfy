/** What each operation of the resource catalog does to the stored devices and to both secondary indices. */
module ResourceCatalog {
  import opened Prelude
  import opened Tree
  import opened Devices
  import Expiry
  import Urn

  const DEVICE_TYPE := "Device"
  const RESOURCE_TYPE := "Resource"

  /** What the controller is configured with. `start` is its start time in seconds. */
  datatype Env = Env(apiLocation: string, start: nat, parses: string -> bool)

  /** Stored devices by id, resource id to device id, expiry entries, and the number of generated ids. */
  datatype State = State(store: map<string, Device>, rid: map<string, string>, exp: set<Entry>, counter: nat)

  datatype Outcome = Done(id: string) | Failed(error: Error)

  // ---- Filling in a registration ----

  function Blanks(rs: seq<Resource>): nat {
    if rs == [] then 0 else Blanks(rs[..|rs| - 1]) + (if rs[|rs| - 1].id == "" then 1 else 0)
  }

  /** The identifier resource `i` ends up with when the counter starts at `c`. */
  function FilledId(env: Env, rs: seq<Resource>, i: nat, c: nat): string
    requires i < |rs|
  {
    if rs[i].id != "" then rs[i].id else Urn.Make(Urn.ResourceKind, env.start + c + Blanks(rs[..i + 1]))
  }

  function Stamp(env: Env, r: Resource, id: string, deviceUrl: string): Resource {
    r.(id := id, url := env.apiLocation + "/resources/" + id, typ := RESOURCE_TYPE, device := deviceUrl)
  }

  function Fill(env: Env, rs: seq<Resource>, c: nat, deviceUrl: string): (out: seq<Resource>)
    ensures |out| == |rs|
  {
    seq(|rs|, i requires 0 <= i < |rs| => Stamp(env, rs[i], FilledId(env, rs, i, c), deviceUrl))
  }

  function DeviceUrl(env: Env, id: string): string { env.apiLocation + "/devices/" + id }

  /** A new device with its fields set by the controller. */
  function NewDevice(env: Env, d: Device, id: string, now: int, resources: seq<Resource>): Device {
    d.(id := id, url := DeviceUrl(env, id), typ := DEVICE_TYPE, created := now, updated := now,
       expires := Expiry.ExpiresAt(d.ttl, now), resources := resources)
  }

  /** A stored device with what an update may change. */
  function ChangedDevice(stored: Device, d: Device, now: int, resources: seq<Resource>): Device {
    stored.(typ := DEVICE_TYPE, name := d.name, description := d.description, meta := d.meta, ttl := d.ttl,
            updated := now, expires := Expiry.ExpiresAt(d.ttl, now), resources := resources)
  }

  function Registered(env: Env, d: Device, id: string, now: int, c: nat): Device {
    NewDevice(env, d, id, now, SortById(Fill(env, d.resources, c, DeviceUrl(env, id))))
  }

  function Renewed(env: Env, stored: Device, d: Device, now: int, c: nat): Device {
    ChangedDevice(stored, d, now, SortById(Fill(env, d.resources, c, stored.url)))
  }

  // ---- The index of resources ----

  /** A taken key keeps its device. */
  function IndexAdd(rid: map<string, string>, ids: set<string>, did: string): map<string, string> {
    rid + map x | x in ids && x !in rid :: did
  }

  /** The user asks for a resource id that is indexed. */
  predicate Taken(rid: map<string, string>, r: Resource) {
    r.id != "" && r.id in rid
  }

  /** The user asks for a resource id that is indexed for a device other than `owner`. */
  predicate TakenByOther(rid: map<string, string>, r: Resource, owner: string) {
    Taken(rid, r) && rid[r.id] != owner
  }

  predicate AnyTakenByOther(rid: map<string, string>, rs: seq<Resource>, owner: string) {
    exists r | r in rs :: TakenByOther(rid, r, owner)
  }

  /** How many resources come before the first one whose id is taken. */
  function FirstTaken(rid: map<string, string>, rs: seq<Resource>): (k: nat)
    ensures k <= |rs|
  {
    if rs == [] then 0
    else
      var k := FirstTaken(rid, rs[..|rs| - 1]);
      if k < |rs| - 1 || Taken(rid, rs[|rs| - 1]) then k else |rs|
  }

  /** The resource ids of every stored device. */
  function Owns(store: map<string, Device>): map<string, set<string>> {
    map did | did in store :: Ids(store[did].resources)
  }

  function AllIds(owns: map<string, set<string>>, dids: set<string>): set<string> {
    set did, x | did in dids && did in owns && x in owns[did] :: x
  }

  /** The indices built from scratch out of a listing of devices. */
  function RebuildRid(devices: seq<Device>): map<string, string> {
    if devices == [] then map[]
    else
      var d := devices[|devices| - 1];
      IndexAdd(RebuildRid(devices[..|devices| - 1]), Ids(d.resources), d.id)
  }

  function RebuildExp(devices: seq<Device>): set<Entry> {
    set d | d in devices && d.expires.Some? :: Entry(d.expires.value, d.id)
  }

  lemma {:induction false} FirstTakenIs(rid: map<string, string>, rs: seq<Resource>, k: nat)
    requires k < |rs| && FirstTaken(rid, rs[..k]) == k && Taken(rid, rs[k])
    ensures FirstTaken(rid, rs) == k
    decreases |rs|
  {
    var front := rs[..|rs| - 1];
    if k < |front| {
      assert front[..k] == rs[..k];
      FirstTakenIs(rid, front, k);
    }
  }

  // ---- Operations ----

  function Abstract(s: State): Expiry.Registry {
    Expiry.Registry(map id | id in s.store :: s.store[id].expires, s.exp)
  }

  /** The expiry entry of a device, if it has a time to live. */
  function EntryOf(d: Device): set<Entry> {
    if d.ttl != 0 && d.expires.Some? then {Entry(d.expires.value, d.id)} else {}
  }

  function Unindexed(rule: Expiry.TieRule, exp: set<Entry>, d: Device): set<Entry> {
    if d.ttl != 0 then Expiry.Drop(rule, exp, d.id) else exp
  }

  function Added(s: State, device: Device, c: nat): State {
    State(s.store[device.id := device], IndexAdd(s.rid, Ids(device.resources), device.id), s.exp + EntryOf(device), c)
  }

  function Replaced(rule: Expiry.TieRule, s: State, stored: Device, device: Device, c: nat): State {
    State(s.store[device.id := device],
          IndexAdd(s.rid - Ids(stored.resources), Ids(device.resources), device.id),
          Unindexed(rule, s.exp, stored) + EntryOf(device), c)
  }

  /** The id a new device gets, and the counter after that. */
  function DeviceId(env: Env, s: State, d: Device): (string, nat) {
    if d.id == "" then (Urn.Make(Urn.DeviceKind, env.start + s.counter + 1), s.counter + 1) else (d.id, s.counter)
  }

  function AddAs(env: Env, s: State, d: Device, id: string, c: nat, now: int): (State, Outcome) {
    var k := FirstTaken(s.rid, d.resources);
    var c' := c + Blanks(d.resources);
    if k < |d.resources| then (s.(counter := c + Blanks(d.resources[..k])), Failed(Conflict))
    else if id in s.store then (s.(counter := c'), Failed(Conflict))
    else (Added(s, Registered(env, d, id, now, c), c'), Done(id))
  }

  function AddSpec(env: Env, s: State, d: Device, now: int): (State, Outcome) {
    if !ValidDevice(env.parses, d) then (s, Failed(BadRequest))
    else
      var (id, c) := DeviceId(env, s, d);
      AddAs(env, s, d, id, c, now)
  }

  function UpdateSpec(env: Env, rule: Expiry.TieRule, s: State, id: string, d: Device, now: int): (State, Outcome) {
    if !ValidDevice(env.parses, d) then (s, Failed(BadRequest))
    else if AnyTakenByOther(s.rid, d.resources, id) then (s, Failed(Conflict))
    else if id !in s.store then (s, Failed(NotFound))
    else
      var device := Renewed(env, s.store[id], d, now, s.counter);
      (Replaced(rule, s, s.store[id], device, s.counter + Blanks(d.resources)), Done(id))
  }

  function DeleteSpec(rule: Expiry.TieRule, s: State, id: string): (State, Outcome) {
    if id !in s.store then (s, Failed(NotFound))
    else
      var d := s.store[id];
      (State(s.store - {id}, s.rid - Ids(d.resources), Unindexed(rule, s.exp, d), s.counter), Done(id))
  }

  function SweepSpec(s: State, t: int): State {
    var due := Expiry.Due(s.exp, t);
    State(s.store - due, s.rid - AllIds(Owns(s.store), due), (set e | e in s.exp && e.time > t), s.counter)
  }

  datatype Op =
    | Add(d: Device, now: int)
    | Update(id: string, d: Device, now: int)
    | Delete(id: string)
    | Sweep(t: int)

  function Step(env: Env, rule: Expiry.TieRule, s: State, op: Op): (State, Outcome) {
    match op
    case Add(d, now) => AddSpec(env, s, d, now)
    case Update(id, d, now) => UpdateSpec(env, rule, s, id, d, now)
    case Delete(id) => DeleteSpec(rule, s, id)
    case Sweep(t) => (SweepSpec(s, t), Done(""))
  }

  function Run(env: Env, rule: Expiry.TieRule, s: State, ops: seq<Op>): State {
    if ops == [] then s else Step(env, rule, Run(env, rule, s, ops[..|ops| - 1]), ops[|ops| - 1]).0
  }

  // ---- Invariants ----

  /** Devices are stored under their own id, and have an expiry time exactly if they have a time to live. */
  ghost predicate StoreOk(store: map<string, Device>) {
    forall id | id in store :: store[id].id == id && DeviceOk(store[id])
  }

  ghost predicate DeviceOk(d: Device) { d.expires.Some? <==> d.ttl != 0 }

  /** `rid` is exactly the pairs of an owned resource and its owner, so no resource has two owners. */
  ghost predicate Inverse(owns: map<string, set<string>>, rid: map<string, string>) {
    && (forall x | x in rid :: rid[x] in owns && x in owns[rid[x]])
    && (forall did, x | did in owns && x in owns[did] :: x in rid && rid[x] == did)
  }

  ghost predicate ListsStrict(store: map<string, Device>) {
    forall did | did in store :: StrictById(store[did].resources)
  }

  /** The index of resources is exactly the pairs of a stored resource and its device; so resource ids are globally
      unique, and every stored list is strictly sorted. */
  ghost predicate RidExact(store: map<string, Device>, rid: map<string, string>) {
    Inverse(Owns(store), rid) && ListsStrict(store)
  }

  ghost predicate Good(s: State) {
    StoreOk(s.store) && Expiry.Sound(Abstract(s))
  }

  lemma StepKeepsStoreOk(env: Env, rule: Expiry.TieRule, s: State, op: Op)
    requires StoreOk(s.store)
    ensures StoreOk(Step(env, rule, s, op).0.store)
  {
  }

  // ---- Both indices refine the registry machine ----

  /** The registry operation that an operation of the catalog amounts to. */
  function Effect(env: Env, s: State, op: Op, outcome: Outcome): Expiry.Op {
    if outcome.Failed? then Expiry.Nop
    else
      match op
      case Add(d, now) => Expiry.Put(outcome.id, Expiry.ExpiresAt(d.ttl, now))
      case Update(id, d, now) => Expiry.Put(id, Expiry.ExpiresAt(d.ttl, now))
      case Delete(id) => Expiry.Remove(id)
      case Sweep(t) => Expiry.Clean(t)
  }

  lemma AddedRefines(rule: Expiry.TieRule, s: State, device: Device, c: nat)
    requires DeviceOk(device) && device.id !in s.store
    ensures Abstract(Added(s, device, c)) == Expiry.Apply(rule, Abstract(s), Expiry.Put(device.id, device.expires))
  {
    assert Abstract(Added(s, device, c)).live == Abstract(s).live[device.id := device.expires];
  }

  lemma ReplacedRefines(rule: Expiry.TieRule, s: State, stored: Device, device: Device, c: nat)
    requires DeviceOk(device) && device.id in s.store && stored == s.store[device.id]
    requires DeviceOk(stored) && stored.id == device.id
    ensures Abstract(Replaced(rule, s, stored, device, c)) ==
      Expiry.Apply(rule, Abstract(s), Expiry.Put(device.id, device.expires))
  {
    assert Abstract(Replaced(rule, s, stored, device, c)).live == Abstract(s).live[device.id := device.expires];
  }

  lemma RemovedRefines(rule: Expiry.TieRule, s: State, id: string)
    requires StoreOk(s.store)
    ensures id in s.store ==> Abstract(DeleteSpec(rule, s, id).0) == Expiry.Apply(rule, Abstract(s), Expiry.Remove(id))
  {
    assert Abstract(DeleteSpec(rule, s, id).0).live == Abstract(s).live - {id};
  }

  lemma SweptRefines(rule: Expiry.TieRule, s: State, t: int)
    ensures Abstract(SweepSpec(s, t)) == Expiry.Apply(rule, Abstract(s), Expiry.Clean(t))
  {
    assert Abstract(SweepSpec(s, t)).live == Abstract(s).live - Expiry.Due(s.exp, t);
  }

  /** The expiry side of every operation, failed ones included, is a step of the registry machine. */
  lemma StepRefines(env: Env, rule: Expiry.TieRule, s: State, op: Op)
    requires StoreOk(s.store)
    ensures var (s', outcome) := Step(env, rule, s, op);
      Abstract(s') == Expiry.Apply(rule, Abstract(s), Effect(env, s, op, outcome))
  {
    if Step(env, rule, s, op).1.Done? {
      match op
      case Add(d, now) =>
        var (id, c) := DeviceId(env, s, d);
        AddedRefines(rule, s, Registered(env, d, id, now, c), c + Blanks(d.resources));
      case Update(id, d, now) =>
        var device := Renewed(env, s.store[id], d, now, s.counter);
        ReplacedRefines(rule, s, s.store[id], device, s.counter + Blanks(d.resources));
      case Delete(id) => RemovedRefines(rule, s, id);
      case Sweep(t) => SweptRefines(rule, s, t);
    }
  }

  /** Under either rule, and whatever the identifiers, every operation keeps the stored devices consistent and every
      expiry entry true of a stored device. */
  lemma GoodStep(env: Env, rule: Expiry.TieRule, s: State, op: Op)
    requires Good(s)
    ensures Good(Step(env, rule, s, op).0)
  {
    var (s', outcome) := Step(env, rule, s, op);
    StepKeepsStoreOk(env, rule, s, op);
    StepRefines(env, rule, s, op);
    Expiry.SoundStep(rule, Abstract(s), Effect(env, s, op, outcome));
  }

  // What the operations come to, once their checks have passed.

  /** An add ends with `device` stored and indexed, or with a conflict of its id. */
  ghost predicate AddEnds(s: State, device: Device, c: nat, after: (State, Outcome)) {
    after == if device.id in s.store then (s.(counter := c), Failed(Conflict))
             else (Added(s, device, c), Done(device.id))
  }

  lemma AddAsIs(env: Env, s: State, d: Device, id: string, c: nat, now: int, device: Device, after: (State, Outcome))
    requires FirstTaken(s.rid, d.resources) == |d.resources| && device == Registered(env, d, id, now, c)
    requires device.id == id && after == AddAs(env, s, d, id, c, now)
    ensures AddEnds(s, device, c + Blanks(d.resources), after)
  {
  }

  lemma RegisteredIs(env: Env, d: Device, id: string, now: int, c: nat, filled: seq<Resource>)
    requires filled == Fill(env, d.resources, c, DeviceUrl(env, id))
    ensures var device := NewDevice(env, d, id, now, SortById(filled));
      device == Registered(env, d, id, now, c) && DeviceOk(device) && device.id == id
  {
  }

  lemma RenewedIs(env: Env, stored: Device, d: Device, now: int, c: nat, filled: seq<Resource>)
    requires filled == Fill(env, d.resources, c, stored.url)
    ensures var device := ChangedDevice(stored, d, now, SortById(filled));
      device == Renewed(env, stored, d, now, c) && DeviceOk(device) && device.id == stored.id
  {
  }

  lemma UpdateIs(env: Env, rule: Expiry.TieRule, s: State, id: string, d: Device, now: int)
    requires ValidDevice(env.parses, d) && !AnyTakenByOther(s.rid, d.resources, id) && id in s.store
    ensures UpdateSpec(env, rule, s, id, d, now).0 ==
      Replaced(rule, s, s.store[id], Renewed(env, s.store[id], d, now, s.counter), s.counter + Blanks(d.resources))
  {
  }

  lemma GoodAdd(env: Env, s: State, d: Device, now: int)
    requires Good(s)
    ensures Good(AddSpec(env, s, d, now).0)
  {
    GoodStep(env, Expiry.Literal, s, Add(d, now));
  }

  lemma GoodUpdate(env: Env, rule: Expiry.TieRule, s: State, id: string, d: Device, now: int)
    requires Good(s)
    ensures Good(UpdateSpec(env, rule, s, id, d, now).0)
  {
    GoodStep(env, rule, s, Update(id, d, now));
  }

  lemma GoodDelete(env: Env, rule: Expiry.TieRule, s: State, id: string)
    requires Good(s)
    ensures Good(DeleteSpec(rule, s, id).0)
  {
    GoodStep(env, rule, s, Delete(id));
  }

  lemma GoodSweep(env: Env, s: State, t: int)
    requires Good(s)
    ensures Good(SweepSpec(s, t))
  {
    GoodStep(env, Expiry.Literal, s, Sweep(t));
  }

  /** An id without a stored device has no expiry entry. */
  lemma NotStoredNotIndexed(s: State, id: string)
    requires Expiry.Sound(Abstract(s)) && id !in s.store
    ensures forall e | e in s.exp :: e.id != id
  {
    forall e | e in s.exp ensures e.id != id { Expiry.InEntries(Abstract(s).live, e); }
  }
}
