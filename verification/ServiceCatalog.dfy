/** What each operation of the service catalog does to the stored services and to the index of expiry times. */
module ServiceCatalog {
  import opened Prelude
  import opened JsonModel
  import opened Tree
  import Devices
  import Expiry
  import ExpiryLosses
  import Order
  import Storage
  import Urn

  const SERVICE_TYPE := "Service"

  /** Unlike a device, a service may ask for a negative time to live. */
  datatype Service = Service(id: string, url: string, typ: string, name: string, description: string,
                             meta: map<string, Json>, protocols: seq<Devices.Protocol>,
                             representation: map<string, Json>, ttl: int, created: int, updated: int,
                             expires: Option<int>)

  datatype Env = Env(apiLocation: string, start: nat)

  datatype State = State(store: map<string, Service>, exp: set<Entry>, counter: nat)

  datatype Outcome = Done(id: string) | Failed(error: Error)

  predicate ValidService(s: Service) {
    |s.protocols| > 0 && forall p | p in s.protocols :: Devices.ValidProtocol(p)
  }

  function NewService(env: Env, v: Service, id: string, now: int): Service {
    v.(id := id, url := env.apiLocation + "/" + id, typ := SERVICE_TYPE, created := now, updated := now,
       expires := Expiry.ExpiresAt(v.ttl, now))
  }

  function ChangedService(stored: Service, v: Service, now: int): Service {
    stored.(name := v.name, description := v.description, meta := v.meta, ttl := v.ttl, updated := now,
            expires := Expiry.ExpiresAt(v.ttl, now))
  }

  function EntryOf(v: Service): set<Entry> {
    if v.ttl != 0 && v.expires.Some? then {Entry(v.expires.value, v.id)} else {}
  }

  function Unindexed(rule: Expiry.TieRule, exp: set<Entry>, v: Service): set<Entry> {
    if v.ttl != 0 then Expiry.Drop(rule, exp, v.id) else exp
  }

  // ---- Operations ----

  function ServiceId(env: Env, s: State, v: Service): (string, nat) {
    if v.id == "" then (Urn.Make(Urn.ServiceKind, env.start + s.counter + 1), s.counter + 1) else (v.id, s.counter)
  }

  function Added(s: State, v: Service, c: nat): State {
    State(s.store[v.id := v], s.exp + EntryOf(v), c)
  }

  function Replaced(rule: Expiry.TieRule, s: State, stored: Service, v: Service): State {
    State(s.store[v.id := v], Unindexed(rule, s.exp, stored) + EntryOf(v), s.counter)
  }

  function AddSpec(env: Env, s: State, v: Service, now: int): (State, Outcome) {
    if !ValidService(v) then (s, Failed(BadRequest))
    else
      var (id, c) := ServiceId(env, s, v);
      if id in s.store then (s.(counter := c), Failed(Conflict))
      else (Added(s, NewService(env, v, id, now), c), Done(id))
  }

  function UpdateSpec(rule: Expiry.TieRule, s: State, id: string, v: Service, now: int): (State, Outcome) {
    if !ValidService(v) then (s, Failed(BadRequest))
    else if id !in s.store then (s, Failed(NotFound))
    else (Replaced(rule, s, s.store[id], ChangedService(s.store[id], v, now)), Done(id))
  }

  function DeleteSpec(rule: Expiry.TieRule, s: State, id: string): (State, Outcome) {
    if id !in s.store then (s, Failed(NotFound))
    else (State(s.store - {id}, Unindexed(rule, s.exp, s.store[id]), s.counter), Done(id))
  }

  function SweepSpec(s: State, t: int): State {
    State(s.store - Expiry.Due(s.exp, t), (set e | e in s.exp && e.time > t), s.counter)
  }

  datatype Op =
    | Add(v: Service, now: int)
    | Update(id: string, v: Service, now: int)
    | Delete(id: string)
    | Sweep(t: int)

  function Step(env: Env, rule: Expiry.TieRule, s: State, op: Op): (State, Outcome) {
    match op
    case Add(v, now) => AddSpec(env, s, v, now)
    case Update(id, v, now) => UpdateSpec(rule, s, id, v, now)
    case Delete(id) => DeleteSpec(rule, s, id)
    case Sweep(t) => (SweepSpec(s, t), Done(""))
  }

  function Run(env: Env, rule: Expiry.TieRule, s: State, ops: seq<Op>): State {
    if ops == [] then s else Step(env, rule, Run(env, rule, s, ops[..|ops| - 1]), ops[|ops| - 1]).0
  }

  // ---- Outcomes ----

  /** Every operation fails for exactly these reasons, and a failed one changes nothing but the counter. */
  lemma Outcomes(env: Env, rule: Expiry.TieRule, s: State, op: Op)
    ensures var (s', outcome) := Step(env, rule, s, op);
      && (outcome == Failed(BadRequest) <==> (op.Add? || op.Update?) && !ValidService(op.v))
      && (outcome == Failed(Conflict) <==> op.Add? && ValidService(op.v) && IdFor(env, s, op.v) in s.store)
      && (outcome == Failed(NotFound) <==>
           (op.Update? && ValidService(op.v) && op.id !in s.store) || (op.Delete? && op.id !in s.store))
      && (outcome.Failed? ==> outcome.error in {BadRequest, Conflict, NotFound} && s' == s.(counter := s'.counter))
      && s'.counter == s.counter + (if op.Add? && ValidService(op.v) && op.v.id == "" then 1 else 0)
      && (op.Add? && outcome.Done? ==> outcome.id == IdFor(env, s, op.v))
      && ((op.Update? || op.Delete?) && outcome.Done? ==> outcome.id == op.id)
  {
  }

  /** The id that a service asks for or, if it asks for none, the next one generated. */
  function IdFor(env: Env, s: State, v: Service): string {
    if v.id != "" then v.id else "urn:ls_service:" + Urn.Hex(env.start + s.counter + 1)
  }

  /** A service is refused for having no protocol, or one without a type or an endpoint. */
  lemma ServiceRefusedIff(v: Service)
    ensures !ValidService(v) <==> v.protocols == [] || exists p | p in v.protocols :: p.typ == "" || p.endpoint == map[]
  {
    assert forall p: Devices.Protocol :: |p.endpoint| == 0 <==> p.endpoint == map[];
  }

  /** What an add stores: the service as given, stamped, and nothing else changes. */
  lemma AddStores(env: Env, s: State, v: Service, now: int)
    requires AddSpec(env, s, v, now).1.Done?
    ensures var (s', outcome) := AddSpec(env, s, v, now); var id := outcome.id;
      && id !in s.store && s'.store == s.store[id := s'.store[id]]
      && var stored := s'.store[id];
      && stored.(id := v.id, url := v.url, typ := v.typ, created := v.created, updated := v.updated,
                 expires := v.expires) == v
      && stored.id == id && stored.url == env.apiLocation + "/" + id && stored.typ == "Service"
      && stored.created == stored.updated == now
      && (v.ttl == 0 ==> stored.expires == None) && (v.ttl != 0 ==> stored.expires == Some(now + v.ttl * 1_000_000_000))
  {
  }

  /** What an update leaves alone, and what it takes from the request. */
  lemma UpdateStores(rule: Expiry.TieRule, s: State, id: string, v: Service, now: int)
    requires StoreOk(s.store) && UpdateSpec(rule, s, id, v, now).1.Done?
    ensures var s' := UpdateSpec(rule, s, id, v, now).0;
      && s'.store == s.store[id := s'.store[id]]
      && var stored, before := s'.store[id], s.store[id];
      && stored.(name := v.name, description := v.description, meta := v.meta, ttl := v.ttl, updated := v.updated,
                 expires := v.expires) ==
         before.(name := v.name, description := v.description, meta := v.meta, ttl := v.ttl, updated := v.updated,
                 expires := v.expires)
      && stored.name == v.name && stored.description == v.description && stored.meta == v.meta
      && stored.ttl == v.ttl && stored.updated == now
      && (v.ttl == 0 ==> stored.expires == None) && (v.ttl != 0 ==> stored.expires == Some(now + v.ttl * 1_000_000_000))
  {
  }

  // ---- The service catalog refines the registry machine ----

  ghost predicate StoreOk(store: map<string, Service>) {
    forall id | id in store :: store[id].id == id && (store[id].expires.Some? <==> store[id].ttl != 0)
  }

  function Abstract(s: State): Expiry.Registry {
    Expiry.Registry(map id | id in s.store :: s.store[id].expires, s.exp)
  }

  ghost predicate Good(s: State) { StoreOk(s.store) && Expiry.Sound(Abstract(s)) }

  function Effect(op: Op, outcome: Outcome): Expiry.Op {
    if outcome.Failed? then Expiry.Nop
    else
      match op
      case Add(v, now) => Expiry.Put(outcome.id, Expiry.ExpiresAt(v.ttl, now))
      case Update(id, v, now) => Expiry.Put(id, Expiry.ExpiresAt(v.ttl, now))
      case Delete(id) => Expiry.Remove(id)
      case Sweep(t) => Expiry.Clean(t)
  }

  lemma AddedRefines(rule: Expiry.TieRule, s: State, v: Service, c: nat)
    requires (v.expires.Some? <==> v.ttl != 0) && v.id !in s.store
    ensures Abstract(Added(s, v, c)) == Expiry.Apply(rule, Abstract(s), Expiry.Put(v.id, v.expires))
  {
    assert Abstract(Added(s, v, c)).live == Abstract(s).live[v.id := v.expires];
  }

  lemma ReplacedRefines(rule: Expiry.TieRule, s: State, stored: Service, v: Service)
    requires (v.expires.Some? <==> v.ttl != 0) && v.id in s.store && stored == s.store[v.id]
    requires (stored.expires.Some? <==> stored.ttl != 0) && stored.id == v.id
    ensures Abstract(Replaced(rule, s, stored, v)) == Expiry.Apply(rule, Abstract(s), Expiry.Put(v.id, v.expires))
  {
    assert Abstract(Replaced(rule, s, stored, v)).live == Abstract(s).live[v.id := v.expires];
  }

  lemma RemovedRefines(rule: Expiry.TieRule, s: State, id: string)
    requires StoreOk(s.store) && id in s.store
    ensures Abstract(DeleteSpec(rule, s, id).0) == Expiry.Apply(rule, Abstract(s), Expiry.Remove(id))
  {
    assert Abstract(DeleteSpec(rule, s, id).0).live == Abstract(s).live - {id};
  }

  lemma SweptRefines(rule: Expiry.TieRule, s: State, t: int)
    ensures Abstract(SweepSpec(s, t)) == Expiry.Apply(rule, Abstract(s), Expiry.Clean(t))
  {
    assert Abstract(SweepSpec(s, t)).live == Abstract(s).live - Expiry.Due(s.exp, t);
  }

  lemma StepKeepsStoreOk(env: Env, rule: Expiry.TieRule, s: State, op: Op)
    requires StoreOk(s.store)
    ensures StoreOk(Step(env, rule, s, op).0.store)
  {
  }

  /** Every operation, failed ones included, is a step of the registry machine. */
  lemma StepRefines(env: Env, rule: Expiry.TieRule, s: State, op: Op)
    requires StoreOk(s.store)
    ensures var (s', outcome) := Step(env, rule, s, op);
      Abstract(s') == Expiry.Apply(rule, Abstract(s), Effect(op, outcome))
  {
    if Step(env, rule, s, op).1.Done? {
      match op
      case Add(v, now) =>
        var (id, c) := ServiceId(env, s, v);
        AddedRefines(rule, s, NewService(env, v, id, now), c);
      case Update(id, v, now) => ReplacedRefines(rule, s, s.store[id], ChangedService(s.store[id], v, now));
      case Delete(id) => RemovedRefines(rule, s, id);
      case Sweep(t) => SweptRefines(rule, s, t);
    }
  }

  lemma GoodStep(env: Env, rule: Expiry.TieRule, s: State, op: Op)
    requires Good(s)
    ensures Good(Step(env, rule, s, op).0)
  {
    StepRefines(env, rule, s, op);
    StepKeepsStoreOk(env, rule, s, op);
    Expiry.SoundStep(rule, Abstract(s), Effect(op, Step(env, rule, s, op).1));
  }

  function Effects(env: Env, rule: Expiry.TieRule, s: State, ops: seq<Op>): (es: seq<Expiry.Op>)
    ensures |es| == |ops|
  {
    if ops == [] then []
    else
      var front, op := ops[..|ops| - 1], ops[|ops| - 1];
      Effects(env, rule, s, front) + [Effect(op, Step(env, rule, Run(env, rule, s, front), op).1)]
  }

  /** So everything proved of the registry machine holds of whole runs of the service catalog. */
  lemma {:induction false} RunRefines(env: Env, rule: Expiry.TieRule, s: State, ops: seq<Op>)
    requires Good(s)
    ensures Good(Run(env, rule, s, ops))
    ensures Abstract(Run(env, rule, s, ops)) == Expiry.Run(rule, Abstract(s), Effects(env, rule, s, ops))
    decreases |ops|
  {
    if ops == [] {
    } else {
      var front, op := ops[..|ops| - 1], ops[|ops| - 1];
      RunRefines(env, rule, s, front);
      var before := Run(env, rule, s, front);
      StepRefines(env, rule, before, op);
      GoodStep(env, rule, before, op);
      var es := Effects(env, rule, s, ops);
      assert es[..|es| - 1] == Effects(env, rule, s, front);
    }
  }

  /** No sweep of any run deletes a service whose current expiry is after its time. */
  lemma NeverEarly(env: Env, rule: Expiry.TieRule, s: State, ops: seq<Op>, op: Op, id: string)
    requires Good(s)
    ensures var before := Run(env, rule, s, ops); var after := Step(env, rule, before, op).0;
      id in before.store && id !in after.store ==>
        op == Delete(id) || (op.Sweep? && before.store[id].expires.Some? && before.store[id].expires.value <= op.t)
  {
    RunRefines(env, rule, s, ops);
    var before := Run(env, rule, s, ops);
    StepRefines(env, rule, before, op);
    if id in before.store && op.Sweep? { Expiry.SweepRemoves(rule, Abstract(before), op.t, id); }
  }

  /** The index is complete in every reachable state with the intended tie handling, and with that of the code on every
      run that never takes one of two equal times out. */
  lemma CompleteRun(env: Env, rule: Expiry.TieRule, s: State, ops: seq<Op>)
    requires Good(s) && Expiry.Complete(Abstract(s))
    requires rule == Expiry.Literal ==> Expiry.TieFree(Abstract(s), Effects(env, rule, s, ops))
    ensures Expiry.Complete(Abstract(Run(env, rule, s, ops)))
  {
    RunRefines(env, rule, s, ops);
    if rule == Expiry.Literal {
      Expiry.TieFreeRun(Abstract(s), Effects(env, rule, s, ops));
    } else {
      Expiry.IntendedCompleteRun(Abstract(s), Effects(env, rule, s, ops));
    }
  }

  /** On those runs a sweep leaves exactly the services with no expiry or a later one. */
  lemma SweepsExact(env: Env, rule: Expiry.TieRule, s: State, ops: seq<Op>, t: int)
    requires Good(s) && Expiry.Complete(Abstract(s))
    requires rule == Expiry.Literal ==> Expiry.TieFree(Abstract(s), Effects(env, rule, s, ops))
    ensures var before := Run(env, rule, s, ops);
      SweepSpec(before, t).store ==
        map id | id in before.store && (before.store[id].expires.None? || before.store[id].expires.value > t)
            :: before.store[id]
  {
    CompleteRun(env, rule, s, ops);
    var before := Run(env, rule, s, ops);
    Expiry.SweepExact(rule, Abstract(before), t);
    SweptRefines(rule, before, t);
    SameKept(before, SweepSpec(before, t), t);
  }

  lemma SameKept(before: State, after: State, t: int)
    requires Abstract(after).live == map id | id in Abstract(before).live &&
      (Abstract(before).live[id].None? || Abstract(before).live[id].value > t) :: Abstract(before).live[id]
    requires forall id | id in after.store :: id in before.store && after.store[id] == before.store[id]
    ensures after.store == map id | id in before.store &&
      (before.store[id].expires.None? || before.store[id].expires.value > t) :: before.store[id]
  {
    assert after.store.Keys == Abstract(after).live.Keys;
  }

  /** After any run of the code as it stands a sweep at `t` leaves exactly the services with no expiry, a later one, or
      one that the run has lost track of, because an operation took an equal time out. */
  lemma SweepsLeave(env: Env, s: State, ops: seq<Op>, t: int, id: string)
    requires Good(s) && Expiry.Complete(Abstract(s))
    ensures var before := Run(env, Expiry.Literal, s, ops); var after := SweepSpec(before, t);
      id in after.store <==>
      id in before.store && (before.store[id].expires.None? || before.store[id].expires.value > t ||
                             ExpiryLosses.Lost(Abstract(s), Effects(env, Expiry.Literal, s, ops), id))
  {
    var g, es := Abstract(s), Effects(env, Expiry.Literal, s, ops);
    var before := Run(env, Expiry.Literal, s, ops);
    RunRefines(env, Expiry.Literal, s, ops);
    ExpiryLosses.OrphanIffLost(g, es, id);
    SweptRefines(Expiry.Literal, before, t);
    if id in before.store { ExpiryLosses.SweepLeaves(Expiry.Literal, Abstract(before), t, id); }
    assert id in SweepSpec(before, t).store <==> id in Abstract(SweepSpec(before, t)).live;
  }

  // ---- Rebuilding the index ----

  function RebuildExp(services: seq<Service>): set<Entry> {
    set v | v in services && v.expires.Some? :: Entry(v.expires.value, v.id)
  }

  /** A listing of services with distinct ids and consistent expiry times. */
  ghost predicate ServicesDistinct(services: seq<Service>) {
    && (forall i | 0 <= i < |services| :: services[i].expires.Some? <==> services[i].ttl != 0)
    && (forall i, j | 0 <= i < j < |services| :: services[i].id != services[j].id)
  }

  /** The listing of a store has every stored service once. */
  lemma InOrderServices(store: map<string, Service>)
    requires StoreOk(store)
    ensures ServicesDistinct(Storage.InOrder(store))
    ensures forall v: Service :: v in Storage.InOrder(store) <==> v.id in store && store[v.id] == v
  {
    var all := Storage.InOrder(store);
    Storage.InOrderKeyed(store, (v: Service) => v.id);
    assert forall i | 0 <= i < |all| :: all[i] in all;
  }

  /** Indexing a listing of the store gives the complete index. */
  lemma RebuiltEntries(store: map<string, Service>)
    requires StoreOk(store)
    ensures RebuildExp(Storage.InOrder(store)) == Expiry.Entries(map id | id in store :: store[id].expires)
  {
    InOrderServices(store);
    EntriesOfServices(Storage.InOrder(store), store, map id | id in store :: store[id].expires);
  }

  lemma EntriesOfServices(all: seq<Service>, store: map<string, Service>, live: map<string, Option<int>>)
    requires forall v: Service :: v in all <==> v.id in store && store[v.id] == v
    requires forall id | id in store :: store[id].id == id
    requires live.Keys == store.Keys && forall id | id in store :: live[id] == store[id].expires
    ensures RebuildExp(all) == Expiry.Entries(live)
  {
    forall e | e in Expiry.Entries(live) ensures e in RebuildExp(all) {
      var v := store[e.id];
      assert v in all && e == Entry(v.expires.value, v.id);
    }
  }

  /** What a controller starts with over the storage of another one; see the constructor of the controller. */
  function Restarted(s: State): State {
    State(s.store, Expiry.Entries(Abstract(s).live), 0)
  }

  /** A restart never loses an expiry entry, and brings back exactly what ties had cost. */
  lemma RestartEquivalent(env: Env, rule: Expiry.TieRule, s: State, ops: seq<Op>)
    requires Good(s)
    ensures var before := Run(env, rule, s, ops); var after := Restarted(before);
      && Good(after) && before.exp <= after.exp && Expiry.Complete(Abstract(after))
      && (after == before.(counter := 0) <==> Expiry.Complete(Abstract(before)))
  {
    RunRefines(env, rule, s, ops);
    var before := Run(env, rule, s, ops);
    assert Abstract(Restarted(before)).live == Abstract(before).live;
  }
}
