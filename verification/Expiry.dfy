/** Registrations with an expiry time, the index of those times, and the sweep that uses the index.
    Both catalog controllers are this machine with a payload. */
module Expiry {
  import opened Prelude
  import opened Tree

  const SECOND := 1_000_000_000

  /** When a registration written at `now` expires, if it asks for a time to live in seconds. */
  function ExpiresAt(ttl: int, now: int): Option<int> {
    if ttl == 0 then None else Some(now + ttl * SECOND)
  }

  /** Half of the time to live: the period of the keepalive ticker. */
  function Half(ttl: int): int { ttl * SECOND / 2 }

  lemma RenewalExpires(ttl: nat, now: int)
    requires ttl > 0
    ensures ExpiresAt(ttl, now) == Some(now + 2 * Half(ttl))
  {
    var half := ttl * 500_000_000;
    assert SECOND == 1_000_000_000;
    assert ttl * SECOND == ttl * 1_000_000_000 == 2 * half;
    assert Half(ttl) == half;
  }

  /** What each stored registration's expiry is, if it has one, and the entries of the index. */
  datatype Registry = Registry(live: map<string, Option<int>>, index: set<Entry>)

  /** How the removal treats entries with the same time: the code as it stands, or as its comment describes it. */
  datatype TieRule = Literal | Intended

  datatype Op =
    | Put(id: string, expires: Option<int>)  // a registration is added or renewed
    | Remove(id: string)
    | Clean(t: int)
    | Nop

  /** The index that agrees with the stored registrations. */
  function Entries(live: map<string, Option<int>>): set<Entry> {
    set id | id in live && live[id].Some? :: Entry(live[id].value, id)
  }

  ghost predicate Sound(g: Registry) { g.index <= Entries(g.live) }

  ghost predicate Complete(g: Registry) { g.index == Entries(g.live) }

  /** Literal removal takes every entry at the time of the target; the intended one only the target's. */
  function Drop(rule: TieRule, index: set<Entry>, id: string): set<Entry> {
    if rule == Intended then set e | e in index && e.id != id
    else set e | e in index && forall f | f in index && f.id == id :: f.time != e.time
  }

  function Unregister(rule: TieRule, g: Registry, id: string): set<Entry> {
    if id in g.live && g.live[id].Some? then Drop(rule, g.index, id) else g.index
  }

  function Due(index: set<Entry>, t: int): set<string> {
    set e | e in index && e.time <= t :: e.id
  }

  function Apply(rule: TieRule, g: Registry, op: Op): Registry {
    match op
    case Put(id, expires) =>
      var index := Unregister(rule, g, id);
      Registry(g.live[id := expires], if expires.Some? then index + {Entry(expires.value, id)} else index)
    case Remove(id) => Registry(g.live - {id}, Unregister(rule, g, id))
    case Clean(t) => Registry(g.live - Due(g.index, t), set e | e in g.index && e.time > t)
    case Nop => g
  }

  function Run(rule: TieRule, g: Registry, ops: seq<Op>): Registry {
    if ops == [] then g else Apply(rule, Run(rule, g, ops[..|ops| - 1]), ops[|ops| - 1])
  }

  // ---- Soundness: holds of both rules, ties included ----

  lemma InEntries(live: map<string, Option<int>>, e: Entry)
    ensures e in Entries(live) <==> e.id in live && live[e.id] == Some(e.time)
  {
  }

  lemma SoundStep(rule: TieRule, g: Registry, op: Op)
    requires Sound(g)
    ensures Sound(Apply(rule, g, op))
  {
    var g' := Apply(rule, g, op);
    forall e | e in g'.index ensures e in Entries(g'.live) {
      InEntries(g.live, e);
      InEntries(g'.live, e);
    }
  }

  lemma {:induction false} SoundRun(rule: TieRule, g: Registry, ops: seq<Op>)
    requires Sound(g)
    ensures Sound(Run(rule, g, ops))
    decreases |ops|
  {
    if ops == [] {
    } else {
      SoundRun(rule, g, ops[..|ops| - 1]);
      SoundStep(rule, Run(rule, g, ops[..|ops| - 1]), ops[|ops| - 1]);
    }
  }

  /** A sweep at `t` removes exactly the indexed registrations whose current expiry is not after `t`. */
  lemma SweepRemoves(rule: TieRule, g: Registry, t: int, id: string)
    requires Sound(g) && id in g.live
    ensures id !in Apply(rule, g, Clean(t)).live <==>
      g.live[id].Some? && g.live[id].value <= t && Entry(g.live[id].value, id) in g.index
    ensures id in Apply(rule, g, Clean(t)).live ==> Apply(rule, g, Clean(t)).live[id] == g.live[id]
  {
    forall e | e in g.index ensures e.id in g.live && g.live[e.id] == Some(e.time) { InEntries(g.live, e); }
  }

  // ---- A sweep that goes through its list one entry at a time ----

  /** Part of the way through a sweep at `t`: the registrations in `gone` are out, and so is everything about them;
      of the rest, what is not due is still indexed. */
  ghost predicate Sweeping(before: set<Entry>, t: int, gone: set<string>, index: set<Entry>) {
    && index <= before
    && (forall e | e in before && e.time > t :: e in index)
    && (forall e | e in index :: e.id !in gone)
  }

  /** Taking out one more due entry, with its whole class of equal times or alone, costs nothing that is not due. */
  lemma SweepingStep(rule: TieRule, g: Registry, t: int, gone: set<string>, index: set<Entry>, m: Entry)
    requires Sound(g) && Sweeping(g.index, t, gone, index) && m in g.index && m.time <= t
    ensures Sweeping(g.index, t, gone + {m.id}, Drop(rule, index, m.id))
  {
    InEntries(g.live, m);
    forall f | f in index && f.id == m.id ensures f.time == m.time { InEntries(g.live, f); }
  }

  lemma SweepingEnds(before: set<Entry>, t: int, gone: set<string>, index: set<Entry>)
    requires Sweeping(before, t, gone, index) && gone == Due(before, t)
    ensures index == set e | e in before && e.time > t
  {
    forall e | e in index ensures e.time > t {
      assert e.time <= t ==> e.id in Due(before, t);
    }
  }

  // ---- Completeness: always under the intended rule, up to ties under the literal one ----

  /** With a complete index a sweep at `t` leaves exactly the registrations with no expiry or a later one. */
  lemma SweepExact(rule: TieRule, g: Registry, t: int)
    requires Complete(g)
    ensures Apply(rule, g, Clean(t)).live ==
      map id | id in g.live && (g.live[id].None? || g.live[id].value > t) :: g.live[id]
  {
    forall id | id in g.live { SweepRemoves(rule, g, t, id); }
  }

  lemma SweepKeepsComplete(rule: TieRule, g: Registry, t: int)
    requires Complete(g)
    ensures Complete(Apply(rule, g, Clean(t)))
  {
    var g' := Apply(rule, g, Clean(t));
    SoundStep(rule, g, Clean(t));
    forall e | e in Entries(g'.live) ensures e in g'.index {
      InEntries(g'.live, e);
      InEntries(g.live, e);
    }
  }

  lemma IntendedCompleteStep(g: Registry, op: Op)
    requires Complete(g)
    ensures Complete(Apply(Intended, g, op))
  {
    if op.Clean? {
      SweepKeepsComplete(Intended, g, op.t);
    } else {
      var g' := Apply(Intended, g, op);
      SoundStep(Intended, g, op);
      forall e | e in Entries(g'.live) ensures e in g'.index {
        InEntries(g'.live, e);
        InEntries(g.live, e);
      }
    }
  }

  lemma {:induction false} IntendedCompleteRun(g: Registry, ops: seq<Op>)
    requires Complete(g)
    ensures Complete(Run(Intended, g, ops))
    decreases |ops|
  {
    if ops == [] {
    } else {
      IntendedCompleteRun(g, ops[..|ops| - 1]);
      IntendedCompleteStep(Run(Intended, g, ops[..|ops| - 1]), ops[|ops| - 1]);
    }
  }

  /** What the two rules take out: the whole class of equal times, or the one entry. */
  lemma DropTakes(g: Registry, id: string)
    requires Sound(g) && id in g.live && g.live[id].Some?
    requires Entry(g.live[id].value, id) in g.index
    ensures Drop(Literal, g.index, id) == set e | e in g.index && e.time != g.live[id].value
    ensures Drop(Intended, g.index, id) == g.index - {Entry(g.live[id].value, id)}
  {
    forall e | e in g.index ensures e.id == id ==> e.time == g.live[id].value { InEntries(g.live, e); }
  }

  /** Another registration expires at the same moment as `id`. */
  ghost predicate Tied(live: map<string, Option<int>>, id: string) {
    id in live && live[id].Some? && exists other | other in live :: other != id && live[other] == live[id]
  }

  /** The operation takes an entry out of the index while another registration shares its time. */
  ghost predicate HitsTie(g: Registry, op: Op) {
    match op
    case Put(id, _) => Tied(g.live, id)
    case Remove(id) => Tied(g.live, id)
    case Clean(_) => false
    case Nop => false
  }

  /** The literal code keeps a complete index complete exactly when it does not hit a tie. */
  lemma LiteralCompleteIff(g: Registry, op: Op)
    requires Complete(g)
    ensures Complete(Apply(Literal, g, op)) <==> !HitsTie(g, op)
  {
    if op.Clean? {
      SweepKeepsComplete(Literal, g, op.t);
    } else if op.Put? || op.Remove? {
      var g' := Apply(Literal, g, op);
      SoundStep(Literal, g, op);
      if op.id in g.live && g.live[op.id].Some? {
        InEntries(g.live, Entry(g.live[op.id].value, op.id));
        DropTakes(g, op.id);
      }
      if HitsTie(g, op) {
        var other :| other in g.live && other != op.id && g.live[other] == g.live[op.id];
        InEntries(g'.live, Entry(g.live[other].value, other));
      } else {
        forall e | e in Entries(g'.live) ensures e in g'.index {
          InEntries(g'.live, e);
          InEntries(g.live, e);
        }
      }
    }
  }

  ghost predicate TieFree(g: Registry, ops: seq<Op>) {
    forall n | 0 <= n < |ops| :: !HitsTie(Run(Literal, g, ops[..n]), ops[n])
  }

  /** Without ties the two rules cannot be told apart. */
  lemma {:induction false} TieFreeRun(g: Registry, ops: seq<Op>)
    requires Complete(g) && TieFree(g, ops)
    ensures Complete(Run(Literal, g, ops)) && Run(Literal, g, ops) == Run(Intended, g, ops)
    decreases |ops|
  {
    if ops == [] {
    } else {
      var front, op := ops[..|ops| - 1], ops[|ops| - 1];
      assert forall n | 0 <= n < |front| :: front[..n] == ops[..n];
      TieFreeRun(g, front);
      var h := Run(Literal, g, front);
      assert !HitsTie(h, op);
      LiteralCompleteIff(h, op);
      IntendedCompleteStep(h, op);
      assert Apply(Literal, h, op).live == Apply(Intended, h, op).live;
    }
  }

  // ---- What a tie costs ----

  /** Stored with an expiry time that the index does not know. */
  ghost predicate Orphan(g: Registry, id: string) {
    id in g.live && g.live[id].Some? && forall e | e in g.index :: e.id != id
  }

  predicate Touches(op: Op, id: string) {
    (op.Put? || op.Remove?) && op.id == id
  }

  /** Removing or renewing one of two registrations that expire together orphans the other. */
  lemma TieOrphans(g: Registry, op: Op, other: string)
    requires Complete(g) && (op.Put? || op.Remove?) && op.id in g.live && g.live[op.id].Some?
    requires other in g.live && other != op.id && g.live[other] == g.live[op.id]
    ensures Orphan(Apply(Literal, g, op), other) && !Orphan(Apply(Intended, g, op), other)
  {
    InEntries(g.live, Entry(g.live[op.id].value, op.id));
    DropTakes(g, op.id);
    forall e | e in g.index && e.id == other ensures e.time == g.live[op.id].value { InEntries(g.live, e); }
    InEntries(g.live, Entry(g.live[other].value, other));
    assert Entry(g.live[other].value, other) in Apply(Intended, g, op).index;
  }

  /** An orphan outlives every sweep: only an operation on itself can end it. */
  lemma {:induction false} OrphanStays(rule: TieRule, g: Registry, ops: seq<Op>, id: string)
    requires Orphan(g, id) && forall op | op in ops :: !Touches(op, id)
    ensures Orphan(Run(rule, g, ops), id) && Run(rule, g, ops).live[id] == g.live[id]
    decreases |ops|
  {
    if ops == [] {
    } else {
      var front, op := ops[..|ops| - 1], ops[|ops| - 1];
      assert op in ops;
      OrphanStays(rule, g, front, id);
      var h := Run(rule, g, front);
      assert op.Clean? ==> id !in Due(h.index, op.t);
    }
  }

  lemma BothPut(rule: TieRule, a: string, b: string, e: int)
    requires a != b
    ensures Run(rule, Registry(map[], {}), [Put(a, Some(e)), Put(b, Some(e))]) ==
      Registry(map[a := Some(e), b := Some(e)], {Entry(e, a), Entry(e, b)})
  {
    var empty, one := Registry(map[], {}), Registry(map[a := Some(e)], {Entry(e, a)});
    var first, second := [Put(a, Some(e))], [Put(a, Some(e)), Put(b, Some(e))];
    assert second[..1] == first && first[..0] == [];
    assert Apply(rule, empty, first[0]).index == one.index && Run(rule, empty, first) == one;
    assert Apply(rule, one, second[1]).index == {Entry(e, a), Entry(e, b)};
  }

  /** A run that strands a registration: of two that expire together one is removed. The other then
      survives a sweep at any time, where the intended rule would have it swept on time. */
  lemma Stranded(a: string, b: string, e: int, t: int)
    requires a != b
    ensures var ops := [Put(a, Some(e)), Put(b, Some(e)), Remove(a)]; var empty := Registry(map[], {});
      && b in Apply(Literal, Run(Literal, empty, ops), Clean(t)).live
      && (b in Apply(Intended, Run(Intended, empty, ops), Clean(t)).live <==> e > t)
  {
    var ops, empty := [Put(a, Some(e)), Put(b, Some(e)), Remove(a)], Registry(map[], {});
    var both := Registry(map[a := Some(e), b := Some(e)], {Entry(e, a), Entry(e, b)});
    InEntries(both.live, Entry(e, a));
    InEntries(both.live, Entry(e, b));
    forall x | x in Entries(both.live) ensures x in both.index { InEntries(both.live, x); }
    assert Complete(both);
    forall rule ensures Run(rule, empty, ops) == Apply(rule, both, Remove(a)) {
      BothPut(rule, a, b, e);
      assert ops[..2] == [Put(a, Some(e)), Put(b, Some(e))];
    }
    TieOrphans(both, Remove(a), b);
    assert [Clean(t)][..0] == [];
    OrphanStays(Literal, Apply(Literal, both, Remove(a)), [Clean(t)], b);
    IntendedCompleteStep(both, Remove(a));
    SweepExact(Intended, Apply(Intended, both, Remove(a)), t);
  }

  // ---- Leases ----

  /** A step and its time; `mine` marks the renewals of the registrar whose lease is at stake. */
  datatype Timed = Timed(op: Op, at: int, mine: bool)

  function Exec(rule: TieRule, g: Registry, trace: seq<Timed>): Registry
    decreases |trace|
  {
    if trace == [] then g else Exec(rule, Apply(rule, g, trace[0].op), trace[1..])
  }

  predicate Lasts(expires: Option<int>, t: int) { expires.None? || expires.value >= t }

  /** A step that keeps to the schedule of `id`, whose next renewal is due at `due`: nothing happens `half` or more
      after that unless it is done; a renewal comes no earlier and extends the lease by twice `half`; others may write
      the registration as they please as long as that lasts until `due + half`, but do not remove it; a sweep uses a
      time that is not in its future. */
  predicate Timely(step: Timed, id: string, due: int, half: int) {
    && step.at < due + half
    && if step.mine then due <= step.at && step.op == Put(id, Some(step.at + 2 * half))
       else
         match step.op
         case Put(x, expires) => x == id ==> Lasts(expires, due + half)
         case Remove(x) => x != id
         case Clean(t) => t <= step.at
         case Nop => true
  }

  /** Renewals of `id` fall due every `half` from `due` on, and every step keeps to that schedule. */
  predicate OnTime(id: string, due: int, half: int, trace: seq<Timed>)
    decreases |trace|
  {
    trace == [] ||
    (Timely(trace[0], id, due, half) && OnTime(id, if trace[0].mine then due + half else due, half, trace[1..]))
  }

  /** A registration renewed on time is there after every step of every such trace, under either rule. */
  lemma {:induction false} LeaseHeld(rule: TieRule, g: Registry, id: string, due: int, half: int,
                                     trace: seq<Timed>, n: nat)
    requires Sound(g) && OnTime(id, due, half, trace) && n <= |trace|
    requires id in g.live && Lasts(g.live[id], due + half)
    ensures id in Exec(rule, g, trace[..n]).live
    decreases n
  {
    if n == 0 {
      assert trace[..n] == [];
    } else {
      var step, rest := trace[0], trace[1..];
      SoundStep(rule, g, step.op);
      assert trace[..n][0] == step && trace[..n][1..] == rest[..n - 1];
      if step.op.Clean? { SweepRemoves(rule, g, step.op.t, id); }
      LeaseHeld(rule, Apply(rule, g, step.op), id, if step.mine then due + half else due, half, rest, n - 1);
    }
  }

  /** From the first registration on, whatever the registry held before. The schedule starts when the ticker does, which
      is not after the registration. */
  lemma LeaseFromStart(rule: TieRule, g: Registry, id: string, start: int, half: int, trace: seq<Timed>, n: nat)
    requires Sound(g) && OnTime(id, start, half, trace) && 1 <= n <= |trace|
    requires trace[0].mine
    ensures id in Exec(rule, g, trace[..n]).live
  {
    SoundStep(rule, g, trace[0].op);
    assert trace[..n][0] == trace[0] && trace[..n][1..] == trace[1..][..n - 1];
    LeaseHeld(rule, Apply(rule, g, trace[0].op), id, start + half, half, trace[1..], n - 1);
  }

  /** Times that answer the ticks of a ticker, each before the next tick. */
  predicate AtTicks(at: int, due: int, half: int, k: nat) {
    due + k * half <= at < due + (k + 1) * half
  }

  lemma NextTick(at: int, due: int, half: int, k: nat)
    ensures AtTicks(at, due, half, k + 1) <==> AtTicks(at, due + half, half, k)
  {
    assert (k + 1) * half == k * half + half && (k + 2) * half == (k + 1) * half + half;
  }

  /** A registrar that answers every tick before the next keeps to its schedule. */
  lemma {:induction false} TicksAreOnTime(id: string, due: int, half: int, trace: seq<Timed>)
    requires forall k | 0 <= k < |trace| ::
      AtTicks(trace[k].at, due, half, k) && trace[k].mine && trace[k].op == Put(id, Some(trace[k].at + 2 * half))
    ensures OnTime(id, due, half, trace)
    decreases |trace|
  {
    if trace != [] {
      assert AtTicks(trace[0].at, due, half, 0);
      forall k | 0 <= k < |trace| - 1
        ensures var step := trace[1..][k];
          AtTicks(step.at, due + half, half, k) && step.mine && step.op == Put(id, Some(step.at + 2 * half))
      {
        NextTick(trace[k + 1].at, due, half, k);
      }
      TicksAreOnTime(id, due + half, half, trace[1..]);
    }
  }

  /** The bound is tight: a renewal exactly `half` late can find the registration already swept. */
  lemma LeaseLost(rule: TieRule, g: Registry, id: string, start: int, half: int)
    requires Sound(g)
    ensures id !in Exec(rule, g, [Timed(Put(id, Some(start + 2 * half)), start, true),
                                  Timed(Clean(start + 2 * half), start + 2 * half, false)]).live
  {
    var first := Timed(Put(id, Some(start + 2 * half)), start, true);
    var second := Timed(Clean(start + 2 * half), start + 2 * half, false);
    var g1 := Apply(rule, g, first.op);
    SoundStep(rule, g, first.op);
    SweepRemoves(rule, g1, start + 2 * half, id);
    assert [first, second][1..] == [second] && [second][1..] == [];
    assert Exec(rule, g, [first, second]) == Exec(rule, g1, [second]) == Apply(rule, g1, second.op);
  }
}
