/** When the index of resources stays exact in every future of a controller: exactly if no stored id is still to be
    generated. */
module ResourceFutures {
  import opened Prelude
  import opened Devices
  import opened ResourceCatalog
  import opened ResourceProofs
  import opened ResourceRuns
  import Expiry
  import Storage
  import Urn

  // ---- Runs that begin with a given operation ----

  lemma {:induction false} RunCons(env: Env, rule: Expiry.TieRule, s: State, op: Op, more: seq<Op>)
    ensures Run(env, rule, s, [op] + more) == Run(env, rule, Step(env, rule, s, op).0, more)
    decreases |more|
  {
    var all := [op] + more;
    if more == [] {
      assert all[..0] == [] && all[0] == op;
    } else {
      var front := more[..|more| - 1];
      assert all[..|all| - 1] == [op] + front;
      RunCons(env, rule, s, op, front);
    }
  }

  lemma InputsCons(env: Env, rule: Expiry.TieRule, s: State, op: Op, more: seq<Op>)
    requires InputOk(env, s, op) && InputsOk(env, rule, Step(env, rule, s, op).0, more)
    ensures InputsOk(env, rule, s, [op] + more)
  {
    var all := [op] + more;
    forall n | 0 <= n < |all| ensures InputOk(env, Run(env, rule, s, all[..n]), all[n]) {
      if n == 0 {
        assert all[..0] == [];
      } else {
        assert all[..n] == [op] + more[..n - 1];
        RunCons(env, rule, s, op, more[..n - 1]);
      }
    }
  }

  // ---- The index breaks if a stored id is still to be generated ----

  /** A run in which nobody asks for an id that is still to be generated, and after which the index is not exact. */
  ghost predicate Breaks(env: Env, rule: Expiry.TieRule, s: State, ops: seq<Op>) {
    && InputsOk(env, rule, s, ops)
    && !RidExact(Run(env, rule, s, ops).store, Run(env, rule, s, ops).rid)
  }

  ghost predicate CanBreak(env: Env, rule: Expiry.TieRule, s: State) { exists ops :: Breaks(env, rule, s, ops) }

  lemma BreaksNow(env: Env, rule: Expiry.TieRule, s: State, op: Op, after: State)
    requires InputOk(env, s, op) && after == Step(env, rule, s, op).0 && !RidExact(after.store, after.rid)
    ensures CanBreak(env, rule, s)
  {
    assert InputsOk(env, rule, after, []);
    InputsCons(env, rule, s, op, []);
    RunCons(env, rule, s, op, []);
    assert Breaks(env, rule, s, [op] + []);
  }

  lemma BreaksLater(env: Env, rule: Expiry.TieRule, s: State, op: Op, after: State)
    requires InputOk(env, s, op) && after == Step(env, rule, s, op).0 && CanBreak(env, rule, after)
    ensures CanBreak(env, rule, s)
  {
    var more :| Breaks(env, rule, after, more);
    InputsCons(env, rule, s, op, more);
    RunCons(env, rule, s, op, more);
    assert Breaks(env, rule, s, [op] + more);
  }

  /** The device names itself, and asks for one resource that it does not name. */
  predicate OneBlank(env: Env, store: map<string, Device>, d: Device) {
    ValidDevice(env.parses, d) && d.id != "" && d.id !in store && |d.resources| == 1 && d.resources[0].id == ""
  }

  function NextId(env: Env, s: State): string { Urn.Make(Urn.ResourceKind, env.start + s.counter + 1) }

  lemma OneBlankFilled(env: Env, rs: seq<Resource>, c: nat)
    requires |rs| == 1 && rs[0].id == ""
    ensures Blanks(rs) == 1 && UserIds(rs) == {}
    ensures FilledId(env, rs, 0, c) == Urn.Make(Urn.ResourceKind, env.start + c + 1)
  {
    assert rs[..1] == [rs[0]] == rs && rs[..0] == [];
    assert Blanks(rs[..0]) == 0;
  }

  lemma OneBlankDone(env: Env, s: State, d: Device)
    requires OneBlank(env, s.store, d)
    ensures var (after, outcome) := AddSpec(env, s, d, 0);
      && outcome == Done(d.id) && after.counter == s.counter + 1
      && d.id in after.store && after.store == s.store[d.id := after.store[d.id]]
  {
    OneBlankFilled(env, d.resources, s.counter);
    AddOutcome(env, s, d, 0);
  }

  lemma OneBlankClash(env: Env, rid: map<string, string>, rs: seq<Resource>, c: nat, owner: string, x: string)
    requires |rs| == 1 && rs[0].id == "" && x == Urn.Make(Urn.ResourceKind, env.start + c + 1)
    requires x in rid && rid[x] != owner
    ensures Clash(env, rid, rs, c, owner)
  {
    OneBlankFilled(env, rs, c);
  }

  /** Adding the device generates the next id, and keeps the index exact only if that is not stored. */
  lemma OneBlankBreaks(env: Env, s: State, d: Device)
    requires RidExact(s.store, s.rid) && OneBlank(env, s.store, d) && NextId(env, s) in s.rid
    ensures var after := AddSpec(env, s, d, 0).0; !RidExact(after.store, after.rid)
  {
    OneBlankDone(env, s, d);
    assert s.rid[NextId(env, s)] in Owns(s.store);
    OneBlankClash(env, s.rid, d.resources, s.counter, d.id, NextId(env, s));
    AddExactIff(env, s, d, 0);
  }

  /** Deleting it again leaves everything as it was, but for the counter and the index of expiry times. */
  lemma OneBlankDeleted(rule: Expiry.TieRule, s: State, id: string, after: State, back: State)
    requires RidExact(s.store, s.rid) && StoreOk(s.store) && id !in s.store && id in after.store
    requires after.store == s.store[id := after.store[id]] && RidExact(after.store, after.rid)
    requires back == DeleteSpec(rule, after, id).0
    ensures back.store == s.store && back.rid == s.rid && back.counter == after.counter
  {
    DeleteExact(rule, after, id);
    assert back.store == s.store;
    RebuildExact(s.store, back.rid);
    RebuildExact(s.store, s.rid);
  }

  /** The states after adding the device, and after deleting it again. */
  ghost predicate Round(env: Env, rule: Expiry.TieRule, s: State, d: Device, after: State, back: State) {
    after == Step(env, rule, s, Add(d, 0)).0 && back == Step(env, rule, after, Delete(d.id)).0
  }

  lemma RoundBreaks(env: Env, rule: Expiry.TieRule, s: State, d: Device, after: State, back: State)
    requires Round(env, rule, s, d, after, back) && InputOk(env, s, Add(d, 0)) && CanBreak(env, rule, back)
    ensures CanBreak(env, rule, s)
  {
    BreaksLater(env, rule, after, Delete(d.id), back);
    BreaksLater(env, rule, s, Add(d, 0), after);
  }

  /** One round brings the counter on by one, or breaks the index. */
  lemma OneRound(env: Env, rule: Expiry.TieRule, s: State, d: Device) returns (back: State)
    requires StoreOk(s.store) && RidExact(s.store, s.rid) && OneBlank(env, s.store, d)
    ensures CanBreak(env, rule, s) || (back.store == s.store && back.rid == s.rid && back.counter == s.counter + 1)
    ensures CanBreak(env, rule, back) ==> CanBreak(env, rule, s)
    ensures NextId(env, s) in s.rid ==> CanBreak(env, rule, s)
  {
    var after := Step(env, rule, s, Add(d, 0)).0;
    back := Step(env, rule, after, Delete(d.id)).0;
    OneBlankFilled(env, d.resources, s.counter);
    OneBlankDone(env, s, d);
    if NextId(env, s) in s.rid { OneBlankBreaks(env, s, d); }
    if RidExact(after.store, after.rid) {
      OneBlankDeleted(rule, s, d.id, after, back);
    } else {
      BreaksNow(env, rule, s, Add(d, 0), after);
    }
    if CanBreak(env, rule, back) { RoundBreaks(env, rule, s, d, after, back); }
  }

  /** Adding and deleting a device over and over brings the counter to the number of a stored id that is still to be
      generated, and then the add breaks the index. */
  lemma {:induction false} FutureBreaks(env: Env, rule: Expiry.TieRule, s: State, d: Device, x: string, n: nat)
    requires StoreOk(s.store) && RidExact(s.store, s.rid) && OneBlank(env, s.store, d)
    requires x in s.rid && x == Urn.Make(Urn.ResourceKind, n) && n > env.start + s.counter
    ensures CanBreak(env, rule, s)
    decreases n - s.counter
  {
    var back := OneRound(env, rule, s, d);
    if n == env.start + s.counter + 1 {
      assert NextId(env, s) == x;
    } else if !CanBreak(env, rule, s) {
      FutureBreaks(env, rule, back, d, x, n);
    }
  }

  // ---- The exact condition ----

  /** The index of resources is exact after every run in which nobody asks for an id that is still to be generated. */
  ghost predicate StaysExact(env: Env, rule: Expiry.TieRule, s: State) {
    forall ops | InputsOk(env, rule, s, ops) ::
      RidExact(Run(env, rule, s, ops).store, Run(env, rule, s, ops).rid)
  }

  /** An exact index stays exact if and only if no stored id is still to be generated. `d` is any device that can be
      added without naming its resource. */
  lemma StaysExactIff(env: Env, rule: Expiry.TieRule, s: State, d: Device)
    requires Good(s) && RidExact(s.store, s.rid) && OneBlank(env, s.store, d)
    ensures StaysExact(env, rule, s) <==> NoFuture(env, s.counter, s.rid.Keys)
  {
    if NoFuture(env, s.counter, s.rid.Keys) {
      forall ops | InputsOk(env, rule, s, ops)
        ensures RidExact(Run(env, rule, s, ops).store, Run(env, rule, s, ops).rid)
      {
        ExactRun(env, rule, s, ops);
      }
    } else {
      var x :| x in s.rid.Keys && Future(env, s.counter, x);
      Urn.NumberedIs(Urn.ResourceKind, x);
      FutureBreaks(env, rule, s, d, x, Urn.NumberIn(Urn.ResourceKind, x));
      var ops :| Breaks(env, rule, s, ops);
      assert InputsOk(env, rule, s, ops);
    }
  }

  /** After a restart at `start` the index stays exact if and only if no stored id is numbered above that. So it does if
      the clock has not gone back behind the last id that the controller before generated. */
  lemma RestartStaysExactIff(env: Env, rule: Expiry.TieRule, s: State, start: nat, d: Device)
    requires Good(s) && RidExact(s.store, s.rid) && OneBlank(env, s.store, d)
    ensures StaysExact(env.(start := start), rule, Restarted(s)) <==>
      forall x | x in s.rid :: Urn.NumberIn(Urn.ResourceKind, x) <= start
    ensures NoFuture(env, s.counter, s.rid.Keys) && start >= env.start + s.counter ==>
      StaysExact(env.(start := start), rule, Restarted(s))
  {
    var env', r := env.(start := start), Restarted(s);
    RebuildExact(s.store, s.rid);
    assert Abstract(r).live == map id | id in s.store :: s.store[id].expires;
    StaysExactIff(env', rule, r, d);
    assert forall x | x in s.rid :: Future(env', 0, x) <==> Urn.NumberIn(Urn.ResourceKind, x) > start;
    assert forall x | x in s.rid :: Future(env, s.counter, x) <==>
      Urn.NumberIn(Urn.ResourceKind, x) > env.start + s.counter;
  }
}
