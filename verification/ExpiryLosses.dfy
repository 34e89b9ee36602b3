/** Which registrations the index of expiry times loses over a run of the code as it stands: exactly. */
module ExpiryLosses {
  import opened Prelude
  import opened Tree
  import opened Expiry

  /** The operation takes another registration out of the index that has the same time as the indexed `id`. */
  ghost predicate Takes(g: Registry, op: Op, id: string) {
    && (op.Put? || op.Remove?) && op.id != id && op.id in g.live
    && exists time :: Entry(time, op.id) in g.index && Entry(time, id) in g.index
  }

  lemma TakesOrphans(g: Registry, op: Op, id: string)
    requires Sound(g) && Takes(g, op, id)
    ensures Orphan(Apply(Literal, g, op), id)
  {
    var time :| Entry(time, op.id) in g.index && Entry(time, id) in g.index;
    InEntries(g.live, Entry(time, op.id));
    InEntries(g.live, Entry(time, id));
    DropTakes(g, op.id);
    forall e | e in Drop(Literal, g.index, op.id) ensures e.id != id { InEntries(g.live, e); }
  }

  /** An orphan stays one unless the operation is on itself. */
  lemma OrphanStep(g: Registry, op: Op, id: string)
    requires Sound(g) && Orphan(g, id) && !Touches(op, id)
    ensures Orphan(Apply(Literal, g, op), id)
  {
    assert op.Clean? ==> id !in Due(g.index, op.t);
  }

  /** What is indexed stays so unless the operation is on itself or takes it out with another of its time. */
  lemma IndexedStep(g: Registry, op: Op, id: string)
    requires Sound(g) && id in g.live && g.live[id].Some? && Entry(g.live[id].value, id) in g.index
    requires !Touches(op, id) && !Takes(g, op, id)
    ensures !Orphan(Apply(Literal, g, op), id)
  {
    var e, g' := Entry(g.live[id].value, id), Apply(Literal, g, op);
    if op.Clean? {
      assert e.time <= op.t ==> id in Due(g.index, op.t);
    } else if (op.Put? || op.Remove?) && op.id in g.live && g.live[op.id].Some? {
      forall f | f in g.index && f.id == op.id ensures f.time != e.time {
        InEntries(g.live, f);
        assert f == Entry(f.time, op.id);
      }
      assert e in Drop(Literal, g.index, op.id);
      assert e in g'.index;
    }
  }

  /** After one step a registration is an orphan exactly if the step is not on itself and it was one before or was taken
      out with another of its time. */
  lemma OrphanStepIff(g: Registry, op: Op, id: string)
    requires Sound(g)
    ensures Orphan(Apply(Literal, g, op), id) <==> !Touches(op, id) && (Orphan(g, id) || Takes(g, op, id))
  {
    if Touches(op, id) {
      assert op.Put? && op.expires.Some? ==> Entry(op.expires.value, id) in Apply(Literal, g, op).index;
    } else if Orphan(g, id) {
      OrphanStep(g, op, id);
    } else if Takes(g, op, id) {
      TakesOrphans(g, op, id);
    } else if id in g.live && g.live[id].Some? {
      var e :| e in g.index && e.id == id;
      InEntries(g.live, e);
      IndexedStep(g, op, id);
    }
  }

  /** Operation `n` takes `id` out of the index with another registration, and no later one is on `id`. */
  ghost predicate LostAt(g: Registry, ops: seq<Op>, id: string, n: nat) {
    && n < |ops| && Takes(Run(Literal, g, ops[..n]), ops[n], id)
    && forall m | n <= m < |ops| :: !Touches(ops[m], id)
  }

  ghost predicate Lost(g: Registry, ops: seq<Op>, id: string) { exists n: nat :: LostAt(g, ops, id, n) }

  lemma LostNext(g: Registry, ops: seq<Op>, id: string)
    requires ops != []
    ensures var k := |ops| - 1;
      Lost(g, ops, id) <==>
      !Touches(ops[k], id) && (Lost(g, ops[..k], id) || Takes(Run(Literal, g, ops[..k]), ops[k], id))
  {
    var k := |ops| - 1;
    var front := ops[..k];
    assert forall n | 0 <= n < k :: front[..n] == ops[..n];
    if n: nat :| LostAt(g, ops, id, n) {
      assert n < k ==> LostAt(g, front, id, n);
    }
    if !Touches(ops[k], id) {
      if n: nat :| LostAt(g, front, id, n) { assert LostAt(g, ops, id, n); }
      if Takes(Run(Literal, g, front), ops[k], id) { assert LostAt(g, ops, id, k); }
    }
  }

  /** From a complete index, a run leaves exactly these registrations without an entry: some operation took an entry
      with the same time out, and none on the registration itself came after. */
  lemma {:induction false} OrphanIffLost(g: Registry, ops: seq<Op>, id: string)
    requires Complete(g)
    ensures Orphan(Run(Literal, g, ops), id) <==> Lost(g, ops, id)
    decreases |ops|
  {
    if ops == [] {
      if Orphan(g, id) { InEntries(g.live, Entry(g.live[id].value, id)); }
    } else {
      var front, op := ops[..|ops| - 1], ops[|ops| - 1];
      OrphanIffLost(g, front, id);
      SoundRun(Literal, g, front);
      OrphanStepIff(Run(Literal, g, front), op, id);
      LostNext(g, ops, id);
    }
  }

  lemma CompleteIffNoOrphan(g: Registry)
    requires Sound(g)
    ensures Complete(g) <==> forall id :: !Orphan(g, id)
  {
    if id :| Orphan(g, id) { InEntries(g.live, Entry(g.live[id].value, id)); }
    if forall id :: !Orphan(g, id) {
      forall e | e in Entries(g.live) ensures e in g.index {
        InEntries(g.live, e);
        assert !Orphan(g, e.id);
        var f :| f in g.index && f.id == e.id;
        InEntries(g.live, f);
      }
    }
  }

  /** So the index is complete after a run exactly if the run lost nothing. */
  lemma CompleteIffNothingLost(g: Registry, ops: seq<Op>)
    requires Complete(g)
    ensures Complete(Run(Literal, g, ops)) <==> forall id :: !Lost(g, ops, id)
  {
    SoundRun(Literal, g, ops);
    CompleteIffNoOrphan(Run(Literal, g, ops));
    forall id ensures Orphan(Run(Literal, g, ops), id) <==> Lost(g, ops, id) { OrphanIffLost(g, ops, id); }
  }

  /** A sweep leaves exactly the registrations with no expiry, a later one, or no entry. */
  lemma SweepLeaves(rule: TieRule, g: Registry, t: int, id: string)
    requires Sound(g) && id in g.live
    ensures id in Apply(rule, g, Clean(t)).live <==> g.live[id].None? || g.live[id].value > t || Orphan(g, id)
  {
    SweepRemoves(rule, g, t, id);
    if g.live[id].Some? && !Orphan(g, id) {
      var e :| e in g.index && e.id == id;
      InEntries(g.live, e);
    }
  }

  /** And it is complete all along exactly if no operation takes one of two equal times out. */
  lemma AlwaysCompleteIff(g: Registry, ops: seq<Op>)
    requires Complete(g)
    ensures (forall n | 0 <= n <= |ops| :: Complete(Run(Literal, g, ops[..n]))) <==> TieFree(g, ops)
  {
    if forall n | 0 <= n <= |ops| :: Complete(Run(Literal, g, ops[..n])) {
      forall n | 0 <= n < |ops| ensures !HitsTie(Run(Literal, g, ops[..n]), ops[n]) {
        assert ops[..n + 1][..n] == ops[..n];
        LiteralCompleteIff(Run(Literal, g, ops[..n]), ops[n]);
        assert Complete(Run(Literal, g, ops[..n + 1]));
      }
    }
    if TieFree(g, ops) {
      forall n | 0 <= n <= |ops| ensures Complete(Run(Literal, g, ops[..n])) {
        assert forall k | 0 <= k < n :: ops[..n][..k] == ops[..k];
        TieFreeRun(g, ops[..n]);
      }
    }
  }
}
