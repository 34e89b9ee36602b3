/** Keeping a service registered: what a registrar achieves that merely sends its updates on time. */
module ServiceRegistration {
  import opened Prelude
  import opened ServiceCatalog
  import Expiry

  /** `v` is registered, and its lease reaches past the next renewal or never ends. */
  ghost predicate Held(s: State, v: Service, due: int) {
    && Good(s) && ValidService(v) && v.ttl > 0 && v.id in s.store
    && Expiry.Lasts(s.store[v.id].expires, due + Expiry.Half(v.ttl))
  }

  /** What the clients do: the registrar of `v` sends each update less than half a life after it falls due; others may
      update it too, as long as that lasts until half a life after the next update is due, but do not delete it. */
  ghost predicate OnSchedule(op: Op, mine: bool, at: int, v: Service, due: int) {
    && at < due + Expiry.Half(v.ttl)
    && if mine then due <= at && op == Update(v.id, v, at)
       else
         match op
         case Add(_, _) => true
         case Update(id, w, now) =>
           id == v.id && w.ttl != 0 ==> now + w.ttl * Expiry.SECOND >= due + Expiry.Half(v.ttl)
         case Delete(id) => id != v.id
         case Sweep(t) => t <= at
  }

  lemma RenewalAccepted(env: Env, rule: Expiry.TieRule, s: State, at: int, v: Service, due: int)
    requires Held(s, v, due) && due <= at
    ensures var (s', outcome) := Step(env, rule, s, Update(v.id, v, at));
      outcome == Done(v.id) && Held(s', v, due + Expiry.Half(v.ttl))
  {
    Outcomes(env, rule, s, Update(v.id, v, at));
    GoodStep(env, rule, s, Update(v.id, v, at));
    Expiry.RenewalExpires(v.ttl, at);
  }

  lemma OthersLast(env: Env, rule: Expiry.TieRule, s: State, op: Op, at: int, v: Service, due: int)
    requires Held(s, v, due) && OnSchedule(op, false, at, v, due)
    ensures Held(Step(env, rule, s, op).0, v, due)
  {
    GoodStep(env, rule, s, op);
    Outcomes(env, rule, s, op);
    if op.Sweep? {
      SweptRefines(rule, s, op.t);
      Expiry.SweepRemoves(rule, Abstract(s), op.t, v.id);
      assert v.id in Abstract(SweepSpec(s, op.t)).live;
    }
  }

  datatype Timed = Timed(op: Op, at: int, mine: bool)

  function Exec(env: Env, rule: Expiry.TieRule, s: State, trace: seq<Timed>): State
    decreases |trace|
  {
    if trace == [] then s else Exec(env, rule, Step(env, rule, s, trace[0].op).0, trace[1..])
  }

  /** Updates fall due every half a life from `due` on, and every step keeps to that schedule. */
  ghost predicate AllOnSchedule(trace: seq<Timed>, v: Service, due: int)
    decreases |trace|
  {
    trace == [] ||
    (OnSchedule(trace[0].op, trace[0].mine, trace[0].at, v, due) &&
     AllOnSchedule(trace[1..], v, if trace[0].mine then due + Expiry.Half(v.ttl) else due))
  }

  /** An update sent in answer to tick `k`, before the next tick. */
  ghost predicate Answers(step: Timed, v: Service, due: int, k: nat) {
    step.mine && step.op == Update(v.id, v, step.at) && Expiry.AtTicks(step.at, due, Expiry.Half(v.ttl), k)
  }

  /** A registrar that answers every tick before the next keeps to its schedule. */
  lemma {:induction false} TicksAreOnSchedule(trace: seq<Timed>, v: Service, due: int)
    requires forall k | 0 <= k < |trace| :: Answers(trace[k], v, due, k)
    ensures AllOnSchedule(trace, v, due)
    decreases |trace|
  {
    if trace != [] {
      var half, rest := Expiry.Half(v.ttl), trace[1..];
      assert Answers(trace[0], v, due, 0) && Expiry.AtTicks(trace[0].at, due, half, 0);
      forall k | 0 <= k < |rest| ensures Answers(rest[k], v, due + half, k) {
        assert Answers(trace[k + 1], v, due, k + 1);
        Expiry.NextTick(rest[k].at, due, half, k);
      }
      TicksAreOnSchedule(rest, v, due + half);
    }
  }

  /** A service whose registrar sends its updates on time is registered after every step of every run, and none of its
      updates is ever refused, ties, sweeps and other clients' lasting updates included. */
  lemma {:induction false} KeptAlive(env: Env, rule: Expiry.TieRule, s: State, trace: seq<Timed>, v: Service, due: int,
                                     n: nat)
    requires Held(s, v, due) && AllOnSchedule(trace, v, due) && n <= |trace|
    ensures v.id in Exec(env, rule, s, trace[..n]).store
    ensures n < |trace| && trace[n].mine ==>
      Step(env, rule, Exec(env, rule, s, trace[..n]), trace[n].op).1 == Done(v.id)
    decreases n
  {
    if trace == [] {
    } else {
      var step, rest := trace[0], trace[1..];
      var s' := Step(env, rule, s, step.op).0;
      if step.mine { RenewalAccepted(env, rule, s, step.at, v, due); }
      else { OthersLast(env, rule, s, step.op, step.at, v, due); }
      if n > 0 {
        assert trace[..n][0] == trace[0] && trace[..n][1..] == rest[..n - 1];
        KeptAlive(env, rule, s', rest, v, if step.mine then due + Expiry.Half(v.ttl) else due, n - 1);
      }
    }
  }

  /** The first registration, be it an add or an update, establishes the lease on the schedule of a ticker created
      before it. */
  lemma FirstRegistration(env: Env, rule: Expiry.TieRule, s: State, op: Op, v: Service, ticker: int, start: int)
    requires Good(s) && v.ttl > 0 && v.id != "" && ticker <= start
    requires (op == Add(v, start) || op == Update(v.id, v, start)) && Step(env, rule, s, op).1.Done?
    ensures Held(Step(env, rule, s, op).0, v, ticker + Expiry.Half(v.ttl))
  {
    Outcomes(env, rule, s, op);
    GoodStep(env, rule, s, op);
    Expiry.RenewalExpires(v.ttl, start);
  }
}
