/** One keepalive routine: registers, then renews at every tick, and gives up after too many failures in a row. */
module KeepAlive {
  import opened Prelude

  const RETRIES := 5

  /** How the remote catalog answers a call. */
  datatype Reply = Accepted | Missing | Refused

  datatype Call = Update | Add

  /** The answers to one renewal: to the update and, if that finds no registration, to the add after it. */
  datatype Exchange = Exchange(update: Reply, add: Reply)

  predicate Fails(x: Exchange) {
    x.update == Refused || (x.update == Missing && x.add != Accepted)
  }

  function Calls(x: Exchange): seq<Call> {
    if x.update == Missing then [Update, Add] else [Update]
  }

  /** The calls of the first `n` exchanges. */
  function AllCalls(xs: seq<Exchange>, n: nat): seq<Call>
    requires n <= |xs|
  {
    if n == 0 then [] else AllCalls(xs, n - 1) + Calls(xs[n - 1])
  }

  /** How many of the last of the first `n` exchanges failed in a row. */
  function Trailing(xs: seq<Exchange>, n: nat): (k: nat)
    requires n <= |xs|
    ensures k <= n
  {
    if n == 0 || !Fails(xs[n - 1]) then 0 else Trailing(xs, n - 1) + 1
  }

  /** Tick `n` ends a run of `RETRIES` failures. */
  ghost predicate Exhausted(xs: seq<Exchange>, n: nat)
    requires n < |xs|
  {
    n + 1 >= RETRIES && forall i | n + 1 - RETRIES <= i <= n :: Fails(xs[i])
  }

  lemma {:induction false} TrailingIs(xs: seq<Exchange>, n: nat)
    requires n <= |xs|
    ensures forall i | n - Trailing(xs, n) <= i < n :: Fails(xs[i])
    ensures Trailing(xs, n) < n ==> !Fails(xs[n - Trailing(xs, n) - 1])
  {
    if n > 0 && Fails(xs[n - 1]) { TrailingIs(xs, n - 1); }
  }

  /** The failures counted reach the limit exactly at the end of such a run. */
  lemma ExhaustedIff(xs: seq<Exchange>, n: nat)
    requires n < |xs|
    ensures Exhausted(xs, n) <==> Trailing(xs, n + 1) >= RETRIES
  {
    TrailingIs(xs, n + 1);
  }

  /** That is, when this renewal and the four before it failed. */
  lemma FiveInARow(xs: seq<Exchange>, n: nat)
    requires n < |xs|
    ensures Exhausted(xs, n) <==>
      n >= 4 && Fails(xs[n - 4]) && Fails(xs[n - 3]) && Fails(xs[n - 2]) && Fails(xs[n - 1]) && Fails(xs[n])
  {
  }

  /** A renewal succeeds if the update is accepted, or misses the registration and the add after it is accepted. */
  lemma SucceedsIff(x: Exchange)
    ensures !Fails(x) <==> x.update == Accepted || (x.update == Missing && x.add == Accepted)
  {
  }

  /** No tick before `n` ends a run of failures. */
  ghost predicate NoneBefore(xs: seq<Exchange>, n: nat)
    requires n <= |xs|
  {
    forall i | 0 <= i < n :: !Exhausted(xs, i)
  }

  lemma NotYetExhausted(xs: seq<Exchange>, n: nat)
    requires n <= |xs| && NoneBefore(xs, n)
    ensures Trailing(xs, n) < RETRIES
  {
    if n > 0 { ExhaustedIff(xs, n - 1); }
  }

  /** Updates the registration, or adds it if there is none. */
  method Register(x: Exchange) returns (failed: bool, calls: seq<Call>)
    ensures failed == Fails(x) && calls == Calls(x)
  {
    calls := [Update];
    failed := x.update != Accepted;
    if x.update == Missing {
      calls := calls + [Add];
      failed := x.add != Accepted;
    }
  }

  /** One tick. */
  method Renew(x: Exchange, tries: nat) returns (tries': nat, calls: seq<Call>)
    ensures tries' == (if Fails(x) then tries + 1 else 0) && calls == Calls(x)
  {
    tries' := tries;
    calls := [Update];
    match x.update
    case Accepted => tries' := 0;
    case Missing =>
      calls := calls + [Add];
      if x.add == Accepted { tries' := 0; } else { tries' := tries' + 1; }
    case Refused => tries' := tries' + 1;
  }

  /** The routine, for the ticks that come before the shutdown signal. Whether the first registration succeeds makes no
      difference. An error is signalled at the first tick that ends a run of five failures, and at no other; nothing is
      called after that. */
  method Run(first: Exchange, ticks: seq<Exchange>) returns (signal: Option<nat>, calls: seq<Call>)
    ensures signal.Some? ==> signal.value < |ticks| && Exhausted(ticks, signal.value) && NoneBefore(ticks, signal.value)
    ensures signal.Some? ==> calls == Calls(first) + AllCalls(ticks, signal.value + 1)
    ensures signal.None? ==> NoneBefore(ticks, |ticks|) && calls == Calls(first) + AllCalls(ticks, |ticks|)
  {
    var tries := 0;
    var _, calls0 := Register(first);
    calls := calls0;
    for i := 0 to |ticks|
      invariant tries == Trailing(ticks, i) < RETRIES
      invariant NoneBefore(ticks, i) && calls == Calls(first) + AllCalls(ticks, i)
    {
      var more;
      tries, more := Renew(ticks[i], tries);
      calls := calls + more;
      ExhaustedIff(ticks, i);
      if tries >= RETRIES { return Some(i), calls; }
    }
    signal := None;
  }
}
