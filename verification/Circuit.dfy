/** The database circuit breaker as steps of interleaved calls
    (fastapi_modular/infrastructure/database/circuit.py). A call is a begin
    step and, if it is let through, a later success or failure step; steps of
    concurrent calls interleave freely. */
module Circuit {

  datatype State = Closed | Open | HalfOpen

  datatype Config = Config(threshold: int, reset: real, enabled: bool)

  datatype Breaker = Breaker(state: State, failures: nat, openedAt: real)

  datatype Event =
    | Begin(now: real)
    | Succeed
    | Fail(isTransient: bool, now: real)

  const INITIAL := Breaker(Closed, 0, 0.0)

  // ------------------------------------------------------------ the object

  class CircuitBreaker {
    const config: Config
    var state: State
    var failures: nat
    var openedAt: real

    constructor (config: Config)
      ensures this.config == config && Value() == INITIAL
    {
      this.config := config;
      state, failures, openedAt := Closed, 0, 0.0;
    }

    function Value(): Breaker
      reads this
    {
      Breaker(state, failures, openedAt)
    }

    /** Refuses with the remaining waiting time, or lets the call through. */
    method BeforeCall(now: real) returns (admitted: bool, retryAfter: real)
      modifies this`state
      ensures Value() == Step(config, old(Value()), Begin(now))
      ensures admitted == Admits(config, old(Value()), now)
      ensures !admitted ==> retryAfter == config.reset - (now - openedAt) && retryAfter > 0.0
    {
      if !config.enabled || state == Closed {
        return true, 0.0;
      }
      var waited := now - openedAt;
      if state == Open {
        if waited < config.reset {
          return false, config.reset - waited;
        }
        state := HalfOpen;
      }
      return true, 0.0;
    }

    method OnSuccess()
      modifies this`state, this`failures
      ensures Value() == Step(config, old(Value()), Succeed)
    {
      state := Closed;
      failures := 0;
    }

    method OnFailure(isTransient: bool, now: real)
      modifies this
      ensures Value() == Step(config, old(Value()), Fail(isTransient, now))
    {
      if !config.enabled || !isTransient {
        return;
      }
      failures := failures + 1;
      if failures >= config.threshold || state == HalfOpen {
        state := Open;
        openedAt := now;
      }
    }
  }

  // ------------------------------------------------------- runs of steps

  predicate Admits(c: Config, b: Breaker, now: real) {
    !c.enabled || b.state != Open || now - b.openedAt >= c.reset
  }

  function Step(c: Config, b: Breaker, e: Event): Breaker {
    match e
    case Begin(now) =>
      if c.enabled && b.state == Open && Admits(c, b, now) then b.(state := HalfOpen) else b
    case Succeed => b.(state := Closed, failures := 0)
    case Fail(isTransient, now) =>
      if !c.enabled || !isTransient then b
      else if b.failures + 1 >= c.threshold || b.state == HalfOpen then Breaker(Open, b.failures + 1, now)
      else b.(failures := b.failures + 1)
  }

  function Run(c: Config, events: seq<Event>): Breaker {
    if events == [] then INITIAL
    else Step(c, Run(c, events[..|events| - 1]), events[|events| - 1])
  }

  /** Transient failures since the last success. */
  function Streak(events: seq<Event>): nat {
    if events == [] then 0
    else
      var before, e := Streak(events[..|events| - 1]), events[|events| - 1];
      match e
      case Begin(_) => before
      case Succeed => 0
      case Fail(isTransient, _) => if isTransient then before + 1 else before
  }

  /** The failures needed to trip: a threshold below one acts like one. */
  function Needed(c: Config): nat {
    if c.threshold < 1 then 1 else c.threshold
  }

  predicate Tripped(c: Config, events: seq<Event>) {
    Streak(events) >= Needed(c)
  }

  /** When the last transient failure of a tripped run happened. */
  function TripTime(events: seq<Event>): real
    requires Streak(events) >= 1
  {
    var e := events[|events| - 1];
    if e.Fail? && e.isTransient then e.now
    else TripTime(events[..|events| - 1])
  }

  /** A call begun at step k, late enough, and no outcome has changed the
      streak since. */
  ghost predicate ProbeAt(c: Config, events: seq<Event>, k: nat) {
    && k < |events| && events[k].Begin?
    && Tripped(c, events[..k])
    && events[k].now - TripTime(events[..k]) >= c.reset
    && forall j :: k < j < |events| ==> events[j].Begin? || (events[j].Fail? && !events[j].isTransient)
  }

  ghost predicate Probing(c: Config, events: seq<Event>) {
    exists k :: ProbeAt(c, events, k)
  }

  lemma ProbingGrows(c: Config, events: seq<Event>)
    requires events != []
    ensures var n := |events| - 1; var e := events[n];
      Probing(c, events) <==>
        || ProbeAt(c, events, n)
        || (Probing(c, events[..n]) && (e.Begin? || (e.Fail? && !e.isTransient)))
  {
    var n := |events| - 1;
    if k: nat :| ProbeAt(c, events, k) && k < n {
      assert events[..n][..k] == events[..k];
      assert ProbeAt(c, events[..n], k);
    }
    if Probing(c, events[..n]) && (events[n].Begin? || (events[n].Fail? && !events[n].isTransient)) {
      var k: nat :| ProbeAt(c, events[..n], k);
      assert events[..n][..k] == events[..k];
      assert ProbeAt(c, events, k);
    }
  }

  /** The breaker is a function of the history, under every interleaving: it is
      closed exactly when the streak of transient failures is below the
      threshold, counts from the last failure, and is half-open exactly when a
      probe has begun since. */
  lemma {:induction false} BreakerIsHistory(c: Config, events: seq<Event>)
    requires c.enabled
    ensures var b := Run(c, events);
      && b.failures == Streak(events)
      && (b.state == Closed <==> !Tripped(c, events))
      && (b.state == HalfOpen <==> Tripped(c, events) && Probing(c, events))
      && (Tripped(c, events) ==> b.openedAt == TripTime(events))
  {
    if events != [] {
      var n := |events| - 1;
      BreakerIsHistory(c, events[..n]);
      ProbingGrows(c, events);
    }
  }

  /** A call is refused exactly when the run is tripped, no probe has begun and
      the rest period since the last failure is not over. */
  lemma RefusedExactly(c: Config, events: seq<Event>, now: real)
    requires c.enabled
    ensures !Admits(c, Run(c, events), now) <==>
      Tripped(c, events) && !Probing(c, events) && now - TripTime(events) < c.reset
  {
    BreakerIsHistory(c, events);
  }

  /** Switched off, the breaker refuses nothing. */
  lemma {:induction false} DisabledNeverRefuses(c: Config, events: seq<Event>, now: real)
    requires !c.enabled
    ensures Run(c, events).state == Closed && Admits(c, Run(c, events), now)
  {
    if events != [] {
      DisabledNeverRefuses(c, events[..|events| - 1], now);
    }
  }

  // ------------------------------------------------------------- the probe

  function Begins(n: nat, now: real): (events: seq<Event>)
    ensures |events| == n
  {
    if n == 0 then [] else Begins(n - 1, now) + [Begin(now)]
  }

  /** "Exactly one request probes" does not hold under concurrency: once the
      rest period is over, any number of calls begin before the first outcome. */
  lemma {:induction false} ManyProbes(c: Config, events: seq<Event>, now: real, n: nat)
    requires c.enabled && Tripped(c, events) && now - TripTime(events) >= c.reset
    ensures Tripped(c, events + Begins(n, now)) && Admits(c, Run(c, events + Begins(n, now)), now)
  {
    var all := events + Begins(n, now);
    if n == 0 {
      assert all == events;
      BreakerIsHistory(c, events);
    } else {
      var shorter := events + Begins(n - 1, now);
      assert all[..|all| - 1] == shorter && all[|all| - 1] == Begin(now);
      ManyProbes(c, events, now, n - 1);
    }
  }

  /** Calls that do not overlap: begin, then at once the outcome if let through. */
  datatype Call = Call(begun: real, outcome: Event)

  predicate Orderly(calls: seq<Call>, start: real) {
    calls == [] ||
    (var first := calls[0];
     && start <= first.begun
     && !first.outcome.Begin?
     && (first.outcome.Fail? ==> first.begun <= first.outcome.now)
     && Orderly(calls[1..], if first.outcome.Fail? then first.outcome.now else first.begun))
  }

  function CallOnce(c: Config, b: Breaker, call: Call): Breaker {
    var begun := Step(c, b, Begin(call.begun));
    if Admits(c, b, call.begun) then Step(c, begun, call.outcome) else begun
  }

  /** How many of the calls reach the database. */
  function Reaching(c: Config, b: Breaker, calls: seq<Call>): nat
    decreases |calls|
  {
    if calls == [] then 0
    else
      (if Admits(c, b, calls[0].begun) then 1 else 0) + Reaching(c, CallOnce(c, b, calls[0]), calls[1..])
  }

  predicate AllFailTransiently(calls: seq<Call>) {
    forall k :: 0 <= k < |calls| ==> calls[k].outcome.Fail? && calls[k].outcome.isTransient
  }

  /** n rest periods. */
  function Rests(n: nat, reset: real): real {
    if n == 0 then 0.0 else Rests(n - 1, reset) + reset
  }

  lemma {:induction false} ReachingNeedsRests(c: Config, b: Breaker, calls: seq<Call>, horizon: real)
    requires c.enabled && c.reset > 0.0 && b.state == Open && b.openedAt <= horizon && b.failures + 1 >= c.threshold
    requires Orderly(calls, b.openedAt) && AllFailTransiently(calls)
    requires forall k :: 0 <= k < |calls| ==> calls[k].begun <= horizon
    ensures Rests(Reaching(c, b, calls), c.reset) <= horizon - b.openedAt
    decreases |calls|
  {
    if calls != [] {
      var after := CallOnce(c, b, calls[0]);
      var rest := calls[1..];
      forall k | 0 <= k < |rest| ensures rest[k] == calls[k + 1] { }
      if Admits(c, b, calls[0].begun) {
        if after.openedAt <= horizon {
          ReachingNeedsRests(c, after, rest, horizon);
        }
      } else {
        ReachingNeedsRests(c, b, rest, horizon);
      }
    }
  }

  lemma {:induction false} RestsIsProduct(n: nat, reset: real)
    ensures Rests(n, reset) == n as real * reset
  {
    if n > 0 {
      RestsIsProduct(n - 1, reset);
      assert n as real * reset == (n - 1) as real * reset + reset;
    }
  }

  /** floor(period / reset) */
  function WholeRests(period: real, reset: real): int
    requires reset > 0.0
  {
    (period / reset).Floor
  }

  lemma RestsBound(n: nat, reset: real, period: real)
    requires reset > 0.0 && Rests(n, reset) <= period
    ensures n <= WholeRests(period, reset)
  {
    RestsIsProduct(n, reset);
    var q := period / reset;
    assert (n as real - q) * reset <= 0.0;
    assert n as real <= q;
  }

  /** While the database stays down, at most floor(T / reset) one-at-a-time
      calls reach it in the T seconds after the circuit opens. */
  lemma ProbeRate(c: Config, b: Breaker, calls: seq<Call>, period: real)
    requires c.enabled && c.reset > 0.0 && period >= 0.0
    requires b.state == Open && b.failures + 1 >= c.threshold
    requires Orderly(calls, b.openedAt) && AllFailTransiently(calls)
    requires forall k :: 0 <= k < |calls| ==> calls[k].begun <= b.openedAt + period
    ensures Reaching(c, b, calls) <= WholeRests(period, c.reset)
  {
    ReachingNeedsRests(c, b, calls, b.openedAt + period);
    RestsBound(Reaching(c, b, calls), c.reset, period);
  }
}
