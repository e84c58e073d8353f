/** The per-connection message limiter of the WebSocket gateway
    (fastapi_modular/core/websocket/gateway.py). Time is a supplied real number
    that never goes backwards, as a monotonic clock promises; each accepted message
    takes one token. */
module TokenBucket {

  class Connection {
    const rate: real          // max_messages_per_second
    const burst: real         // burst_messages
    var tokens: real
    var refilled: real

    constructor (rate: real, burst: nat, now: real)
      ensures this.rate == rate && this.burst == burst as real
      ensures tokens == burst as real && refilled == now
    {
      this.rate, this.burst := rate, burst as real;
      tokens, refilled := burst as real, now;
    }

    method TakeToken(now: real) returns (ok: bool)
      modifies this`tokens, this`refilled
      ensures (ok, tokens, refilled) == Take(rate, burst, old(tokens), old(refilled), now)
    {
      if rate <= 0.0 {
        return true;
      }
      tokens := Min(burst, tokens + Refill(rate, refilled, now));
      refilled := now;
      if tokens < 1.0 {
        return false;
      }
      tokens := tokens - 1.0;
      return true;
    }
  }

  function Min(a: real, b: real): real {
    if a <= b then a else b
  }

  /** Tokens that drip between two clock readings. */
  function Refill(rate: real, before: real, now: real): real {
    (now - before) * rate
  }

  /** One arrival: the verdict and the bucket it leaves. */
  function Take(rate: real, burst: real, tokens: real, refilled: real, now: real): (bool, real, real) {
    if rate <= 0.0 then (true, tokens, refilled)
    else
      var level := Min(burst, tokens + Refill(rate, refilled, now));
      if level < 1.0 then (false, level, now) else (true, level - 1.0, now)
  }

  /** Without a positive rate nothing is refused and no token is taken. */
  lemma NoRateNoLimit(rate: real, burst: real, tokens: real, refilled: real, now: real)
    requires rate <= 0.0
    ensures Take(rate, burst, tokens, refilled, now) == (true, tokens, refilled)
  {
  }

  /** What the clock drips between one message and the next. */
  ghost function Gains(rate: real, start: real, times: seq<real>): (gains: seq<real>)
    ensures |gains| == |times|
  {
    if times == [] then []
    else
      var n := |times| - 1;
      Gains(rate, start, times[..n]) + [Refill(rate, if n == 0 then start else times[n - 1], times[n])]
  }

  /** Verdicts so far and the tokens left after them. */
  ghost function Run(burst: real, tokens: real, gains: seq<real>): (r: (seq<bool>, real))
    ensures |r.0| == |gains|
  {
    if gains == [] then ([], tokens)
    else
      var n := |gains| - 1;
      var before := Run(burst, tokens, gains[..n]);
      var level := Min(burst, before.1 + gains[n]);
      (before.0 + [level >= 1.0], if level < 1.0 then level else level - 1.0)
  }

  /** The receive loop of a connection, one clock reading per message. */
  method ReceiveLoop(c: Connection, times: seq<real>) returns (verdicts: seq<bool>)
    modifies c
    ensures c.rate <= 0.0 ==> |verdicts| == |times| && forall j :: 0 <= j < |verdicts| ==> verdicts[j]
    ensures c.rate > 0.0 ==> verdicts == Run(c.burst, old(c.tokens), Gains(c.rate, old(c.refilled), times)).0
  {
    verdicts := [];
    ghost var t0, r0 := c.tokens, c.refilled;
    for i := 0 to |times|
      invariant |verdicts| == i
      invariant c.rate <= 0.0 ==> forall j :: 0 <= j < i ==> verdicts[j]
      invariant c.rate > 0.0 ==> c.refilled == if i == 0 then r0 else times[i - 1]
      invariant c.rate > 0.0 ==> (verdicts, c.tokens) == Run(c.burst, t0, Gains(c.rate, r0, times[..i]))
    {
      ghost var gains := Gains(c.rate, r0, times[..i]);
      GainsStep(c.rate, r0, times, i);
      RunStep(c.burst, t0, gains, Refill(c.rate, if i == 0 then r0 else times[i - 1], times[i]));
      var ok := c.TakeToken(times[i]);
      verdicts := verdicts + [ok];
    }
    assert times[..|times|] == times;
  }

  lemma GainsStep(rate: real, start: real, times: seq<real>, i: nat)
    requires i < |times|
    ensures Gains(rate, start, times[..i + 1])
      == Gains(rate, start, times[..i]) + [Refill(rate, if i == 0 then start else times[i - 1], times[i])]
  {
    assert times[..i + 1][..i] == times[..i];
  }

  lemma RunStep(burst: real, tokens: real, gains: seq<real>, gain: real)
    ensures var before := Run(burst, tokens, gains); var level := Min(burst, before.1 + gain);
      Run(burst, tokens, gains + [gain]) == (before.0 + [level >= 1.0], if level < 1.0 then level else level - 1.0)
  {
  }

  // ------------------------------------------------- closed form of the bucket

  /** How many of the messages i..j-1 were accepted. */
  ghost function Accepted(v: seq<bool>, i: nat, j: nat): nat
    requires i <= j <= |v|
    decreases j
  {
    if i == j then 0 else Accepted(v, i, j - 1) + (if v[j - 1] then 1 else 0)
  }

  /** Tokens dripped strictly after message i and up to message j. */
  ghost function Dripped(gains: seq<real>, i: nat, j: nat): real
    requires i <= j < |gains|
    decreases j
  {
    if i == j then 0.0 else Dripped(gains, i, j - 1) + gains[j]
  }

  /** The refill level that message j finds in a bucket that started full. */
  ghost function Level(burst: real, gains: seq<real>, j: nat): real
    requires j < |gains|
  {
    Min(burst, Run(burst, burst, gains[..j]).1 + gains[j])
  }

  lemma {:induction false} VerdictIsLevel(burst: real, gains: seq<real>, j: nat)
    requires j < |gains|
    ensures Run(burst, burst, gains).0[j] <==> Level(burst, gains, j) >= 1.0
  {
    var n := |gains| - 1;
    if j < n {
      VerdictIsLevel(burst, gains[..n], j);
      assert gains[..n][..j] == gains[..j];
    }
  }

  /** The level is the tightest of all windows that end at message j. */
  lemma {:induction false} LevelIsTightestWindow(burst: real, gains: seq<real>, j: nat) returns (tight: nat)
    requires j < |gains| && forall k :: 0 <= k < |gains| ==> gains[k] >= 0.0
    ensures var v := Run(burst, burst, gains).0; var level := Level(burst, gains, j);
      && (forall i :: 0 <= i <= j ==> level <= burst + Dripped(gains, i, j) - Accepted(v, i, j) as real)
      && tight <= j && level == burst + Dripped(gains, tight, j) - Accepted(v, tight, j) as real
  {
    if j == 0 {
      return 0;
    }
    var p := j - 1;
    var t := LevelIsTightestWindow(burst, gains, p);
    VerdictIsLevel(burst, gains, p);
    assert gains[..j][..p] == gains[..p];
    tight := if Level(burst, gains, j) == burst then j else t;
  }

  ghost predicate FitsDrip(burst: real, gains: seq<real>, v: seq<bool>, i: nat, j: nat)
    requires i <= j < |gains| && |v| == |gains|
  {
    Accepted(v, i, j) as real + 1.0 <= burst + Dripped(gains, i, j)
  }

  lemma VerdictIsFit(burst: real, gains: seq<real>, j: nat)
    requires j < |gains| && forall k :: 0 <= k < |gains| ==> gains[k] >= 0.0
    ensures var v := Run(burst, burst, gains).0; v[j] <==> forall i :: 0 <= i <= j ==> FitsDrip(burst, gains, v, i, j)
  {
    var v := Run(burst, burst, gains).0;
    VerdictIsLevel(burst, gains, j);
    var tight := LevelIsTightestWindow(burst, gains, j);
    if !v[j] {
      assert !FitsDrip(burst, gains, v, tight, j);
    }
  }

  lemma {:induction false} AcceptedWithinDrip(burst: real, gains: seq<real>, i: nat, j: nat)
    requires burst >= 0.0 && i <= j < |gains| && forall k :: 0 <= k < |gains| ==> gains[k] >= 0.0
    ensures Accepted(Run(burst, burst, gains).0, i, j + 1) as real <= burst + Dripped(gains, i, j)
  {
    VerdictIsLevel(burst, gains, j);
    var _ := LevelIsTightestWindow(burst, gains, j);
    if !Run(burst, burst, gains).0[j] && i < j {
      AcceptedWithinDrip(burst, gains, i, j - 1);
    }
  }

  // ---------------------------------------------------------------- exactness

  ghost predicate Clock(start: real, times: seq<real>) {
    && (forall i :: 0 <= i < |times| ==> start <= times[i])
    && (forall i, j :: 0 <= i <= j < |times| ==> times[i] <= times[j])
  }

  lemma {:induction false} GainAt(rate: real, start: real, times: seq<real>, k: nat)
    requires k < |times|
    ensures Gains(rate, start, times)[k] == Refill(rate, if k == 0 then start else times[k - 1], times[k])
  {
    if k < |times| - 1 {
      GainAt(rate, start, times[..|times| - 1], k);
    }
  }

  lemma GainsAreNonNegative(rate: real, start: real, times: seq<real>)
    requires rate > 0.0 && Clock(start, times)
    ensures forall k :: 0 <= k < |times| ==> Gains(rate, start, times)[k] >= 0.0
  {
    forall k | 0 <= k < |times| ensures Gains(rate, start, times)[k] >= 0.0 {
      GainAt(rate, start, times, k);
      RefillIsNonNegative(rate, if k == 0 then start else times[k - 1], times[k]);
    }
  }

  lemma RefillIsNonNegative(rate: real, from: real, to: real)
    requires rate > 0.0 && from <= to
    ensures Refill(rate, from, to) >= 0.0
  {
  }

  lemma RefillsAdd(rate: real, a: real, b: real, c: real)
    ensures rate * (b - a) + Refill(rate, b, c) == rate * (c - a)
  {
  }

  lemma {:induction false} DripIsRateTimesLength(rate: real, start: real, times: seq<real>, i: nat, j: nat)
    requires i <= j < |times|
    ensures Dripped(Gains(rate, start, times), i, j) == rate * (times[j] - times[i])
    decreases j
  {
    if i < j {
      DripIsRateTimesLength(rate, start, times, i, j - 1);
      GainAt(rate, start, times, j);
      RefillsAdd(rate, times[i], times[j - 1], times[j]);
    }
  }

  /** The verdicts on a connection opened at `start` with a full bucket. */
  ghost function Admitted(rate: real, burst: nat, start: real, times: seq<real>): (v: seq<bool>)
    ensures |v| == |times|
  {
    Run(burst as real, burst as real, Gains(rate, start, times)).0
  }

  /** Accepting message j keeps the window from message i within
      burst + rate * length. */
  ghost predicate FitsWindow(rate: real, burst: nat, times: seq<real>, v: seq<bool>, i: nat, j: nat)
    requires i <= j < |times| && |v| == |times|
  {
    Accepted(v, i, j) as real + 1.0 <= burst as real + rate * (times[j] - times[i])
  }

  /** A message is accepted exactly when every window ending at it still fits:
      nothing is refused without need and nothing is admitted beyond the rate. */
  lemma AcceptsExactly(rate: real, burst: nat, start: real, times: seq<real>, j: nat)
    requires rate > 0.0 && Clock(start, times) && j < |times|
    ensures var v := Admitted(rate, burst, start, times);
      v[j] <==> forall i :: 0 <= i <= j ==> FitsWindow(rate, burst, times, v, i, j)
  {
    var b, gains := burst as real, Gains(rate, start, times);
    var v := Admitted(rate, burst, start, times);
    GainsAreNonNegative(rate, start, times);
    VerdictIsFit(b, gains, j);
    forall i | 0 <= i <= j
      ensures FitsWindow(rate, burst, times, v, i, j) <==> FitsDrip(b, gains, v, i, j)
    {
      DripIsRateTimesLength(rate, start, times, i, j);
    }
  }

  /** Any window of messages i..j admits at most burst + rate * length. */
  lemma WindowBound(rate: real, burst: nat, start: real, times: seq<real>, i: nat, j: nat)
    requires rate > 0.0 && Clock(start, times) && i <= j < |times|
    ensures Accepted(Admitted(rate, burst, start, times), i, j + 1) as real
      <= burst as real + rate * (times[j] - times[i])
  {
    GainsAreNonNegative(rate, start, times);
    AcceptedWithinDrip(burst as real, Gains(rate, start, times), i, j);
    DripIsRateTimesLength(rate, start, times, i, j);
  }
}
