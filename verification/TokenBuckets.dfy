/** One token bucket, refilled lazily when it is asked. */
module TokenBuckets {
  import opened Prelude
  import opened Rounding
  import RealFacts

  datatype Config = Config(rate: real, burst: int, cooldown: real)

  datatype Bucket = Bucket(tokens: real, lastRefill: real)

  predicate Sane(cfg: Config) {
    cfg.rate >= 0.0 && cfg.burst >= 0
  }

  function Min(a: real, b: real): real {
    if b < a then b else a
  }

  function Full(cfg: Config, now: real): Bucket {
    Bucket(cfg.burst as real, now)
  }

  function Refill(cfg: Config, b: Bucket, now: real): Bucket {
    Bucket(Min(cfg.burst as real, b.tokens + (now - b.lastRefill) * cfg.rate), now)
  }

  function Consume(cfg: Config, b: Bucket, now: real): (Bucket, bool) {
    var r := Refill(cfg, b, now);
    if r.tokens >= 1.0 then (r.(tokens := r.tokens - 1.0), true) else (r, false)
  }

  /** The bucket's level is between zero and the burst size, and it was last refilled by `now`. */
  predicate Within(cfg: Config, b: Bucket, now: real) {
    0.0 <= b.tokens <= cfg.burst as real && b.lastRefill <= now
  }

  lemma ConsumeStaysWithin(cfg: Config, b: Bucket, now: real)
    requires Sane(cfg) && Within(cfg, b, now)
    ensures Within(cfg, Refill(cfg, b, now), now)
    ensures Within(cfg, Consume(cfg, b, now).0, now)
  {
    RealFacts.NonNegative(now - b.lastRefill, cfg.rate);
  }

  /** Refilling again at the same moment adds nothing. */
  lemma RefillNow(cfg: Config, b: Bucket, now: real)
    requires b.tokens <= cfg.burst as real && b.lastRefill == now
    ensures Refill(cfg, b, now) == b
  {
    NothingEarned(b.tokens, now - b.lastRefill, cfg.rate, cfg.burst as real);
  }

  lemma NothingEarned(tokens: real, elapsed: real, rate: real, max: real)
    requires tokens <= max && elapsed == 0.0
    ensures Min(max, tokens + elapsed * rate) == tokens
  {
    RealFacts.ZeroTimes(elapsed, rate);
  }

  /** Refilling in two steps is refilling once. */
  lemma RefillTwice(cfg: Config, b: Bucket, t1: real, t2: real)
    requires Sane(cfg) && b.lastRefill <= t1 <= t2
    ensures Refill(cfg, Refill(cfg, b, t1), t2) == Refill(cfg, b, t2)
  {
    EarnedTwice(b.tokens, t1 - b.lastRefill, t2 - t1, t2 - b.lastRefill, cfg.rate, cfg.burst as real);
  }

  lemma EarnedTwice(tokens: real, first: real, second: real, both: real, rate: real, max: real)
    requires second >= 0.0 && rate >= 0.0 && both == first + second
    ensures Min(max, Min(max, tokens + first * rate) + second * rate) == Min(max, tokens + both * rate)
  {
    RealFacts.Distribute(first, second, rate);
    RealFacts.NonNegative(second, rate);
  }

  /** The level rises no faster than the rate. */
  lemma RefillLater(cfg: Config, b: Bucket, t: real, now: real)
    requires Sane(cfg) && b.lastRefill <= t <= now
    ensures Refill(cfg, b, now).tokens <= Refill(cfg, b, t).tokens + (now - t) * cfg.rate
  {
    RefillTwice(cfg, b, t, now);
    AtMostSum(cfg.burst as real, Refill(cfg, b, t).tokens + (now - t) * cfg.rate);
  }

  lemma AtMostSum(max: real, x: real)
    ensures Min(max, x) <= x
  {
  }

  predicate TimesFrom(t: real, times: seq<real>) {
    Sorted(times) && forall i | 0 <= i < |times| :: t <= times[i]
  }

  /** The answers to a run of requests at the given times. */
  function Decisions(cfg: Config, b: Bucket, times: seq<real>): (d: seq<bool>)
    ensures |d| == |times|
    decreases |times|
  {
    if times == [] then []
    else
      var (b', ok) := Consume(cfg, b, times[0]);
      [ok] + Decisions(cfg, b', times[1..])
  }

  /** The times at which a run is granted. */
  function GrantedTimes(cfg: Config, b: Bucket, times: seq<real>): seq<real>
    decreases |times|
  {
    if times == [] then []
    else
      var (b', ok) := Consume(cfg, b, times[0]);
      (if ok then [times[0]] else []) + GrantedTimes(cfg, b', times[1..])
  }

  /** A denied request has no effect on any later answer. */
  lemma DeniedPollInvisible(cfg: Config, b: Bucket, t: real, times: seq<real>)
    requires Sane(cfg) && b.lastRefill <= t && TimesFrom(t, times)
    requires !Consume(cfg, b, t).1
    ensures Decisions(cfg, Consume(cfg, b, t).0, times) == Decisions(cfg, b, times)
    ensures GrantedTimes(cfg, Consume(cfg, b, t).0, times) == GrantedTimes(cfg, b, times)
  {
    if times != [] {
      RefillTwice(cfg, b, t, times[0]);
    }
  }

  lemma GrantedFirst(cfg: Config, b: Bucket, t: real, rest: seq<real>)
    ensures var (b', ok) := Consume(cfg, b, t);
      GrantedTimes(cfg, b, [t] + rest) == (if ok then [t] else []) + GrantedTimes(cfg, b', rest)
  {
    assert ([t] + rest)[1..] == rest;
  }

  /** So a client that had asked only when it was going to be granted would have been granted every time. */
  lemma {:induction false} OnlyGrantsMatter(cfg: Config, b: Bucket, times: seq<real>)
    requires Sane(cfg) && TimesFrom(b.lastRefill, times)
    ensures GrantedTimes(cfg, b, GrantedTimes(cfg, b, times)) == GrantedTimes(cfg, b, times)
    ensures TimesFrom(b.lastRefill, GrantedTimes(cfg, b, times))
    decreases |times|
  {
    if times != [] {
      var t, later := times[0], times[1..];
      assert times == [t] + later;
      var (b', ok) := Consume(cfg, b, t);
      var rest := GrantedTimes(cfg, b', later);
      GrantedFirst(cfg, b, t, later);
      OnlyGrantsMatter(cfg, b', later);
      if ok {
        GrantedFirst(cfg, b, t, rest);
      } else {
        assert GrantedTimes(cfg, b, times) == [] + rest == rest;
        DeniedPollInvisible(cfg, b, t, rest);
      }
    }
  }

  // ----- retry_after and remaining -----

  function Max(a: real, b: real): real {
    if b > a then b else a
  }

  /** `retry_after` before rounding, from a bucket that has just denied. */
  function RetryAfter(cfg: Config, b: Bucket): real {
    Max(if cfg.rate > 0.0 then (1.0 - b.tokens) / cfg.rate else cfg.cooldown, 0.1)
  }

  function ReportedRetry(cfg: Config, b: Bucket): real {
    Round(RetryAfter(cfg, b), 100.0)
  }

  function Remaining(b: Bucket): int {
    var n := if b.tokens >= 0.0 then b.tokens.Floor else -((-b.tokens).Floor);
    if n > 0 then n else 0
  }

  /** After a denial, a request `wait` seconds later is granted exactly when the bucket can hold a token and
      the wait covers the missing fraction. */
  lemma GrantedAfterWait(cfg: Config, b: Bucket, now: real, wait: real)
    requires cfg.rate > 0.0 && Within(cfg, b, now) && wait >= 0.0
    requires !Consume(cfg, b, now).1
    ensures var denied := Consume(cfg, b, now).0;
      Consume(cfg, denied, now + wait).1 <==> cfg.burst >= 1 && wait >= (1.0 - denied.tokens) / cfg.rate
  {
    var denied := Consume(cfg, b, now).0;
    assert denied.lastRefill == now && denied.tokens < 1.0;
    WaitCovers(cfg.rate, denied.tokens, wait);
    assert now + wait - now == wait;
  }

  lemma WaitCovers(rate: real, tokens: real, wait: real)
    requires rate > 0.0
    ensures tokens + wait * rate >= 1.0 <==> wait >= (1.0 - tokens) / rate
  {
    var need := (1.0 - tokens) / rate;
    RealFacts.Quotient(1.0 - tokens, rate);
    RealFacts.Ordered(need, wait, rate);
  }

  /** Waiting the unrounded time, or the reported time and half a hundredth more, is always enough. */
  lemma RetryAfterSuffices(cfg: Config, b: Bucket, now: real, wait: real)
    requires cfg.rate > 0.0 && cfg.burst >= 1 && Within(cfg, b, now)
    requires !Consume(cfg, b, now).1
    requires var denied := Consume(cfg, b, now).0;
      wait >= RetryAfter(cfg, denied) || wait >= ReportedRetry(cfg, denied) + 0.005
    ensures Consume(cfg, Consume(cfg, b, now).0, now + wait).1
  {
    var denied := Consume(cfg, b, now).0;
    RoundError(RetryAfter(cfg, denied), 100.0);
    assert 0.5 / 100.0 == 0.005;
    GrantedAfterWait(cfg, b, now, wait);
  }

  /** The seconds until a bucket with less than one token holds one. */
  function Need(cfg: Config, b: Bucket): real
    requires cfg.rate > 0.0
  {
    (1.0 - b.tokens) / cfg.rate
  }

  /** The reported time is enough exactly when what is needed is within the minimum of a tenth of a second, or its
      hundredths are rounded up. */
  lemma ReportedRetryEnoughIff(cfg: Config, b: Bucket, now: real)
    requires cfg.rate > 0.0 && cfg.burst >= 1 && Within(cfg, b, now)
    requires !Consume(cfg, b, now).1
    ensures var denied := Consume(cfg, b, now).0;
      var need := Need(cfg, denied);
      Consume(cfg, denied, now + ReportedRetry(cfg, denied)).1 <==> need <= 0.1 || RoundsUp(need * 100.0)
  {
    var denied := Consume(cfg, b, now).0;
    var need := Need(cfg, denied);
    RoundMonotone(0.0, RetryAfter(cfg, denied), 100.0);
    assert Round(0.0, 100.0) == 0.0;
    GrantedAfterWait(cfg, b, now, ReportedRetry(cfg, denied));
    if need <= 0.1 {
      RoundSufficesIff(0.1, 100.0);
      assert RoundsUp(10.0);
    } else {
      RoundSufficesIff(need, 100.0);
    }
  }

  /** It need not be: from an empty bucket refilled three times a second, 1/3 is reported as 0.33. */
  lemma ReportedRetryMayBeTooShort(cfg: Config, now: real)
    requires cfg.rate == 3.0 && cfg.burst >= 1
    ensures var denied := Consume(cfg, Bucket(0.0, now), now);
      && !denied.1 && ReportedRetry(cfg, denied.0) == 0.33
      && !Consume(cfg, denied.0, now + 0.33).1
  {
    var b := Bucket(0.0, now);
    RefillNow(cfg, b, now);
    var exact := 1.0 / 3.0;
    assert RetryAfter(cfg, b) == exact;
    RoundsDown(exact * 100.0, 33);
    assert ReportedRetry(cfg, b) == 0.33;
    GrantedAfterWait(cfg, b, now, 0.33);
  }

  /** Of `n` requests at one instant, those numbered below the level of the refilled bucket are granted. */
  lemma {:induction false} InstantBurst(cfg: Config, b: Bucket, now: real, n: nat, i: nat)
    requires Sane(cfg) && Within(cfg, b, now) && i < n
    ensures Decisions(cfg, b, seq(n, _ => now))[i] <==> (i + 1) as real <= Refill(cfg, b, now).tokens
    decreases n
  {
    var times := seq(n, _ => now);
    var (b', ok) := Consume(cfg, b, now);
    assert times[1..] == seq(n - 1, _ => now);
    ConsumeStaysWithin(cfg, b, now);
    if i > 0 {
      RefillNow(cfg, b', now);
      InstantBurst(cfg, b', now, n - 1, i - 1);
    }
  }

  /** `remaining` is exactly the number of further requests that succeed with no time passing. */
  lemma RemainingIsExact(cfg: Config, b: Bucket, now: real, n: nat, i: nat)
    requires Sane(cfg) && Within(cfg, b, now) && i < n
    ensures var after := Consume(cfg, b, now).0;
      Decisions(cfg, after, seq(n, _ => now))[i] <==> i < Remaining(after)
  {
    var after := Consume(cfg, b, now).0;
    ConsumeStaysWithin(cfg, b, now);
    InstantBurst(cfg, after, now, n, i);
    RefillNow(cfg, after, now);
  }

  // ----- The object -----

  class TokenBucket {
    const config: Config
    const maxTokens: real
    const rate: real
    var tokens: real
    var lastRefill: real

    ghost predicate Valid() {
      maxTokens == config.burst as real && rate == config.rate
    }

    function State(): Bucket
      reads this
    {
      Bucket(tokens, lastRefill)
    }

    constructor (config: Config, now: real)
      ensures Valid() && this.config == config && State() == Full(config, now)
    {
      this.config := config;
      tokens := config.burst as real;
      lastRefill := now;
      maxTokens := config.burst as real;
      rate := config.rate;
    }

    method Take(now: real) returns (ok: bool)
      requires Valid()
      modifies this
      ensures (State(), ok) == Consume(config, old(State()), now)
    {
      ghost var refilled := Refill(config, State(), now);
      var elapsed := now - lastRefill;
      assert elapsed * rate == (now - lastRefill) * config.rate;
      tokens := Min(maxTokens, tokens + elapsed * rate);
      lastRefill := now;
      assert State() == refilled;
      if tokens >= 1.0 {
        tokens := tokens - 1.0;
        return true;
      }
      return false;
    }
  }
}
