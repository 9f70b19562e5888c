/** What a key can spend: how many tokens the limiter hands out in any stretch of any run. */
module LimiterBounds {
  import opened Prelude
  import opened TokenBuckets
  import opened LimiterStore
  import RealFacts

  // ----- Tokens spent -----

  /** How many of the results are allowed answers of key `k`: the tokens spent there, whether or not the whole
      request was granted. */
  function AllowedAt(keys: seq<Key>, results: seq<Result>, k: Key): nat
    requires |keys| == |results|
    decreases |keys|
  {
    if keys == [] then 0
    else (if keys[0] == k && results[0].allowed then 1 else 0) + AllowedAt(keys[1..], results[1..], k)
  }

  function StepSpent(cs: Configs, evicting: bool, m: Store, op: Op, k: Key): nat {
    if op.Request? then AllowedAt(op.keys, CheckEach(cs, evicting, m, op.keys, op.time).1, k) else 0
  }

  /** The tokens that a run spends at key `k`. */
  function Spent(cs: Configs, evicting: bool, m: Store, ops: seq<Op>, k: Key): nat
    decreases |ops|
  {
    if ops == [] then 0
    else StepSpent(cs, evicting, m, ops[0], k) + Spent(cs, evicting, Step(cs, evicting, m, ops[0]).0, ops[1..], k)
  }

  /** How many requests of a run were granted and had key `k` among the keys asked. */
  function Granted(cs: Configs, evicting: bool, m: Store, ops: seq<Op>, k: Key): nat
    decreases |ops|
  {
    if ops == [] then 0
    else
      var (m', results) := Step(cs, evicting, m, ops[0]);
      var paid := ops[0].Request? && k in ops[0].keys && AllAllowed(results);
      (if paid then 1 else 0) + Granted(cs, evicting, m', ops[1..], k)
  }

  /** A granted request has spent a token at every key it asked. */
  lemma {:induction false} AllAllowedSpends(keys: seq<Key>, results: seq<Result>, k: Key)
    requires |keys| == |results| && k in keys && AllAllowed(results)
    ensures AllowedAt(keys, results, k) >= 1
    decreases |keys|
  {
    if keys[0] != k {
      assert forall i | 0 <= i < |results| - 1 :: results[1..][i] == results[i + 1];
      AllAllowedSpends(keys[1..], results[1..], k);
    }
  }

  lemma {:induction false} GrantedSpends(cs: Configs, evicting: bool, m: Store, ops: seq<Op>, k: Key)
    ensures Granted(cs, evicting, m, ops, k) <= Spent(cs, evicting, m, ops, k)
    decreases |ops|
  {
    if ops != [] {
      var (m', results) := Step(cs, evicting, m, ops[0]);
      if ops[0].Request? && k in ops[0].keys && AllAllowed(results) {
        AllAllowedSpends(ops[0].keys, results, k);
      }
      GrantedSpends(cs, evicting, m', ops[1..], k);
    }
  }

  lemma AvailableLater(cs: Configs, m: Store, k: Key, t: real, now: real)
    requires SaneConfigs(cs) && WellFormed(cs, m, t) && t <= now
    ensures Available(cs, m, k, now) <= Available(cs, m, k, t) + (now - t) * ConfigOf(cs, k).rate
    ensures 0.0 <= Available(cs, m, k, now) <= ConfigOf(cs, k).burst as real
  {
    if k in m {
      RefillLater(ConfigOf(cs, k), m[k], t, now);
      ConsumeStaysWithin(ConfigOf(cs, k), m[k], now);
    } else {
      RealFacts.NonNegative(now - t, ConfigOf(cs, k).rate);
      assert Available(cs, m, k, now) == Available(cs, m, k, t);
    }
  }

  lemma AvailableAfterEvict(cs: Configs, m: Store, k: Key, now: real)
    requires SaneConfigs(cs) && FillsBeforeStale(ConfigOf(cs, k)) && WellFormed(cs, m, now)
    ensures Available(cs, Evict(m, now), k, now) == Available(cs, m, k, now)
  {
    if k in m && Stale(m[k], now) {
      StaleIsFull(ConfigOf(cs, k), m[k], now);
    }
  }

  lemma CheckAvailable(cs: Configs, evicting: bool, m: Store, j: Key, k: Key, now: real)
    requires SaneConfigs(cs) && WellFormed(cs, m, now)
    requires evicting ==> FillsBeforeStale(ConfigOf(cs, k))
    ensures var (m', r) := Check(cs, evicting, m, j, now);
      Available(cs, m', k, now) == Available(cs, m, k, now) - if j == k && r.allowed then 1.0 else 0.0
  {
    CheckSpends(cs, evicting, m, j, now);
    if j != k && j !in m && evicting {
      AvailableAfterEvict(cs, m[j := Full(ConfigOf(cs, j), now)], k, now);
    }
  }

  /** A request takes from key `k` exactly what its allowed answers there cost. */
  lemma {:induction false} CheckEachAvailable(cs: Configs, evicting: bool, m: Store, keys: seq<Key>, k: Key, now: real)
    requires SaneConfigs(cs) && WellFormed(cs, m, now)
    requires evicting ==> FillsBeforeStale(ConfigOf(cs, k))
    ensures var (m', results) := CheckEach(cs, evicting, m, keys, now);
      Available(cs, m', k, now) + AllowedAt(keys, results, k) as real == Available(cs, m, k, now)
    decreases |keys|
  {
    if keys != [] {
      var (m', first) := Check(cs, evicting, m, keys[0], now);
      CheckAvailable(cs, evicting, m, keys[0], k, now);
      CheckWellFormed(cs, evicting, m, keys[0], now, now);
      CheckEachAvailable(cs, evicting, m', keys[1..], k, now);
      var rest := CheckEach(cs, evicting, m', keys[1..], now).1;
      assert ([first] + rest)[1..] == rest;
    }
  }

  predicate IsReset(op: Op, k: Key) {
    op.Reset? && op.key == k
  }

  /** A step takes from key `k` exactly what is spent there, unless it resets the key. */
  lemma StepAvailable(cs: Configs, evicting: bool, m: Store, op: Op, k: Key)
    requires SaneConfigs(cs) && WellFormed(cs, m, op.time)
    requires evicting ==> FillsBeforeStale(ConfigOf(cs, k))
    ensures Available(cs, Step(cs, evicting, m, op).0, k, op.time) + StepSpent(cs, evicting, m, op, k) as real
         == if IsReset(op, k) then ConfigOf(cs, k).burst as real else Available(cs, m, k, op.time)
  {
    match op
    case Request(keys, now) => CheckEachAvailable(cs, evicting, m, keys, k, now);
    case Cleanup(now) => if evicting { AvailableAfterEvict(cs, m, k, now); }
    case Reset(j, now) =>
  }

  // ----- The rate bound -----

  /** How often a run resets the key. */
  function Resets(ops: seq<Op>, k: Key): nat
    decreases |ops|
  {
    if ops == [] then 0
    else (if IsReset(ops[0], k) then 1 else 0) + Resets(ops[1..], k)
  }

  /** What so many full buckets and so many seconds of refilling are worth. */
  function Worth(cfg: Config, buckets: nat, seconds: real): real {
    if buckets == 0 then seconds * cfg.rate else Worth(cfg, buckets - 1, seconds) + cfg.burst as real
  }

  lemma {:induction false} WorthIs(cfg: Config, buckets: nat, seconds: real)
    ensures Worth(cfg, buckets, seconds) == buckets as real * cfg.burst as real + seconds * cfg.rate
  {
    if buckets == 0 {
      RealFacts.ZeroTimes(buckets as real, cfg.burst as real);
    } else {
      WorthIs(cfg, buckets - 1, seconds);
      RealFacts.Distribute((buckets - 1) as real, 1.0, cfg.burst as real);
      assert buckets as real == (buckets - 1) as real + 1.0;
    }
  }

  lemma {:induction false} WorthAdds(cfg: Config, buckets: nat, first: real, second: real, both: real)
    requires both == first + second
    ensures Worth(cfg, buckets, both) == Worth(cfg, buckets, second) + first * cfg.rate
  {
    if buckets == 0 {
      RealFacts.Distribute(first, second, cfg.rate);
    } else {
      WorthAdds(cfg, buckets - 1, first, second, both);
    }
  }

  lemma {:induction false} SpentIsRefilled(
      cs: Configs, evicting: bool, m: Store, t: real, ops: seq<Op>, k: Key, end: real)
    requires SaneConfigs(cs) && WellFormed(cs, m, t) && OpsFrom(t, ops)
    requires evicting ==> FillsBeforeStale(ConfigOf(cs, k))
    requires t <= end && forall i | 0 <= i < |ops| :: ops[i].time <= end
    ensures Spent(cs, evicting, m, ops, k) as real
         <= Available(cs, m, k, t) + Worth(ConfigOf(cs, k), Resets(ops, k), end - t)
    decreases |ops|
  {
    if ops == [] {
      AvailableWithin(cs, m, k, t);
      WorthSomething(ConfigOf(cs, k), 0, end - t);
    } else {
      var now, rest := ops[0].time, ops[1..];
      StepWellFormed(cs, evicting, m, ops[0], t);
      SpentIsRefilled(cs, evicting, Step(cs, evicting, m, ops[0]).0, now, rest, k, end);
      assert WellFormed(cs, m, now);
      SpentFirst(cs, evicting, m, ops, k, end - now);
      WaitingIsWorth(cs, m, k, t, now, Resets(ops, k), end);
    }
  }

  /** One step: what is spent in it and after it is covered by what is there before it. */
  lemma SpentFirst(cs: Configs, evicting: bool, m: Store, ops: seq<Op>, k: Key, seconds: real)
    requires SaneConfigs(cs) && ops != [] && WellFormed(cs, m, ops[0].time)
    requires evicting ==> FillsBeforeStale(ConfigOf(cs, k))
    requires var m' := Step(cs, evicting, m, ops[0]).0;
      Spent(cs, evicting, m', ops[1..], k) as real
      <= Available(cs, m', k, ops[0].time) + Worth(ConfigOf(cs, k), Resets(ops[1..], k), seconds)
    ensures Spent(cs, evicting, m, ops, k) as real
         <= Available(cs, m, k, ops[0].time) + Worth(ConfigOf(cs, k), Resets(ops, k), seconds)
  {
    AvailableWithin(cs, m, k, ops[0].time);
    StepAvailable(cs, evicting, m, ops[0], k);
  }

  lemma WaitingIsWorth(cs: Configs, m: Store, k: Key, t: real, now: real, buckets: nat, end: real)
    requires SaneConfigs(cs) && WellFormed(cs, m, t) && t <= now
    ensures Available(cs, m, k, now) + Worth(ConfigOf(cs, k), buckets, end - now)
         <= Available(cs, m, k, t) + Worth(ConfigOf(cs, k), buckets, end - t)
  {
    AvailableLater(cs, m, k, t, now);
    WorthAdds(ConfigOf(cs, k), buckets, now - t, end - now, end - t);
  }

  lemma {:induction false} WorthSomething(cfg: Config, buckets: nat, seconds: real)
    requires Sane(cfg) && seconds >= 0.0
    ensures Worth(cfg, buckets, seconds) >= 0.0
  {
    if buckets == 0 {
      RealFacts.NonNegative(seconds, cfg.rate);
    } else {
      WorthSomething(cfg, buckets - 1, seconds);
    }
  }

  lemma AvailableWithin(cs: Configs, m: Store, k: Key, now: real)
    requires SaneConfigs(cs) && WellFormed(cs, m, now)
    ensures 0.0 <= Available(cs, m, k, now) <= ConfigOf(cs, k).burst as real
  {
    if k in m {
      ConsumeStaysWithin(ConfigOf(cs, k), m[k], now);
    }
  }

  /** `stretch` lies between `start` and `end` in a run that begins with `before`. */
  predicate Spans(before: seq<Op>, start: real, stretch: seq<Op>, end: real) {
    && InOrder(before) && (forall i | 0 <= i < |before| :: before[i].time <= start)
    && start <= end && OpsFrom(start, stretch) && (forall i | 0 <= i < |stretch| :: stretch[i].time <= end)
  }

  function SpentIn(cs: Configs, evicting: bool, before: seq<Op>, stretch: seq<Op>, k: Key): nat {
    Spent(cs, evicting, After(cs, evicting, map[], before), stretch, k)
  }

  predicate Bounded(cs: Configs, evicting: bool, before: seq<Op>, start: real, stretch: seq<Op>, end: real, k: Key) {
    SpentIn(cs, evicting, before, stretch, k) as real <= Worth(ConfigOf(cs, k), 1 + Resets(stretch, k), end - start)
  }

  /** In any contiguous stretch of any run, the tokens spent at key `k`, and so the granted requests that had to pay
      there, number at most the burst size, once more for each reset of the key, plus the rate times the time from
      `start` to `end`.  A request that asks an agent, an address and the global key is bounded by all three at once. */
  lemma RateBound(
      cs: Configs, evicting: bool, before: seq<Op>, start: real, stretch: seq<Op>, end: real, k: Key)
    requires SaneConfigs(cs) && Spans(before, start, stretch, end)
    requires evicting ==> FillsBeforeStale(ConfigOf(cs, k))
    ensures Bounded(cs, evicting, before, start, stretch, end, k)
    ensures Granted(cs, evicting, After(cs, evicting, map[], before), stretch, k)
         <= SpentIn(cs, evicting, before, stretch, k)
  {
    var m := After(cs, evicting, map[], before);
    ReachableAt(cs, evicting, before, start);
    GrantedSpends(cs, evicting, m, stretch, k);
    SpentIsRefilled(cs, evicting, m, start, stretch, k, end);
    AvailableWithin(cs, m, k, start);
  }

  /** Every stretch of every run keeps the bound. */
  ghost predicate RateBounded(cs: Configs, evicting: bool, k: Key) {
    forall before, start, stretch, end | Spans(before, start, stretch, end) ::
      Bounded(cs, evicting, before, start, stretch, end, k)
  }

  /** Every stretch of every run of client requests alone keeps the bound. */
  ghost predicate RateBoundedForClients(cs: Configs, evicting: bool, k: Key) {
    forall before, start, stretch, end |
      Spans(before, start, stretch, end) && AllFromClient(before) && AllFromClient(stretch) ::
      Bounded(cs, evicting, before, start, stretch, end, k)
  }

  ghost predicate AllFromClient(ops: seq<Op>) {
    forall i | 0 <= i < |ops| :: FromClient(ops[i])
  }

  lemma {:induction false} ClientsDoNotReset(ops: seq<Op>, k: Key)
    requires AllFromClient(ops)
    ensures Resets(ops, k) == 0
    decreases |ops|
  {
    if ops != [] {
      assert FromClient(ops[0]) && forall i | 0 <= i < |ops| - 1 :: ops[1..][i] == ops[i + 1];
      ClientsDoNotReset(ops[1..], k);
    }
  }

  /** A limiter that never evicts keeps the bound; one that evicts keeps it exactly when the key's bucket is full
      before it goes stale. */
  lemma RateBoundIff(cs: Configs, evicting: bool, k: Key)
    requires SaneConfigs(cs) && (k.scope.Global? ==> k.id == "_")
    ensures RateBounded(cs, evicting, k) <==> (evicting ==> FillsBeforeStale(ConfigOf(cs, k)))
    ensures RateBoundedForClients(cs, evicting, k) <==> (evicting ==> FillsBeforeStale(ConfigOf(cs, k)))
  {
    if evicting ==> FillsBeforeStale(ConfigOf(cs, k)) {
      forall before, start, stretch, end | Spans(before, start, stretch, end)
        ensures Bounded(cs, evicting, before, start, stretch, end, k)
      {
        RateBound(cs, evicting, before, start, stretch, end, k);
      }
    } else {
      var stretch, end := RateExceeded(cs, k);
      assert !Bounded(cs, evicting, [], 0.0, stretch, end, k);
    }
  }

  // ----- When the bound fails, and that it is reached -----

  lemma {:induction false} SpentSplit(cs: Configs, evicting: bool, m: Store, a: seq<Op>, b: seq<Op>, k: Key)
    ensures Spent(cs, evicting, m, a + b, k)
         == Spent(cs, evicting, m, a, k) + Spent(cs, evicting, After(cs, evicting, m, a), b, k)
    decreases |a|
  {
    if a == [] {
      assert a + b == b;
    } else {
      assert (a + b)[1..] == a[1..] + b;
      SpentSplit(cs, evicting, Step(cs, evicting, m, a[0]).0, a[1..], b, k);
    }
  }

  lemma BurstSpendsFirst(cs: Configs, evicting: bool, m: Store, k: Key, now: real, n: nat)
    requires n > 0
    ensures var (m', r) := Check(cs, evicting, m, k, now);
      Spent(cs, evicting, m, Burst(k, now, n), k)
      == (if r.allowed then 1 else 0) + Spent(cs, evicting, m', Burst(k, now, n - 1), k)
  {
    var ops := Burst(k, now, n);
    var (m', r) := Check(cs, evicting, m, k, now);
    assert ops[0] == Request([k], now) && ops[1..] == Burst(k, now, n - 1);
    CheckOne(cs, evicting, m, k, now);
    assert AllowedAt([k], [r], k) == if r.allowed then 1 else 0;
  }

  /** A burst of no more requests than there are tokens spends a token on each. */
  lemma {:induction false} BurstSpends(cs: Configs, evicting: bool, m: Store, k: Key, now: real, n: nat)
    requires SaneConfigs(cs) && WellFormed(cs, m, now) && n as real <= Available(cs, m, k, now)
    ensures Spent(cs, evicting, m, Burst(k, now, n), k) == n
    decreases n
  {
    if n > 0 {
      BurstSpendsFirst(cs, evicting, m, k, now, n);
      CheckSpends(cs, evicting, m, k, now);
      CheckWellFormed(cs, evicting, m, k, now, now);
      BurstSpends(cs, evicting, Check(cs, evicting, m, k, now).0, k, now, n - 1);
    }
  }

  /** A bucket that is drained, evicted and drained again spends two bursts before one can be refilled. */
  lemma RateExceeded(cs: Configs, k: Key) returns (stretch: seq<Op>, end: real)
    requires SaneConfigs(cs) && !FillsBeforeStale(ConfigOf(cs, k))
    requires k.scope.Global? ==> k.id == "_"
    ensures Spans([], 0.0, stretch, end) && AllFromClient(stretch)
    ensures !Bounded(cs, true, [], 0.0, stretch, end, k)
  {
    var cfg := ConfigOf(cs, k);
    end := LateButNotFull(cfg);
    stretch := DrainAndCrowd(k, cfg.burst, end) + Burst(k, end, cfg.burst);
    DrainInOrder(k, cfg.burst, end);
    AllFromClients(k, cfg.burst, end);
    ClientsDoNotReset(stretch, k);
    TwoBurstsSpent(cs, k, cfg.burst, end);
    LessThanTwoBursts(cfg, end, end - 0.0);
  }

  lemma LessThanTwoBursts(cfg: Config, end: real, seconds: real)
    requires end * cfg.rate < cfg.burst as real && seconds == end
    ensures Worth(cfg, 1, seconds) < (2 * cfg.burst) as real
  {
    assert Worth(cfg, 0, seconds) == end * cfg.rate;
  }

  lemma TwoBurstsSpent(cs: Configs, k: Key, n: nat, late: real)
    requires SaneConfigs(cs) && n == ConfigOf(cs, k).burst && n > 0 && late > STALE_AFTER
    ensures Spent(cs, true, map[], DrainAndCrowd(k, n, late) + Burst(k, late, n), k) >= 2 * n
  {
    var first := DrainAndCrowd(k, n, late);
    var m := After(cs, true, map[], first);
    DrainInOrder(k, n, late);
    ReachableAt(cs, true, first, late);
    AfterDrainAndCrowd(cs, true, k, n, late);
    SpentSplit(cs, true, map[], first, Burst(k, late, n), k);
    SpentSplit(cs, true, map[], Burst(k, 0.0, n), Crowd(k, late, MAX_BUCKETS), k);
    BurstSpends(cs, true, map[], k, 0.0, n);
    BurstSpends(cs, true, m, k, late, n);
  }

  /** Bursts at one instant, with the key reset between them. */
  function Rounds(k: Key, n: nat, resets: nat): seq<Op> {
    if resets == 0 then Burst(k, 0.0, n)
    else Burst(k, 0.0, n) + ([Reset(k, 0.0)] + Rounds(k, n, resets - 1))
  }

  /** Every reset hands out another full bucket: with no time passing, the bound is reached. */
  lemma {:induction false} ResetsReachTheBound(cs: Configs, evicting: bool, k: Key, resets: nat)
    requires SaneConfigs(cs)
    ensures var ops := Rounds(k, ConfigOf(cs, k).burst, resets);
      && Resets(ops, k) == resets && InOrder(ops)
      && Spent(cs, evicting, map[], ops, k) as real == Worth(ConfigOf(cs, k), 1 + resets, 0.0)
    decreases resets
  {
    var n := ConfigOf(cs, k).burst;
    RoundsAtOnce(k, n, resets);
    if resets == 0 {
      BurstSpends(cs, evicting, map[], k, 0.0, n);
      NoResetInBurst(k, n, []);
      assert Burst(k, 0.0, n) + [] == Burst(k, 0.0, n);
      RealFacts.ZeroTimes(0.0, ConfigOf(cs, k).rate);
    } else {
      OneMoreRound(cs, evicting, k, n, resets);
      ResetsReachTheBound(cs, evicting, k, resets - 1);
    }
  }

  lemma OneMoreRound(cs: Configs, evicting: bool, k: Key, n: nat, resets: nat)
    requires SaneConfigs(cs) && n == ConfigOf(cs, k).burst && resets > 0
    ensures Resets(Rounds(k, n, resets), k) == 1 + Resets(Rounds(k, n, resets - 1), k)
    ensures Spent(cs, evicting, map[], Rounds(k, n, resets), k)
         == n + Spent(cs, evicting, map[], Rounds(k, n, resets - 1), k)
  {
    var burst, rest := Burst(k, 0.0, n), [Reset(k, 0.0)] + Rounds(k, n, resets - 1);
    var m := After(cs, evicting, map[], burst);
    assert rest[1..] == Rounds(k, n, resets - 1);
    NoResetInBurst(k, n, rest);
    BurstSpends(cs, evicting, map[], k, 0.0, n);
    SpentSplit(cs, evicting, map[], burst, rest, k);
    if n > 0 {
      BurstDrains(cs, evicting, map[], k, 0.0, n);
    }
    assert Step(cs, evicting, m, rest[0]).0 == map[];
  }

  lemma {:induction false} RoundsAtOnce(k: Key, n: nat, resets: nat)
    ensures forall i | 0 <= i < |Rounds(k, n, resets)| :: Rounds(k, n, resets)[i].time == 0.0
    decreases resets
  {
    if resets > 0 {
      RoundsAtOnce(k, n, resets - 1);
    }
  }

  lemma {:induction false} NoResetInBurst(k: Key, n: nat, rest: seq<Op>)
    ensures Resets(Burst(k, 0.0, n) + rest, k) == Resets(rest, k)
    decreases n
  {
    if n == 0 {
      assert Burst(k, 0.0, n) + rest == rest;
    } else {
      assert (Burst(k, 0.0, n) + rest)[1..] == Burst(k, 0.0, n - 1) + rest;
      NoResetInBurst(k, n - 1, rest);
    }
  }
}
