/** The keyed store of buckets: what a request does to it, and what evicting stale buckets can change. */
module LimiterStore {
  import opened Prelude
  import opened TokenBuckets
  import RealFacts

  datatype Scope = Agent | Ip | Global

  /** A scope and an identifier; distinct pairs are taken to have distinct hashed keys. */
  datatype Key = Key(scope: Scope, id: string)

  datatype Configs = Configs(agent: Config, ip: Config, global: Config)

  function ConfigOf(cs: Configs, k: Key): Config {
    match k.scope
    case Agent => cs.agent
    case Ip => cs.ip
    case Global => cs.global
  }

  type Store = map<Key, Bucket>

  datatype Result = Result(allowed: bool, retryAfter: real, remaining: int, limit: int, scope: Scope)

  const STALE_AFTER := 300.0
  const MAX_BUCKETS := 10000

  predicate Stale(b: Bucket, now: real) {
    now - b.lastRefill > STALE_AFTER
  }

  function Evict(m: Store, now: real): Store {
    map k | k in m && !Stale(m[k], now) :: m[k]
  }

  /** Get or create; a creation that makes the store too large evicts.  `evicting` is false for the reference
      limiter that never evicts. */
  function GetBucket(cs: Configs, evicting: bool, m: Store, k: Key, now: real): (m': Store)
    ensures k in m'
  {
    if k in m then m
    else
      var added := m[k := Full(ConfigOf(cs, k), now)];
      if evicting && |added| > MAX_BUCKETS then Evict(added, now) else added
  }

  function ResultOf(cfg: Config, k: Key, b: Bucket, ok: bool): Result {
    if ok then Result(true, 0.0, Remaining(b), cfg.burst, k.scope)
    else Result(false, ReportedRetry(cfg, b), 0, cfg.burst, k.scope)
  }

  function Check(cs: Configs, evicting: bool, m: Store, k: Key, now: real): (Store, Result) {
    var cfg, m' := ConfigOf(cs, k), GetBucket(cs, evicting, m, k, now);
    var (b, ok) := Consume(cfg, m'[k], now);
    (m'[k := b], ResultOf(cfg, k, b, ok))
  }

  lemma CheckIs(cs: Configs, evicting: bool, m: Store, k: Key, now: real, found: Store, b: Bucket, ok: bool)
    requires found == GetBucket(cs, evicting, m, k, now) && (b, ok) == Consume(ConfigOf(cs, k), found[k], now)
    ensures Check(cs, evicting, m, k, now) == (found[k := b], ResultOf(ConfigOf(cs, k), k, b, ok))
  {
  }

  function CheckEach(cs: Configs, evicting: bool, m: Store, keys: seq<Key>, now: real): (r: (Store, seq<Result>))
    ensures |r.1| == |keys|
    decreases |keys|
  {
    if keys == [] then (m, [])
    else
      var (m', first) := Check(cs, evicting, m, keys[0], now);
      var (m'', rest) := CheckEach(cs, evicting, m', keys[1..], now);
      (m'', [first] + rest)
  }

  predicate AllAllowed(results: seq<Result>) {
    forall i | 0 <= i < |results| :: results[i].allowed
  }

  /** The first blocked result, or else the first one with the fewest remaining. */
  function MostRestrictive(results: seq<Result>): (r: Result)
    requires results != []
    ensures r in results
    ensures r.allowed <==> AllAllowed(results)
    ensures r.allowed ==> forall i | 0 <= i < |results| :: r.remaining <= results[i].remaining
  {
    if |results| == 1 then results[0]
    else
      var rest := MostRestrictive(results[1..]);
      if !results[0].allowed then results[0]
      else if !rest.allowed || rest.remaining < results[0].remaining then rest
      else results[0]
  }

  /** Of several candidates it is the first: every earlier result is allowed if it is blocked, and has more
      remaining if it is allowed. */
  lemma {:induction false} MostRestrictiveIsFirst(results: seq<Result>) returns (i: nat)
    requires results != []
    ensures i < |results| && results[i] == MostRestrictive(results)
    ensures forall j | 0 <= j < i ::
      results[j].allowed && (results[i].allowed ==> results[j].remaining > results[i].remaining)
    decreases |results|
  {
    if |results| == 1 || MostRestrictive(results) == results[0] {
      i := 0;
    } else {
      var later := MostRestrictiveIsFirst(results[1..]);
      i := later + 1;
      forall j | 0 <= j < i
        ensures results[j].allowed && (results[i].allowed ==> results[j].remaining > results[i].remaining)
      {
        if j > 0 {
          assert results[j] == results[1..][j - 1];
        }
      }
    }
  }

  /** The keys that `check_all` asks, in its order; the global one is always asked. */
  function KeysFor(agent: Option<string>, ip: Option<string>): (keys: seq<Key>)
    ensures keys != []
  {
    KeyIfGiven(Agent, agent) + KeyIfGiven(Ip, ip) + [Key(Global, "_")]
  }

  function KeyIfGiven(scope: Scope, id: Option<string>): seq<Key> {
    if Given(id) then [Key(scope, id.value)] else []
  }

  // ----- Runs -----

  /** A request asks one key or several; evictions and resets may come at any point. */
  datatype Op =
    | Request(keys: seq<Key>, time: real)
    | Cleanup(time: real)
    | Reset(key: Key, time: real)

  function Step(cs: Configs, evicting: bool, m: Store, op: Op): (Store, seq<Result>) {
    match op
    case Request(keys, now) => CheckEach(cs, evicting, m, keys, now)
    case Cleanup(now) => (if evicting then Evict(m, now) else m, [])
    case Reset(k, _) => (m - {k}, [])
  }

  function After(cs: Configs, evicting: bool, m: Store, ops: seq<Op>): Store
    decreases |ops|
  {
    if ops == [] then m else After(cs, evicting, Step(cs, evicting, m, ops[0]).0, ops[1..])
  }

  /** All results that a run hands out. */
  function Trace(cs: Configs, evicting: bool, m: Store, ops: seq<Op>): seq<seq<Result>>
    decreases |ops|
  {
    if ops == [] then []
    else
      var (m', results) := Step(cs, evicting, m, ops[0]);
      [results] + Trace(cs, evicting, m', ops[1..])
  }

  predicate InOrder(ops: seq<Op>) {
    forall i, j | 0 <= i < j < |ops| :: ops[i].time <= ops[j].time
  }

  predicate OpsFrom(t: real, ops: seq<Op>) {
    InOrder(ops) && forall i | 0 <= i < |ops| :: t <= ops[i].time
  }

  predicate SaneConfigs(cs: Configs) {
    Sane(cs.agent) && Sane(cs.ip) && Sane(cs.global)
  }

  /** A bucket that goes stale has had the time to fill up. */
  predicate FillsBeforeStale(cfg: Config) {
    cfg.rate * STALE_AFTER >= cfg.burst as real
  }

  predicate EvictionSafe(cs: Configs) {
    FillsBeforeStale(cs.agent) && FillsBeforeStale(cs.ip) && FillsBeforeStale(cs.global)
  }

  predicate WellFormed(cs: Configs, m: Store, now: real) {
    forall k | k in m :: Within(ConfigOf(cs, k), m[k], now)
  }

  lemma CheckWellFormed(cs: Configs, evicting: bool, m: Store, k: Key, t: real, now: real)
    requires SaneConfigs(cs) && WellFormed(cs, m, t) && t <= now
    ensures WellFormed(cs, Check(cs, evicting, m, k, now).0, now)
  {
    var m' := GetBucket(cs, evicting, m, k, now);
    assert WellFormed(cs, m', now);
    ConsumeStaysWithin(ConfigOf(cs, k), m'[k], now);
  }

  lemma {:induction false} CheckEachWellFormed(cs: Configs, evicting: bool, m: Store, keys: seq<Key>, now: real)
    requires SaneConfigs(cs) && WellFormed(cs, m, now)
    ensures WellFormed(cs, CheckEach(cs, evicting, m, keys, now).0, now)
    decreases |keys|
  {
    if keys != [] {
      CheckWellFormed(cs, evicting, m, keys[0], now, now);
      CheckEachWellFormed(cs, evicting, Check(cs, evicting, m, keys[0], now).0, keys[1..], now);
    }
  }

  lemma StepWellFormed(cs: Configs, evicting: bool, m: Store, op: Op, t: real)
    requires SaneConfigs(cs) && WellFormed(cs, m, t) && t <= op.time
    ensures WellFormed(cs, Step(cs, evicting, m, op).0, op.time)
  {
    assert WellFormed(cs, m, op.time);
    if op.Request? {
      CheckEachWellFormed(cs, evicting, m, op.keys, op.time);
    }
  }

  // ----- Eviction is not observable -----

  /** The evicting store `m` against the store `p` that never evicts: same buckets, except that `m` may lack
      some that would by now be full. */
  predicate Simulates(cs: Configs, m: Store, p: Store, now: real) {
    && (forall k | k in m :: k in p && m[k] == p[k])
    && (forall k | k in p && k !in m :: Refill(ConfigOf(cs, k), p[k], now) == Full(ConfigOf(cs, k), now))
  }

  lemma FullStaysFull(cfg: Config, b: Bucket, t: real, now: real)
    requires Sane(cfg) && b.lastRefill <= t <= now && Refill(cfg, b, t) == Full(cfg, t)
    ensures Refill(cfg, b, now) == Full(cfg, now)
  {
    RefillTwice(cfg, b, t, now);
    RealFacts.NonNegative(now - t, cfg.rate);
  }

  lemma StaleIsFull(cfg: Config, b: Bucket, now: real)
    requires Sane(cfg) && FillsBeforeStale(cfg) && Within(cfg, b, now) && Stale(b, now)
    ensures Refill(cfg, b, now) == Full(cfg, now)
  {
    var elapsed := now - b.lastRefill;
    RealFacts.NonNegative(elapsed - STALE_AFTER, cfg.rate);
    assert elapsed * cfg.rate == (elapsed - STALE_AFTER) * cfg.rate + cfg.rate * STALE_AFTER;
  }

  lemma SimulationLater(cs: Configs, m: Store, p: Store, t: real, now: real)
    requires SaneConfigs(cs) && WellFormed(cs, p, t) && t <= now && Simulates(cs, m, p, t)
    ensures Simulates(cs, m, p, now)
  {
    forall k | k in p && k !in m
      ensures Refill(ConfigOf(cs, k), p[k], now) == Full(ConfigOf(cs, k), now)
    {
      FullStaysFull(ConfigOf(cs, k), p[k], t, now);
    }
  }

  lemma SimulationEvict(cs: Configs, m: Store, p: Store, now: real)
    requires SaneConfigs(cs) && EvictionSafe(cs) && WellFormed(cs, p, now) && Simulates(cs, m, p, now)
    ensures Simulates(cs, Evict(m, now), p, now)
  {
    forall k | k in p && k !in Evict(m, now)
      ensures Refill(ConfigOf(cs, k), p[k], now) == Full(ConfigOf(cs, k), now)
    {
      if k in m {
        StaleIsFull(ConfigOf(cs, k), p[k], now);
      }
    }
  }

  lemma SimulationGet(cs: Configs, m: Store, p: Store, k: Key, b: Bucket, now: real)
    requires SaneConfigs(cs) && EvictionSafe(cs) && WellFormed(cs, p, now) && Simulates(cs, m, p, now)
    ensures var m', p' := GetBucket(cs, true, m, k, now), GetBucket(cs, false, p, k, now);
      && Refill(ConfigOf(cs, k), m'[k], now) == Refill(ConfigOf(cs, k), p'[k], now)
      && Simulates(cs, m'[k := b], p'[k := b], now)
  {
    if k in m {
      SimulationPut(cs, m, p, k, b, now);
    } else {
      SimulationCreate(cs, m, p, k, b, now);
    }
  }

  lemma SimulationCreate(cs: Configs, m: Store, p: Store, k: Key, b: Bucket, now: real)
    requires SaneConfigs(cs) && EvictionSafe(cs) && WellFormed(cs, p, now) && Simulates(cs, m, p, now) && k !in m
    ensures var m', p' := GetBucket(cs, true, m, k, now), GetBucket(cs, false, p, k, now);
      && Refill(ConfigOf(cs, k), m'[k], now) == Refill(ConfigOf(cs, k), p'[k], now)
      && Simulates(cs, m'[k := b], p'[k := b], now)
  {
    var cfg := ConfigOf(cs, k);
    var created, p' := m[k := Full(cfg, now)], p[k := Full(cfg, now)];
    assert p'[k := b] == GetBucket(cs, false, p, k, now)[k := b];
    RefillNow(cfg, Full(cfg, now), now);
    SimulationEvict(cs, created, p', now);
    SimulationPut(cs, created, p', k, b, now);
    SimulationPut(cs, Evict(created, now), p', k, b, now);
  }

  lemma SimulationPut(cs: Configs, m: Store, p: Store, k: Key, b: Bucket, now: real)
    requires Simulates(cs, m, p, now)
    ensures Simulates(cs, m[k := b], p[k := b], now)
  {
  }

  lemma SimulationCheck(cs: Configs, m: Store, p: Store, k: Key, now: real)
    requires SaneConfigs(cs) && EvictionSafe(cs) && WellFormed(cs, p, now) && Simulates(cs, m, p, now)
    ensures Check(cs, true, m, k, now).1 == Check(cs, false, p, k, now).1
    ensures Simulates(cs, Check(cs, true, m, k, now).0, Check(cs, false, p, k, now).0, now)
  {
    var (b, ok) := Consume(ConfigOf(cs, k), GetBucket(cs, true, m, k, now)[k], now);
    SimulationGet(cs, m, p, k, b, now);
  }

  lemma {:induction false} SimulationCheckEach(cs: Configs, m: Store, p: Store, keys: seq<Key>, now: real)
    requires SaneConfigs(cs) && EvictionSafe(cs) && WellFormed(cs, p, now) && Simulates(cs, m, p, now)
    ensures var (m', r), (p', r') := CheckEach(cs, true, m, keys, now), CheckEach(cs, false, p, keys, now);
      r == r' && Simulates(cs, m', p', now)
    decreases |keys|
  {
    if keys != [] {
      SimulationCheck(cs, m, p, keys[0], now);
      CheckWellFormed(cs, false, p, keys[0], now, now);
      SimulationCheckEach(cs, Check(cs, true, m, keys[0], now).0, Check(cs, false, p, keys[0], now).0, keys[1..], now);
    }
  }

  lemma SimulationStep(cs: Configs, m: Store, p: Store, op: Op)
    requires SaneConfigs(cs) && EvictionSafe(cs) && WellFormed(cs, p, op.time) && Simulates(cs, m, p, op.time)
    ensures var (m', r), (p', r') := Step(cs, true, m, op), Step(cs, false, p, op);
      r == r' && Simulates(cs, m', p', op.time)
  {
    match op
    case Request(keys, now) => SimulationCheckEach(cs, m, p, keys, now);
    case Cleanup(now) => SimulationEvict(cs, m, p, now);
    case Reset(k, now) =>
  }

  lemma {:induction false} SimulationRun(cs: Configs, m: Store, p: Store, t: real, ops: seq<Op>)
    requires SaneConfigs(cs) && EvictionSafe(cs) && OpsFrom(t, ops)
    requires WellFormed(cs, p, t) && Simulates(cs, m, p, t)
    ensures Trace(cs, true, m, ops) == Trace(cs, false, p, ops)
    decreases |ops|
  {
    if ops != [] {
      var now := ops[0].time;
      SimulationLater(cs, m, p, t, now);
      SimulationStep(cs, m, p, ops[0]);
      StepWellFormed(cs, false, p, ops[0], t);
      SimulationRun(cs, Step(cs, true, m, ops[0]).0, Step(cs, false, p, ops[0]).0, now, ops[1..]);
    }
  }

  /** Every run from an empty store gives the same results with and without evictions. */
  ghost predicate EvictionInvisible(cs: Configs) {
    forall ops: seq<Op> | InOrder(ops) :: Trace(cs, true, map[], ops) == Trace(cs, false, map[], ops)
  }

  /** A request that a client can make: one agent, one address, the global key, or all that apply. */
  ghost predicate FromClient(op: Op) {
    && op.Request?
    && (|| (exists agent, ip :: op.keys == KeysFor(agent, ip))
        || (|op.keys| == 1 && (op.keys[0].scope.Global? ==> op.keys[0].id == "_")))
  }

  /** The same for runs of client requests alone, where buckets are evicted only when there are too many. */
  ghost predicate EvictionInvisibleToClients(cs: Configs) {
    forall ops: seq<Op> | InOrder(ops) && (forall i | 0 <= i < |ops| :: FromClient(ops[i])) ::
      Trace(cs, true, map[], ops) == Trace(cs, false, map[], ops)
  }

  /** Evictions, even at arbitrary moments, are invisible when every bucket that goes stale would have filled up;
      otherwise clients can see them. */
  lemma EvictionInvisibleIff(cs: Configs)
    requires SaneConfigs(cs)
    ensures EvictionInvisible(cs) <==> EvictionSafe(cs)
    ensures EvictionInvisibleToClients(cs) <==> EvictionSafe(cs)
  {
    if EvictionSafe(cs) {
      forall ops: seq<Op> | InOrder(ops)
        ensures Trace(cs, true, map[], ops) == Trace(cs, false, map[], ops)
      {
        if ops != [] {
          SimulationRun(cs, map[], map[], ops[0].time, ops);
        }
      }
    } else {
      var scope :| !FillsBeforeStale(ConfigOf(cs, Key(scope, "_")));
      var ops := EvictionVisible(cs, Key(scope, "_"));
    }
  }

  // ----- When a stale bucket is not full, eviction shows -----

  /** What a request for `k` at `now` would find. */
  function Available(cs: Configs, m: Store, k: Key, now: real): real {
    if k in m then Refill(ConfigOf(cs, k), m[k], now).tokens else ConfigOf(cs, k).burst as real
  }

  lemma CheckSpends(cs: Configs, evicting: bool, m: Store, k: Key, now: real)
    requires SaneConfigs(cs) && WellFormed(cs, m, now)
    ensures var (m', r) := Check(cs, evicting, m, k, now);
      && (r.allowed <==> Available(cs, m, k, now) >= 1.0)
      && k in m' && m'[k].lastRefill == now
      && m'[k].tokens == Available(cs, m', k, now)
      && m'[k].tokens == Available(cs, m, k, now) - if r.allowed then 1.0 else 0.0
  {
    var cfg := ConfigOf(cs, k);
    if k !in m {
      RefillNow(cfg, Full(cfg, now), now);
    }
    CheckWellFormed(cs, evicting, m, k, now, now);
    RefillNow(cfg, Check(cs, evicting, m, k, now).0[k], now);
  }

  function Burst(k: Key, now: real, n: nat): seq<Op> {
    seq(n, _ => Request([k], now))
  }

  lemma BurstStep(cs: Configs, evicting: bool, m: Store, k: Key, now: real, n: nat)
    requires SaneConfigs(cs) && WellFormed(cs, m, now) && n > 0
    ensures var ops, (m', r) := Burst(k, now, n), Check(cs, evicting, m, k, now);
      && WellFormed(cs, m', now)
      && Trace(cs, evicting, m, ops) == [[r]] + Trace(cs, evicting, m', Burst(k, now, n - 1))
      && After(cs, evicting, m, ops) == After(cs, evicting, m', Burst(k, now, n - 1))
  {
    CheckWellFormed(cs, evicting, m, k, now, now);
    CheckOne(cs, evicting, m, k, now);
    BurstUnfolds(cs, evicting, m, k, now, n, Check(cs, evicting, m, k, now).0, Check(cs, evicting, m, k, now).1);
  }

  lemma BurstUnfolds(cs: Configs, evicting: bool, m: Store, k: Key, now: real, n: nat, m': Store, r: Result)
    requires n > 0 && CheckEach(cs, evicting, m, [k], now) == (m', [r])
    ensures Trace(cs, evicting, m, Burst(k, now, n)) == [[r]] + Trace(cs, evicting, m', Burst(k, now, n - 1))
    ensures After(cs, evicting, m, Burst(k, now, n)) == After(cs, evicting, m', Burst(k, now, n - 1))
  {
    var ops := Burst(k, now, n);
    assert ops[0] == Request([k], now) && ops[1..] == Burst(k, now, n - 1);
  }

  /** The last of `n` requests at one instant is granted exactly when at least `n` tokens were available. */
  lemma {:induction false} BurstOutcome(cs: Configs, evicting: bool, m: Store, k: Key, now: real, n: nat)
    requires SaneConfigs(cs) && WellFormed(cs, m, now) && n > 0
    ensures var trace := Trace(cs, evicting, m, Burst(k, now, n));
      |trace| == n && |trace[n - 1]| == 1 && (trace[n - 1][0].allowed <==> n as real <= Available(cs, m, k, now))
    decreases n
  {
    BurstStep(cs, evicting, m, k, now, n);
    CheckSpends(cs, evicting, m, k, now);
    if n == 1 {
      assert Trace(cs, evicting, Check(cs, evicting, m, k, now).0, Burst(k, now, 0)) == [];
    } else {
      BurstOutcome(cs, evicting, Check(cs, evicting, m, k, now).0, k, now, n - 1);
    }
  }

  /** A burst that takes exactly what is there leaves nothing. */
  lemma {:induction false} BurstDrains(cs: Configs, evicting: bool, m: Store, k: Key, now: real, n: nat)
    requires SaneConfigs(cs) && WellFormed(cs, m, now) && n > 0
    requires n as real == Available(cs, m, k, now) && m.Keys <= {k}
    ensures After(cs, evicting, m, Burst(k, now, n)) == map[k := Bucket(0.0, now)]
    decreases n
  {
    BurstStep(cs, evicting, m, k, now, n);
    CheckSpends(cs, evicting, m, k, now);
    SmallStoreCheck(cs, evicting, m, k, now);
    var m' := Check(cs, evicting, m, k, now).0;
    if n == 1 {
      assert After(cs, evicting, m', Burst(k, now, 0)) == m';
    } else {
      BurstDrains(cs, evicting, m', k, now, n - 1);
    }
  }

  lemma CheckOne(cs: Configs, evicting: bool, m: Store, k: Key, now: real)
    ensures var (m', r) := Check(cs, evicting, m, k, now);
      CheckEach(cs, evicting, m, [k], now) == (m', [r])
  {
    var (m', r) := Check(cs, evicting, m, k, now);
    assert [k][1..] == [];
    assert CheckEach(cs, evicting, m', [], now) == (m', []);
    assert [r] + [] == [r];
  }

  lemma SmallStoreCheck(cs: Configs, evicting: bool, m: Store, k: Key, now: real)
    requires m.Keys <= {k}
    ensures Check(cs, evicting, m, k, now).0.Keys == {k}
  {
    assert m[k := Full(ConfigOf(cs, k), now)].Keys == {k};
  }

  lemma {:induction false} TraceSplit(cs: Configs, evicting: bool, m: Store, a: seq<Op>, b: seq<Op>)
    ensures Trace(cs, evicting, m, a + b)
         == Trace(cs, evicting, m, a) + Trace(cs, evicting, After(cs, evicting, m, a), b)
    ensures |Trace(cs, evicting, m, a)| == |a|
    decreases |a|
  {
    if a == [] {
      assert a + b == b;
    } else {
      assert (a + b)[1..] == a[1..] + b;
      TraceSplit(cs, evicting, Step(cs, evicting, m, a[0]).0, a[1..], b);
    }
  }

  lemma CancelRate(a: real, b: real, rate: real)
    requires rate > 0.0 && a * rate < b * rate
    ensures a < b
  {
    assert (b - a) * rate > 0.0;
  }

  /** Just after the bucket goes stale, a rate that is too low has refilled fewer than `burst` tokens. */
  lemma LateButNotFull(cfg: Config) returns (late: real)
    requires Sane(cfg) && !FillsBeforeStale(cfg)
    ensures late > STALE_AFTER && 0.0 <= late * cfg.rate < cfg.burst as real
  {
    if cfg.rate == 0.0 {
      late := STALE_AFTER + 1.0;
    } else {
      var full := cfg.burst as real / cfg.rate;
      assert full * cfg.rate == cfg.burst as real;
      CancelRate(STALE_AFTER, full, cfg.rate);
      late := (STALE_AFTER + full) / 2.0;
      assert (full - late) * cfg.rate > 0.0;
      assert late * cfg.rate >= 0.0;
    }
  }

  // Empty the bucket, let it go stale, have so many others created that it is evicted, and ask for a whole burst
  // again.

  /** An agent whose identifier is longer than that of `k`; no two are the same. */
  function Other(k: Key, i: nat): Key {
    Key(Agent, seq(|k.id| + 1 + i, _ => 'x'))
  }

  /** One request each by `n` other agents. */
  function Crowd(k: Key, now: real, n: nat): seq<Op> {
    seq(n, i requires 0 <= i < n => Request([Other(k, i)], now))
  }

  /** The bucket of `k` has been empty since time zero, and `n` other agents have one. */
  ghost predicate Crowded(m: Store, k: Key, n: nat) {
    && k in m && m[k] == Bucket(0.0, 0.0) && |m| == n + 1
    && forall i | i >= n :: Other(k, i) !in m
  }

  lemma OthersDiffer(k: Key, i: nat, j: nat)
    ensures Other(k, i) != k
    ensures Other(k, i) == Other(k, j) ==> i == j
  {
    assert |Other(k, i).id| == |k.id| + 1 + i && |Other(k, j).id| == |k.id| + 1 + j;
  }

  /** A newcomer's bucket joins the others, or makes them too many and costs `k` its own. */
  lemma NewcomerStep(cs: Configs, evicting: bool, m: Store, k: Key, n: nat, late: real)
    requires Crowded(m, k, n) && late > STALE_AFTER
    ensures var m' := Check(cs, evicting, m, Other(k, n), late).0;
      if evicting && n + 1 >= MAX_BUCKETS then k !in m' else Crowded(m', k, n + 1)
  {
    var j := Other(k, n);
    var m' := Check(cs, evicting, m, j, late).0;
    var added := m[j := Full(ConfigOf(cs, j), late)];
    OthersDiffer(k, n, n);
    assert added.Keys == m.Keys + {j} && |added.Keys| == n + 2;
    assert |added| == |added.Keys|;
    if evicting && n + 1 >= MAX_BUCKETS {
      assert Stale(added[k], late);
    } else {
      assert m'.Keys == added.Keys;
      assert |m'| == |m'.Keys|;
      forall i | i >= n + 1
        ensures Other(k, i) !in m'
      {
        OthersDiffer(k, i, n);
      }
    }
  }

  lemma AfterCrowdStep(cs: Configs, evicting: bool, m: Store, k: Key, n: nat, late: real)
    ensures After(cs, evicting, m, Crowd(k, late, n + 1))
         == Check(cs, evicting, After(cs, evicting, m, Crowd(k, late, n)), Other(k, n), late).0
  {
    var op := Request([Other(k, n)], late);
    var crowd := After(cs, evicting, m, Crowd(k, late, n));
    assert Crowd(k, late, n + 1) == Crowd(k, late, n) + [op];
    AfterSplit(cs, evicting, m, Crowd(k, late, n), [op]);
    CheckOne(cs, evicting, crowd, Other(k, n), late);
    assert [op][1..] == [];
  }

  lemma {:induction false} AfterCrowd(cs: Configs, evicting: bool, m: Store, k: Key, n: nat, late: real)
    requires Crowded(m, k, 0) && late > STALE_AFTER
    requires evicting ==> n < MAX_BUCKETS
    ensures Crowded(After(cs, evicting, m, Crowd(k, late, n)), k, n)
    decreases n
  {
    if n > 0 {
      AfterCrowd(cs, evicting, m, k, n - 1, late);
      AfterCrowdStep(cs, evicting, m, k, n - 1, late);
      NewcomerStep(cs, evicting, After(cs, evicting, m, Crowd(k, late, n - 1)), k, n - 1, late);
    }
  }

  /** The run up to the second burst. */
  function DrainAndCrowd(k: Key, n: nat, late: real): seq<Op> {
    Burst(k, 0.0, n) + Crowd(k, late, MAX_BUCKETS)
  }

  /** The bucket is empty but for what has been refilled since, or it is gone. */
  lemma AfterDrainAndCrowd(cs: Configs, evicting: bool, k: Key, n: nat, late: real)
    requires SaneConfigs(cs) && n == ConfigOf(cs, k).burst && n > 0 && late > STALE_AFTER
    ensures var m := After(cs, evicting, map[], DrainAndCrowd(k, n, late));
      if evicting then k !in m else k in m && m[k] == Bucket(0.0, 0.0)
  {
    var drained: Store := map[k := Bucket(0.0, 0.0)];
    BurstDrains(cs, evicting, map[], k, 0.0, n);
    AfterSplit(cs, evicting, map[], Burst(k, 0.0, n), Crowd(k, late, MAX_BUCKETS));
    DrainedIsCrowded(k);
    AfterCrowd(cs, evicting, drained, k, MAX_BUCKETS - 1, late);
    AfterCrowdStep(cs, evicting, drained, k, MAX_BUCKETS - 1, late);
    NewcomerStep(cs, evicting, After(cs, evicting, drained, Crowd(k, late, MAX_BUCKETS - 1)), k, MAX_BUCKETS - 1, late);
  }

  lemma DrainedIsCrowded(k: Key)
    ensures Crowded(map[k := Bucket(0.0, 0.0)], k, 0)
  {
    forall i: nat
      ensures Other(k, i) != k
    {
      OthersDiffer(k, i, i);
    }
  }

  /** When a bucket can go stale before it is full, clients can tell whether stale buckets are evicted. */
  lemma EvictionVisible(cs: Configs, k: Key) returns (ops: seq<Op>)
    requires SaneConfigs(cs) && !FillsBeforeStale(ConfigOf(cs, k))
    requires k.scope.Global? ==> k.id == "_"
    ensures InOrder(ops) && forall i | 0 <= i < |ops| :: FromClient(ops[i])
    ensures Trace(cs, true, map[], ops) != Trace(cs, false, map[], ops)
  {
    var late := LateButNotFull(ConfigOf(cs, k));
    var n := ConfigOf(cs, k).burst;
    var first := DrainAndCrowd(k, n, late);
    ops := first + Burst(k, late, n);
    DrainInOrder(k, n, late);
    AllFromClients(k, n, late);
    LastAnswer(cs, true, k, n, late);
    LastAnswer(cs, false, k, n, late);
  }

  lemma DrainInOrder(k: Key, n: nat, late: real)
    requires late > STALE_AFTER
    ensures InOrder(DrainAndCrowd(k, n, late)) && InOrder(DrainAndCrowd(k, n, late) + Burst(k, late, n))
    ensures forall i | 0 <= i < |DrainAndCrowd(k, n, late)| :: DrainAndCrowd(k, n, late)[i].time <= late
  {
  }

  lemma AllFromClients(k: Key, n: nat, late: real)
    requires k.scope.Global? ==> k.id == "_"
    ensures var ops := DrainAndCrowd(k, n, late) + Burst(k, late, n);
      forall i | 0 <= i < |ops| :: FromClient(ops[i])
  {
  }

  /** The last of the second burst is granted by the evicting limiter alone. */
  lemma LastAnswer(cs: Configs, evicting: bool, k: Key, n: nat, late: real)
    requires SaneConfigs(cs) && n == ConfigOf(cs, k).burst && n > 0 && late > STALE_AFTER
    requires 0.0 <= late * ConfigOf(cs, k).rate < n as real
    ensures var first := DrainAndCrowd(k, n, late);
      var trace := Trace(cs, evicting, map[], first + Burst(k, late, n));
      |trace| == |first| + n && |trace[|first| + n - 1]| == 1 && (trace[|first| + n - 1][0].allowed <==> evicting)
  {
    var first := DrainAndCrowd(k, n, late);
    var m := After(cs, evicting, map[], first);
    DrainInOrder(k, n, late);
    ReachableAt(cs, evicting, first, late);
    AfterDrainAndCrowd(cs, evicting, k, n, late);
    LastOfSecond(cs, evicting, m, k, first, late, n);
    DrainedAvailable(cs, m, k, late);
  }

  lemma DrainedAvailable(cs: Configs, m: Store, k: Key, late: real)
    requires late * ConfigOf(cs, k).rate < ConfigOf(cs, k).burst as real
    ensures k in m && m[k] == Bucket(0.0, 0.0) ==> Available(cs, m, k, late) == late * ConfigOf(cs, k).rate
  {
    assert (late - 0.0) * ConfigOf(cs, k).rate == late * ConfigOf(cs, k).rate;
  }

  lemma LastOfSecond(cs: Configs, evicting: bool, m: Store, k: Key, first: seq<Op>, late: real, n: nat)
    requires SaneConfigs(cs) && WellFormed(cs, m, late) && n > 0
    requires After(cs, evicting, map[], first) == m
    ensures var trace := Trace(cs, evicting, map[], first + Burst(k, late, n));
      && |trace| == |first| + n && |trace[|first| + n - 1]| == 1
      && (trace[|first| + n - 1][0].allowed <==> n as real <= Available(cs, m, k, late))
  {
    TraceSplit(cs, evicting, map[], first, Burst(k, late, n));
    BurstOutcome(cs, evicting, m, k, late, n);
  }

  lemma {:induction false} AfterSplit(cs: Configs, evicting: bool, m: Store, a: seq<Op>, b: seq<Op>)
    ensures After(cs, evicting, m, a + b) == After(cs, evicting, After(cs, evicting, m, a), b)
    decreases |a|
  {
    if a == [] {
      assert a + b == b;
    } else {
      assert (a + b)[1..] == a[1..] + b;
      AfterSplit(cs, evicting, Step(cs, evicting, m, a[0]).0, a[1..], b);
    }
  }

  // ----- Reachable stores -----

  lemma {:induction false} ReachableWellFormed(cs: Configs, evicting: bool, m: Store, t: real, ops: seq<Op>, end: real)
    requires SaneConfigs(cs) && WellFormed(cs, m, t) && OpsFrom(t, ops)
    requires t <= end && forall i | 0 <= i < |ops| :: ops[i].time <= end
    ensures WellFormed(cs, After(cs, evicting, m, ops), end)
    decreases |ops|
  {
    if ops != [] {
      StepWellFormed(cs, evicting, m, ops[0], t);
      ReachableWellFormed(cs, evicting, Step(cs, evicting, m, ops[0]).0, ops[0].time, ops[1..], end);
    }
  }

  lemma ReachableAt(cs: Configs, evicting: bool, before: seq<Op>, now: real)
    requires SaneConfigs(cs) && InOrder(before) && forall i | 0 <= i < |before| :: before[i].time <= now
    ensures WellFormed(cs, After(cs, evicting, map[], before), now)
  {
    if before != [] {
      ReachableWellFormed(cs, evicting, map[], before[0].time, before, now);
    }
  }

  /** The limiter's own configurations, under which evictions are invisible and every bound holds. */
  const DEFAULTS := Configs(Config(5.0, 10, 120.0), Config(20.0, 40, 60.0), Config(50.0, 100, 60.0))

  lemma DefaultsEvictInvisibly()
    ensures SaneConfigs(DEFAULTS) && EvictionInvisible(DEFAULTS)
  {
    EvictionInvisibleIff(DEFAULTS);
  }
}
