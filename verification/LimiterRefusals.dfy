/** What a request leaves behind: later answers depend on it exactly when one of its keys allowed it. */
module LimiterRefusals {
  import opened Prelude
  import opened TokenBuckets
  import opened LimiterStore
  import opened LimiterBounds

  /** The bucket that a check of `k` at `now` consumes from. */
  function Level(cs: Configs, m: Store, k: Key, now: real): Bucket {
    if k in m then Refill(ConfigOf(cs, k), m[k], now) else Full(ConfigOf(cs, k), now)
  }

  /** Two stores that no check at `now` tells apart. */
  ghost predicate Alike(cs: Configs, m: Store, p: Store, now: real) {
    forall k :: Level(cs, m, k, now) == Level(cs, p, k, now)
  }

  lemma LevelLater(cs: Configs, m: Store, k: Key, t: real, now: real)
    requires SaneConfigs(cs) && WellFormed(cs, m, t) && t <= now
    ensures Level(cs, m, k, now) == Refill(ConfigOf(cs, k), Level(cs, m, k, t), now)
  {
    var cfg := ConfigOf(cs, k);
    if k in m {
      RefillTwice(cfg, m[k], t, now);
    } else {
      RefillNow(cfg, Full(cfg, t), t);
      FullStaysFull(cfg, Full(cfg, t), t, now);
    }
  }

  lemma AlikeLater(cs: Configs, m: Store, p: Store, t: real, now: real)
    requires SaneConfigs(cs) && WellFormed(cs, m, t) && WellFormed(cs, p, t) && t <= now && Alike(cs, m, p, t)
    ensures Alike(cs, m, p, now)
  {
    forall k
      ensures Level(cs, m, k, now) == Level(cs, p, k, now)
    {
      assert Level(cs, m, k, t) == Level(cs, p, k, t);
      LevelLater(cs, m, k, t, now);
      LevelLater(cs, p, k, t, now);
    }
  }

  /** Taking one token, if there is one. */
  function Spend(level: Bucket): (Bucket, bool) {
    if level.tokens >= 1.0 then (level.(tokens := level.tokens - 1.0), true) else (level, false)
  }

  /** Without evictions a check replaces the level of its key by what is left of it, and reads nothing else. */
  lemma CheckLevel(cs: Configs, m: Store, k: Key, j: Key, now: real)
    requires SaneConfigs(cs) && WellFormed(cs, m, now)
    ensures var (m', r) := Check(cs, false, m, k, now);
      var (left, ok) := Spend(Level(cs, m, k, now));
      && r == ResultOf(ConfigOf(cs, k), k, left, ok)
      && Level(cs, m', j, now) == if j == k then left else Level(cs, m, j, now)
  {
    var cfg := ConfigOf(cs, k);
    var (left, ok) := Spend(Level(cs, m, k, now));
    if k !in m {
      RefillNow(cfg, Full(cfg, now), now);
    }
    var found := GetBucket(cs, false, m, k, now);
    assert found == if k in m then m else m[k := Full(cfg, now)];
    assert Consume(cfg, found[k], now) == (left, ok);
    CheckIs(cs, false, m, k, now, found, left, ok);
    LevelIsCapped(cs, m, k, now);
    RefillNow(cfg, left, now);
  }

  lemma LevelIsCapped(cs: Configs, m: Store, k: Key, now: real)
    requires SaneConfigs(cs) && WellFormed(cs, m, now)
    ensures Level(cs, m, k, now).lastRefill == now && Level(cs, m, k, now).tokens <= ConfigOf(cs, k).burst as real
  {
  }

  lemma AlikeCheck(cs: Configs, m: Store, p: Store, k: Key, now: real)
    requires SaneConfigs(cs) && WellFormed(cs, m, now) && WellFormed(cs, p, now) && Alike(cs, m, p, now)
    ensures Check(cs, false, m, k, now).1 == Check(cs, false, p, k, now).1
    ensures Alike(cs, Check(cs, false, m, k, now).0, Check(cs, false, p, k, now).0, now)
  {
    var (m', r) := Check(cs, false, m, k, now);
    var (p', q) := Check(cs, false, p, k, now);
    forall j
      ensures r == q && Level(cs, m', j, now) == Level(cs, p', j, now)
    {
      assert Level(cs, m, j, now) == Level(cs, p, j, now) && Level(cs, m, k, now) == Level(cs, p, k, now);
      CheckLevel(cs, m, k, j, now);
      CheckLevel(cs, p, k, j, now);
    }
    assert Level(cs, m', k, now) == Level(cs, p', k, now);
  }

  lemma {:induction false} AlikeCheckEach(cs: Configs, m: Store, p: Store, keys: seq<Key>, now: real)
    requires SaneConfigs(cs) && WellFormed(cs, m, now) && WellFormed(cs, p, now) && Alike(cs, m, p, now)
    ensures var (m', r), (p', q) := CheckEach(cs, false, m, keys, now), CheckEach(cs, false, p, keys, now);
      r == q && Alike(cs, m', p', now)
    decreases |keys|
  {
    if keys != [] {
      AlikeCheck(cs, m, p, keys[0], now);
      CheckWellFormed(cs, false, m, keys[0], now, now);
      CheckWellFormed(cs, false, p, keys[0], now, now);
      AlikeCheckEach(cs, Check(cs, false, m, keys[0], now).0, Check(cs, false, p, keys[0], now).0, keys[1..], now);
    }
  }

  lemma AlikeStep(cs: Configs, m: Store, p: Store, op: Op)
    requires SaneConfigs(cs) && WellFormed(cs, m, op.time) && WellFormed(cs, p, op.time) && Alike(cs, m, p, op.time)
    ensures var (m', r), (p', q) := Step(cs, false, m, op), Step(cs, false, p, op);
      r == q && Alike(cs, m', p', op.time)
  {
    match op
    case Request(keys, now) => AlikeCheckEach(cs, m, p, keys, now);
    case Cleanup(now) =>
    case Reset(k, now) =>
      forall j
        ensures Level(cs, m - {k}, j, now) == Level(cs, p - {k}, j, now)
      {
        assert Level(cs, m, j, now) == Level(cs, p, j, now);
      }
  }

  lemma {:induction false} AlikeRun(cs: Configs, m: Store, p: Store, t: real, ops: seq<Op>)
    requires SaneConfigs(cs) && OpsFrom(t, ops)
    requires WellFormed(cs, m, t) && WellFormed(cs, p, t) && Alike(cs, m, p, t)
    ensures Trace(cs, false, m, ops) == Trace(cs, false, p, ops)
    decreases |ops|
  {
    if ops != [] {
      var now := ops[0].time;
      AlikeLater(cs, m, p, t, now);
      StepWellFormed(cs, false, m, ops[0], t);
      StepWellFormed(cs, false, p, ops[0], t);
      assert WellFormed(cs, m, now) && WellFormed(cs, p, now);
      AlikeStep(cs, m, p, ops[0]);
      AlikeRun(cs, Step(cs, false, m, ops[0]).0, Step(cs, false, p, ops[0]).0, now, ops[1..]);
    }
  }

  // ----- What is left behind -----

  predicate NoneAllowed(results: seq<Result>) {
    forall i | 0 <= i < |results| :: !results[i].allowed
  }

  lemma {:induction false} RefusalsLeaveAlike(cs: Configs, m: Store, keys: seq<Key>, now: real)
    requires SaneConfigs(cs) && WellFormed(cs, m, now) && NoneAllowed(CheckEach(cs, false, m, keys, now).1)
    ensures Alike(cs, CheckEach(cs, false, m, keys, now).0, m, now)
    decreases |keys|
  {
    if keys != [] {
      var (m', first) := Check(cs, false, m, keys[0], now);
      var rest := CheckEach(cs, false, m', keys[1..], now).1;
      var results := [first] + rest;
      assert CheckEach(cs, false, m, keys, now).1 == results;
      assert !results[0].allowed && forall i | 0 <= i < |rest| :: rest[i] == results[i + 1];
      CheckWellFormed(cs, false, m, keys[0], now, now);
      RefusalsLeaveAlike(cs, m', keys[1..], now);
      forall j
        ensures Level(cs, m', j, now) == Level(cs, m, j, now)
      {
        CheckLevel(cs, m, keys[0], j, now);
      }
    }
  }

  /** No later answer depends on whether the request was made. */
  ghost predicate Unnoticed(cs: Configs, evicting: bool, m: Store, keys: seq<Key>, now: real) {
    forall ops: seq<Op> | OpsFrom(now, ops) ::
      Trace(cs, evicting, CheckEach(cs, evicting, m, keys, now).0, ops) == Trace(cs, evicting, m, ops)
  }

  /** A request changes no later answer exactly when none of its keys allowed it.  Being refused as a whole is not
      enough: the keys that did allow it have spent a token. */
  lemma RequestUnnoticedIff(cs: Configs, evicting: bool, m: Store, keys: seq<Key>, now: real)
    requires SaneConfigs(cs) && WellFormed(cs, m, now) && (evicting ==> EvictionSafe(cs))
    ensures Unnoticed(cs, evicting, m, keys, now) <==> NoneAllowed(CheckEach(cs, evicting, m, keys, now).1)
  {
    var results := CheckEach(cs, evicting, m, keys, now).1;
    if NoneAllowed(results) {
      forall ops: seq<Op> | OpsFrom(now, ops)
        ensures Trace(cs, evicting, CheckEach(cs, evicting, m, keys, now).0, ops) == Trace(cs, evicting, m, ops)
      {
        RefusedUnnoticed(cs, evicting, m, keys, now, ops);
      }
    } else {
      var i :| 0 <= i < |results| && results[i].allowed;
      var ops := AllowedNoticed(cs, evicting, m, keys, now, i);
    }
  }

  lemma RefusedUnnoticed(cs: Configs, evicting: bool, m: Store, keys: seq<Key>, now: real, ops: seq<Op>)
    requires SaneConfigs(cs) && WellFormed(cs, m, now) && (evicting ==> EvictionSafe(cs)) && OpsFrom(now, ops)
    requires NoneAllowed(CheckEach(cs, evicting, m, keys, now).1)
    ensures Trace(cs, evicting, CheckEach(cs, evicting, m, keys, now).0, ops) == Trace(cs, evicting, m, ops)
  {
    var p := CheckEach(cs, false, m, keys, now).0;
    CheckEachWellFormed(cs, false, m, keys, now);
    if evicting {
      SimulationCheckEach(cs, m, m, keys, now);
      SimulationRun(cs, CheckEach(cs, true, m, keys, now).0, p, now, ops);
      SimulationRun(cs, m, m, now, ops);
    }
    RefusalsLeaveAlike(cs, m, keys, now);
    AlikeRun(cs, p, m, now, ops);
  }

  lemma {:induction false} AllowedSpends(keys: seq<Key>, results: seq<Result>, i: nat)
    requires |keys| == |results| && i < |keys| && results[i].allowed
    ensures AllowedAt(keys, results, keys[i]) >= 1
    decreases |keys|
  {
    if i > 0 {
      AllowedSpends(keys[1..], results[1..], i - 1);
    }
  }

  /** A burst of exactly what was there before the request fails after it. */
  lemma AllowedNoticed(cs: Configs, evicting: bool, m: Store, keys: seq<Key>, now: real, i: nat) returns (ops: seq<Op>)
    requires SaneConfigs(cs) && WellFormed(cs, m, now) && (evicting ==> EvictionSafe(cs))
    requires i < |keys| && CheckEach(cs, evicting, m, keys, now).1[i].allowed
    ensures OpsFrom(now, ops)
    ensures Trace(cs, evicting, CheckEach(cs, evicting, m, keys, now).0, ops) != Trace(cs, evicting, m, ops)
  {
    var k := keys[i];
    var (m', results) := CheckEach(cs, evicting, m, keys, now);
    CheckEachWellFormed(cs, evicting, m, keys, now);
    CheckEachAvailable(cs, evicting, m, keys, k, now);
    AllowedSpends(keys, results, i);
    AvailableWithin(cs, m', k, now);
    var n := Available(cs, m, k, now).Floor;
    ops := Burst(k, now, n);
    BurstOutcome(cs, evicting, m, k, now, n);
    BurstOutcome(cs, evicting, m', k, now, n);
  }

  /** With the global bucket drained and an agent's still full, the agent's request is refused, and yet noticed. */
  lemma RefusedButNoticed(cs: Configs, evicting: bool, agent: string)
    requires SaneConfigs(cs) && (evicting ==> EvictionSafe(cs))
    requires cs.agent.burst >= 1 && cs.global.burst >= 1 && agent != ""
    ensures var m := After(cs, evicting, map[], Burst(Key(Global, "_"), 0.0, cs.global.burst));
      var keys := KeysFor(Some(agent), None);
      && !MostRestrictive(CheckEach(cs, evicting, m, keys, 0.0).1).allowed
      && !Unnoticed(cs, evicting, m, keys, 0.0)
  {
    var shared := Key(Global, "_");
    BurstDrains(cs, evicting, map[], shared, 0.0, cs.global.burst);
    assert KeysFor(Some(agent), None) == [Key(Agent, agent), shared];
    SecondRefuses(cs, evicting, map[shared := Bucket(0.0, 0.0)], Key(Agent, agent), shared, 0.0) by {
      RefillNow(cs.global, Bucket(0.0, 0.0), 0.0);
    }
  }

  /** A request that its first key allows and its second refuses is refused, and noticed. */
  lemma SecondRefuses(cs: Configs, evicting: bool, m: Store, first: Key, second: Key, now: real)
    requires SaneConfigs(cs) && (evicting ==> EvictionSafe(cs)) && WellFormed(cs, m, now) && first != second
    requires Available(cs, m, first, now) >= 1.0 > Available(cs, m, second, now)
    ensures !MostRestrictive(CheckEach(cs, evicting, m, [first, second], now).1).allowed
    ensures !Unnoticed(cs, evicting, m, [first, second], now)
  {
    TwoKeys(cs, evicting, m, first, second, now);
    RequestUnnoticedIff(cs, evicting, m, [first, second], now);
  }

  lemma TwoKeys(cs: Configs, evicting: bool, m: Store, first: Key, second: Key, now: real)
    requires SaneConfigs(cs) && (evicting ==> EvictionSafe(cs)) && WellFormed(cs, m, now) && first != second
    ensures var results := CheckEach(cs, evicting, m, [first, second], now).1;
      && (results[0].allowed <==> Available(cs, m, first, now) >= 1.0)
      && (results[1].allowed <==> Available(cs, m, second, now) >= 1.0)
  {
    var m' := Check(cs, evicting, m, first, now).0;
    CheckSpends(cs, evicting, m, first, now);
    CheckWellFormed(cs, evicting, m, first, now, now);
    CheckAvailable(cs, evicting, m, first, second, now);
    CheckSpends(cs, evicting, m', second, now);
    CheckOne(cs, evicting, m', second, now);
    assert [first, second][1..] == [second];
  }
}
