/** The limiter object: a dictionary of bucket objects. */
module RateLimiter {
  import opened Prelude
  import opened TokenBuckets
  import opened LimiterStore
  import Rounding
  import LimiterAnswers

  class Limiter {
    const configs: Configs
    var buckets: map<Key, TokenBucket>

    /** Each key has a bucket object of its own, set up with the configuration of the key's scope. */
    ghost predicate Valid()
      reads this
    {
      && (forall k | k in buckets :: buckets[k].config == ConfigOf(configs, k) && buckets[k].Valid())
      && (forall j, k | j in buckets && k in buckets && j != k :: buckets[j] != buckets[k])
    }

    ghost function Contents(): Store
      reads this, buckets.Values
    {
      map k | k in buckets :: buckets[k].State()
    }

    constructor (configs: Configs)
      ensures Valid() && this.configs == configs && Contents() == map[] && buckets == map[]
    {
      this.configs := configs;
      buckets := map[];
    }

    method CleanupStaleBuckets(now: real)
      requires Valid()
      modifies `buckets
      ensures Valid() && buckets.Values <= old(buckets.Values)
      ensures Contents() == Evict(old(Contents()), now)
    {
      ghost var before := buckets;
      var staleKeys: set<Key> := {};
      var rest := buckets.Keys;
      while rest != {}
        invariant buckets == before && rest <= buckets.Keys
        invariant staleKeys == set k | k in buckets.Keys - rest && Stale(buckets[k].State(), now)
        decreases rest
      {
        var k :| k in rest;
        if now - buckets[k].lastRefill > STALE_AFTER {
          staleKeys := staleKeys + {k};
        }
        rest := rest - {k};
      }
      while staleKeys != {}
        invariant staleKeys <= buckets.Keys && buckets.Keys <= before.Keys
        invariant forall k | k in buckets :: buckets[k] == before[k]
        invariant forall k | k in before :: k in buckets.Keys - staleKeys <==> !Stale(before[k].State(), now)
        decreases staleKeys
      {
        var k :| k in staleKeys;
        buckets := buckets - {k};
        staleKeys := staleKeys - {k};
      }
    }

    method AddBucket(k: Key, bucket: TokenBucket)
      requires Valid() && k !in buckets && bucket !in buckets.Values
      requires bucket.config == ConfigOf(configs, k) && bucket.Valid()
      modifies `buckets
      ensures Valid() && buckets == old(buckets)[k := bucket]
      ensures Contents() == old(Contents())[k := bucket.State()]
    {
      buckets := buckets[k := bucket];
    }

    method GetBucket(k: Key, now: real)
      returns (bucket: TokenBucket)
      requires Valid()
      modifies `buckets
      ensures Valid() && k in buckets && buckets[k] == bucket
      ensures fresh(buckets.Values - old(buckets.Values))
      ensures fresh(bucket) || bucket in old(buckets.Values)
      ensures Contents() == LimiterStore.GetBucket(configs, true, old(Contents()), k, now)
    {
      if k !in buckets {
        var created := new TokenBucket(ConfigOf(configs, k), now);
        AddBucket(k, created);
        assert |buckets| == |buckets.Keys| && |Contents()| == |Contents().Keys| && buckets.Keys == Contents().Keys;
        if |buckets| > MAX_BUCKETS {
          CleanupStaleBuckets(now);
        }
      }
      assert k in Contents();
      bucket := buckets[k];
    }

    /** Consuming from one bucket changes that bucket only. */
    method TakeFrom(k: Key, now: real) returns (ok: bool)
      requires Valid() && k in buckets
      modifies buckets[k]
      ensures Valid()
      ensures var (b, granted) := Consume(ConfigOf(configs, k), old(Contents())[k], now);
        Contents() == old(Contents())[k := b] && ok == granted
    {
      ok := buckets[k].Take(now);
    }

    /** One check of one key. */
    method Check(k: Key, now: real) returns (r: Result)
      requires Valid()
      modifies `buckets, buckets.Values
      ensures Valid() && fresh(buckets.Values - old(buckets.Values))
      ensures (Contents(), r) == LimiterStore.Check(configs, true, old(Contents()), k, now)
    {
      var bucket := GetBucket(k, now);
      ghost var found := Contents();
      var ok := TakeFrom(k, now);
      CheckIs(configs, true, old(Contents()), k, now, found, Contents()[k], ok);
      r := Report(k, bucket, ok);
    }

    method Report(k: Key, bucket: TokenBucket, ok: bool) returns (r: Result)
      requires bucket.Valid() && bucket.config == ConfigOf(configs, k)
      ensures r == ResultOf(bucket.config, k, bucket.State(), ok)
    {
      var cfg := ConfigOf(configs, k);
      if !ok {
        var retryAfter := if bucket.rate > 0.0 then (1.0 - bucket.tokens) / bucket.rate else cfg.cooldown;
        return Result(false, Rounding.Round(Max(retryAfter, 0.1), 100.0), 0, cfg.burst, k.scope);
      }
      r := Result(true, 0.0, Remaining(bucket.State()), cfg.burst, k.scope);
    }

    /** Asks every applicable key, always including the global one, and answers with the most restrictive
        result: allowed exactly when all were, and then with the fewest remaining. */
    method CheckAll(agent: Option<string>, ip: Option<string>, now: real) returns (r: Result)
      requires Valid()
      modifies `buckets, buckets.Values
      ensures Valid() && fresh(buckets.Values - old(buckets.Values))
      ensures (Contents(), r) == LimiterAnswers.CheckAll(configs, true, old(Contents()), agent, ip, now)
    {
      var results := Collect(agent, ip, now);
      r := MostRestrictive(results);
    }

    method Collect(agent: Option<string>, ip: Option<string>, now: real) returns (results: seq<Result>)
      requires Valid()
      modifies `buckets, buckets.Values
      ensures Valid() && fresh(buckets.Values - old(buckets.Values))
      ensures (Contents(), results) == CheckEach(configs, true, old(Contents()), KeysFor(agent, ip), now)
    {
      ghost var start := Contents();
      results := CheckScopes(agent, ip, now);
      results := CheckNext(Key(Global, "_"), now, results, start, KeyIfGiven(Agent, agent) + KeyIfGiven(Ip, ip));
    }

    method CheckScopes(agent: Option<string>, ip: Option<string>, now: real) returns (results: seq<Result>)
      requires Valid()
      modifies `buckets, buckets.Values
      ensures Valid() && fresh(buckets.Values - old(buckets.Values))
      ensures (Contents(), results)
           == CheckEach(configs, true, old(Contents()), KeyIfGiven(Agent, agent) + KeyIfGiven(Ip, ip), now)
    {
      ghost var start := Contents();
      assert [] + KeyIfGiven(Agent, agent) == KeyIfGiven(Agent, agent);
      results := CheckGiven(Agent, agent, now, [], start, []);
      results := CheckGiven(Ip, ip, now, results, start, KeyIfGiven(Agent, agent));
    }

    method CheckGiven(
        scope: Scope, id: Option<string>, now: real, results: seq<Result>, ghost start: Store, ghost keys: seq<Key>)
      returns (results': seq<Result>)
      requires Valid()
      requires (Contents(), results) == CheckEach(configs, true, start, keys, now)
      modifies `buckets, buckets.Values
      ensures Valid() && fresh(buckets.Values - old(buckets.Values))
      ensures (Contents(), results') == CheckEach(configs, true, start, keys + KeyIfGiven(scope, id), now)
    {
      if Given(id) {
        results' := CheckNext(Key(scope, id.value), now, results, start, keys);
      } else {
        results' := results;
        assert keys + [] == keys;
      }
    }

    method CheckNext(k: Key, now: real, results: seq<Result>, ghost start: Store, ghost keys: seq<Key>)
      returns (results': seq<Result>)
      requires Valid()
      requires (Contents(), results) == CheckEach(configs, true, start, keys, now)
      modifies `buckets, buckets.Values
      ensures Valid() && fresh(buckets.Values - old(buckets.Values))
      ensures (Contents(), results') == CheckEach(configs, true, start, keys + [k], now)
    {
      var r := Check(k, now);
      CheckOneMore(configs, start, keys, k, now);
      results' := results + [r];
    }

    method Reset(k: Key)
      requires Valid()
      modifies `buckets
      ensures Valid() && buckets.Values <= old(buckets.Values)
      ensures Contents() == old(Contents()) - {k}
    {
      buckets := buckets - {k};
    }
  }

  lemma {:induction false} CheckOneMore(cs: Configs, m: Store, keys: seq<Key>, k: Key, now: real)
    ensures var (m', results) := CheckEach(cs, true, m, keys, now);
      var (m'', r) := LimiterStore.Check(cs, true, m', k, now);
      CheckEach(cs, true, m, keys + [k], now) == (m'', results + [r])
    decreases |keys|
  {
    if keys == [] {
      CheckOne(cs, true, m, k, now);
      assert keys + [k] == [k];
      var r := LimiterStore.Check(cs, true, m, k, now).1;
      assert [] + [r] == [r];
    } else {
      assert (keys + [k])[1..] == keys[1..] + [k];
      var (m', first) := LimiterStore.Check(cs, true, m, keys[0], now);
      CheckOneMore(cs, m', keys[1..], k, now);
      var rest := CheckEach(cs, true, m', keys[1..], now);
      var r := LimiterStore.Check(cs, true, rest.0, k, now).1;
      assert [first] + (rest.1 + [r]) == ([first] + rest.1) + [r];
    }
  }
}
