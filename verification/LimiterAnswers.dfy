/** What a client sees: the answers of one check and of `check_all`, in terms of the arguments and the tokens there. */
module LimiterAnswers {
  import opened Prelude
  import opened TokenBuckets
  import opened LimiterStore
  import opened LimiterBounds
  import Rounding
  import RealFacts

  // ----- One check -----

  /** The answer names the scope and its burst.  A granted one tells how many more would be granted at once, up to a
      fraction of a token. */
  lemma GrantReports(cs: Configs, evicting: bool, m: Store, k: Key, now: real)
    requires SaneConfigs(cs) && WellFormed(cs, m, now) && Check(cs, evicting, m, k, now).1.allowed
    ensures var (m', r) := Check(cs, evicting, m, k, now);
      && r.scope == k.scope && r.limit == ConfigOf(cs, k).burst && r.retryAfter == 0.0
      && r.remaining as real <= Available(cs, m', k, now) < (r.remaining + 1) as real
  {
    CheckSpends(cs, evicting, m, k, now);
    CheckWellFormed(cs, evicting, m, k, now, now);
  }

  /** A refusal leaves nothing, and reports to the nearest hundredth the time until a token is there, at least a
      tenth of a second; a bucket that never refills reports its cooldown. */
  lemma RefusalReports(cs: Configs, evicting: bool, m: Store, k: Key, now: real)
    requires SaneConfigs(cs) && WellFormed(cs, m, now) && !Check(cs, evicting, m, k, now).1.allowed
    ensures var (m', r) := Check(cs, evicting, m, k, now);
      var cfg, left := ConfigOf(cs, k), Available(cs, m, k, now);
      var wait := if cfg.rate > 0.0 then (1.0 - left) / cfg.rate else cfg.cooldown;
      && r.scope == k.scope && r.limit == cfg.burst && r.remaining == 0
      && -0.005 <= r.retryAfter - (if wait < 0.1 then 0.1 else wait) <= 0.005
  {
    var b := Check(cs, evicting, m, k, now).0[k];
    CheckSpends(cs, evicting, m, k, now);
    Rounding.RoundError(RetryAfter(ConfigOf(cs, k), b), 100.0);
    assert 0.5 / 100.0 == 0.005;
  }

  // ----- Several keys -----

  predicate HasToken(cs: Configs, m: Store, k: Key, now: real) {
    Available(cs, m, k, now) >= 1.0
  }

  predicate Different(keys: seq<Key>) {
    forall i, j | 0 <= i < j < |keys| :: keys[i] != keys[j]
  }

  /** Each of several different keys answers for itself, and pays a token if it has one; no other key pays. */
  lemma {:induction false} EachAnswersForItself(cs: Configs, evicting: bool, m: Store, keys: seq<Key>, now: real)
    requires SaneConfigs(cs) && WellFormed(cs, m, now) && (evicting ==> EvictionSafe(cs)) && Different(keys)
    ensures var (m', results) := CheckEach(cs, evicting, m, keys, now);
      && (forall i | 0 <= i < |keys| ::
            (results[i].allowed <==> HasToken(cs, m, keys[i], now)) && results[i].scope == keys[i].scope)
      && (forall k ::
            Available(cs, m', k, now)
            == Available(cs, m, k, now) - if k in keys && HasToken(cs, m, k, now) then 1.0 else 0.0)
    decreases |keys|
  {
    if keys != [] {
      var k, rest := keys[0], keys[1..];
      var (m', first) := Check(cs, evicting, m, k, now);
      FirstAnswers(cs, evicting, m, k, now);
      assert forall i | 0 <= i < |rest| :: rest[i] == keys[i + 1] && rest[i] != k;
      EachAnswersForItself(cs, evicting, m', rest, now);
    }
  }

  lemma FirstAnswers(cs: Configs, evicting: bool, m: Store, k: Key, now: real)
    requires SaneConfigs(cs) && WellFormed(cs, m, now) && (evicting ==> EvictionSafe(cs))
    ensures var (m', r) := Check(cs, evicting, m, k, now);
      && WellFormed(cs, m', now) && (r.allowed <==> HasToken(cs, m, k, now)) && r.scope == k.scope
      && (forall j ::
            Available(cs, m', j, now)
            == Available(cs, m, j, now) - if j == k && HasToken(cs, m, k, now) then 1.0 else 0.0)
  {
    CheckSpends(cs, evicting, m, k, now);
    CheckWellFormed(cs, evicting, m, k, now, now);
    forall j
      ensures Available(cs, Check(cs, evicting, m, k, now).0, j, now)
           == Available(cs, m, j, now) - if j == k && HasToken(cs, m, k, now) then 1.0 else 0.0
    {
      CheckAvailable(cs, evicting, m, k, j, now);
    }
  }

  // ----- check_all -----

  /** The store and the answer after `check_all`. */
  function CheckAll(cs: Configs, evicting: bool, m: Store, agent: Option<string>, ip: Option<string>, now: real)
    : (Store, Result)
  {
    var (m', results) := CheckEach(cs, evicting, m, KeysFor(agent, ip), now);
    (m', MostRestrictive(results))
  }

  /** A given agent's key, a given address's key, and always the global key.  The empty string gives nothing. */
  predicate Asked(agent: Option<string>, ip: Option<string>, k: Key) {
    || (agent != None && agent != Some("") && k.scope == Agent && agent == Some(k.id))
    || (ip != None && ip != Some("") && k.scope == Ip && ip == Some(k.id))
    || k == Key(Global, "_")
  }

  lemma KeysAreAsked(agent: Option<string>, ip: Option<string>, k: Key)
    ensures k in KeysFor(agent, ip) <==> Asked(agent, ip, k)
    ensures Different(KeysFor(agent, ip))
  {
  }

  /** `check_all` allows exactly when every key asked has a token; each of these that has one pays one, whether or not
      the others do, and no other key pays. */
  lemma CheckAllAllowsIff(cs: Configs, evicting: bool, m: Store, agent: Option<string>, ip: Option<string>, now: real)
    requires SaneConfigs(cs) && WellFormed(cs, m, now) && (evicting ==> EvictionSafe(cs))
    ensures var (m', r) := CheckAll(cs, evicting, m, agent, ip, now);
      && (r.allowed <==> forall k | Asked(agent, ip, k) :: HasToken(cs, m, k, now))
      && (forall k ::
            Available(cs, m', k, now)
            == Available(cs, m, k, now) - if Asked(agent, ip, k) && HasToken(cs, m, k, now) then 1.0 else 0.0)
  {
    var keys := KeysFor(agent, ip);
    var (m', results) := CheckEach(cs, evicting, m, keys, now);
    forall k
      ensures k in keys <==> Asked(agent, ip, k)
      ensures Different(keys)
    {
      KeysAreAsked(agent, ip, k);
    }
    assert Asked(agent, ip, Key(Global, "_"));
    EachAnswersForItself(cs, evicting, m, keys, now);
    if AllAllowed(results) {
      forall k | Asked(agent, ip, k)
        ensures HasToken(cs, m, k, now)
      {
        var i :| 0 <= i < |keys| && keys[i] == k;
        assert results[i].allowed;
      }
    } else {
      var i :| 0 <= i < |results| && !results[i].allowed;
      assert keys[i] in keys && Asked(agent, ip, keys[i]) && !HasToken(cs, m, keys[i], now);
    }
  }

  /** The first of agent, address and global that has no token gives its scope to the refusal. */
  function RefusingScope(
      cs: Configs, m: Store, agent: Option<string>, ip: Option<string>, now: real): Scope
  {
    if agent.Some? && agent.value != "" && !HasToken(cs, m, Key(Agent, agent.value), now) then Agent
    else if ip.Some? && ip.value != "" && !HasToken(cs, m, Key(Ip, ip.value), now) then Ip
    else Global
  }

  lemma RefusalNamesScope(cs: Configs, evicting: bool, m: Store, agent: Option<string>, ip: Option<string>, now: real)
    requires SaneConfigs(cs) && WellFormed(cs, m, now) && (evicting ==> EvictionSafe(cs))
    requires !CheckAll(cs, evicting, m, agent, ip, now).1.allowed
    ensures CheckAll(cs, evicting, m, agent, ip, now).1.scope == RefusingScope(cs, m, agent, ip, now)
  {
    var keys := KeysFor(agent, ip);
    var results := CheckEach(cs, evicting, m, keys, now).1;
    KeysAreAsked(agent, ip, Key(Global, "_"));
    EachAnswersForItself(cs, evicting, m, keys, now);
    var i := MostRestrictiveIsFirst(results);
    assert !HasToken(cs, m, keys[i], now) && forall j | 0 <= j < i :: HasToken(cs, m, keys[j], now);
    FirstRefusing(cs, m, agent, ip, now, i);
  }

  lemma FirstRefusing(cs: Configs, m: Store, agent: Option<string>, ip: Option<string>, now: real, i: nat)
    requires i < |KeysFor(agent, ip)| && !HasToken(cs, m, KeysFor(agent, ip)[i], now)
    requires forall j | 0 <= j < i :: HasToken(cs, m, KeysFor(agent, ip)[j], now)
    ensures KeysFor(agent, ip)[i].scope == RefusingScope(cs, m, agent, ip, now)
  {
    var keys := KeysFor(agent, ip);
    if Given(agent) {
      assert keys[0] == Key(Agent, agent.value);
    }
    if Given(ip) {
      assert keys[if Given(agent) then 1 else 0] == Key(Ip, ip.value);
    }
  }

  // ----- Runs of check_all -----

  datatype Ask = Ask(agent: Option<string>, ip: Option<string>, time: real)

  /** How many calls that asked for the key were allowed. */
  function Allowances(cs: Configs, evicting: bool, m: Store, asks: seq<Ask>, k: Key): nat
    decreases |asks|
  {
    if asks == [] then 0
    else
      var (m', r) := CheckAll(cs, evicting, m, asks[0].agent, asks[0].ip, asks[0].time);
      (if r.allowed && Asked(asks[0].agent, asks[0].ip, k) then 1 else 0) + Allowances(cs, evicting, m', asks[1..], k)
  }

  function Requests(asks: seq<Ask>): (ops: seq<Op>)
    ensures |ops| == |asks|
  {
    seq(|asks|, i requires 0 <= i < |asks| => Request(KeysFor(asks[i].agent, asks[i].ip), asks[i].time))
  }

  lemma {:induction false} AllowancesAreGrants(cs: Configs, evicting: bool, m: Store, asks: seq<Ask>, k: Key)
    ensures Allowances(cs, evicting, m, asks, k) == Granted(cs, evicting, m, Requests(asks), k)
    decreases |asks|
  {
    if asks != [] {
      var ops := Requests(asks);
      assert ops[1..] == Requests(asks[1..]);
      KeysAreAsked(asks[0].agent, asks[0].ip, k);
      AllowancesAreGrants(cs, evicting, Step(cs, evicting, m, ops[0]).0, asks[1..], k);
    }
  }

  /** Between `start` and `end` the allowed calls that name an agent, an address, or just the limiter, are at most
      the burst of that scope plus its rate times the time. */
  lemma CheckAllBounded(cs: Configs, evicting: bool, m: Store, start: real, asks: seq<Ask>, end: real, k: Key)
    requires SaneConfigs(cs) && WellFormed(cs, m, start) && (evicting ==> FillsBeforeStale(ConfigOf(cs, k)))
    requires forall i, j | 0 <= i < j < |asks| :: asks[i].time <= asks[j].time
    requires start <= end && forall i | 0 <= i < |asks| :: start <= asks[i].time <= end
    ensures Allowances(cs, evicting, m, asks, k) as real
         <= ConfigOf(cs, k).burst as real + (end - start) * ConfigOf(cs, k).rate
  {
    var ops := Requests(asks);
    AllowancesAreGrants(cs, evicting, m, asks, k);
    GrantedSpends(cs, evicting, m, ops, k);
    SpentIsRefilled(cs, evicting, m, start, ops, k, end);
    AvailableWithin(cs, m, k, start);
    NothingReset(asks, k);
    assert Worth(ConfigOf(cs, k), 0, end - start) == (end - start) * ConfigOf(cs, k).rate;
  }

  lemma {:induction false} NothingReset(asks: seq<Ask>, k: Key)
    ensures Resets(Requests(asks), k) == 0
    decreases |asks|
  {
    if asks != [] {
      assert Requests(asks)[1..] == Requests(asks[1..]);
      NothingReset(asks[1..], k);
    }
  }

  // ----- Keeping and dropping buckets -----

  /** A cleanup keeps exactly the buckets asked for within the last 300 seconds, as they are. */
  lemma CleanupKeeps(cs: Configs, m: Store, now: real, k: Key)
    ensures var m' := Step(cs, true, m, Cleanup(now)).0;
      && (k in m' <==> k in m && now - m[k].lastRefill <= 300.0)
      && (k in m' ==> m'[k] == m[k])
  {
  }

  /** A check drops another key's bucket exactly when it creates one, there are then more than 10000, and the other
      has not been asked for within the last 300 seconds. */
  lemma CheckDropsIff(cs: Configs, m: Store, k: Key, now: real, other: Key)
    requires other in m && other != k
    ensures var m' := Check(cs, true, m, k, now).0;
      && (other !in m' <==> k !in m && |m| >= 10000 && now - m[other].lastRefill > 300.0)
      && (other in m' ==> m'[other] == m[other])
  {
    if k !in m {
      var added := m[k := Full(ConfigOf(cs, k), now)];
      assert added.Keys == m.Keys + {k} && |added.Keys| == |m.Keys| + 1;
      assert |added| == |added.Keys| && |m| == |m.Keys|;
    }
  }
}
