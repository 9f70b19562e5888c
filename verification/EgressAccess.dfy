/** Who gets out: what a run of calls to the proxy decides, in terms of the calls themselves. */
module EgressAccess {
  import opened Prelude
  import opened EgressPolicy

  // ----- Which rule governs a host -----

  predicate Unlists(op: Op, name: string) {
    op.DoRemove? && op.host == name
  }

  predicate Lists(op: Op, host: string) {
    op.DoAddDomain? && op.host == host
  }

  /** The `i`-th call added the host, and no later call added it again or removed it. */
  predicate Listed(ops: seq<Op>, host: string, i: int) {
    && 0 <= i < |ops| && Lists(ops[i], host)
    && forall j | i < j < |ops| :: !Lists(ops[j], host) && !Unlists(ops[j], host)
  }

  /** The `i`-th call added the wildcard, and no later call removed it. */
  predicate Wild(ops: seq<Op>, pattern: string, i: int) {
    && 0 <= i < |ops| && ops[i].DoAddWildcard? && ops[i].pattern == pattern
    && forall j | i < j < |ops| :: !Unlists(ops[j], pattern)
  }

  ghost predicate HasListing(ops: seq<Op>, host: string) {
    exists i :: Listed(ops, host, i)
  }

  ghost predicate HasWildcard(ops: seq<Op>, pattern: string) {
    exists i :: Wild(ops, pattern, i)
  }

  /** The host itself is listed, or a wildcard that matches it is. */
  ghost predicate Governed(env: Env, ops: seq<Op>, host: string) {
    HasListing(ops, host) || exists pattern :: HasWildcard(ops, pattern) && env.fnmatch(host, pattern)
  }

  lemma ListedStep(ops: seq<Op>, op: Op, host: string, i: int)
    ensures Listed(ops + [op], host, i)
       <==> (i == |ops| && Lists(op, host)) || (Listed(ops, host, i) && !Lists(op, host) && !Unlists(op, host))
  {
    var more := ops + [op];
    assert more[|ops|] == op && forall j | 0 <= j < |ops| :: more[j] == ops[j];
  }

  lemma WildStep(ops: seq<Op>, op: Op, pattern: string, i: int)
    ensures Wild(ops + [op], pattern, i)
       <==> || (i == |ops| && op.DoAddWildcard? && op.pattern == pattern)
            || (Wild(ops, pattern, i) && !Unlists(op, pattern))
  {
    var more := ops + [op];
    assert more[|ops|] == op && forall j | 0 <= j < |ops| :: more[j] == ops[j];
  }

  lemma HasListingStep(ops: seq<Op>, op: Op, host: string)
    ensures HasListing(ops + [op], host) <==> Lists(op, host) || (HasListing(ops, host) && !Unlists(op, host))
  {
    if i :| Listed(ops + [op], host, i) {
      ListedStep(ops, op, host, i);
    }
    ListedStep(ops, op, host, |ops|);
    if i :| Listed(ops, host, i) {
      ListedStep(ops, op, host, i);
    }
  }

  lemma HasWildcardStep(ops: seq<Op>, op: Op, pattern: string)
    ensures HasWildcard(ops + [op], pattern)
       <==> (op.DoAddWildcard? && op.pattern == pattern) || (HasWildcard(ops, pattern) && !Unlists(op, pattern))
  {
    if i :| Wild(ops + [op], pattern, i) {
      WildStep(ops, op, pattern, i);
    }
    WildStep(ops, op, pattern, |ops|);
    if i :| Wild(ops, pattern, i) {
      WildStep(ops, op, pattern, i);
    }
  }

  /** The rule made by a call that adds a host: missing or zero limits are the defaults. */
  predicate RuleOfCall(env: Env, op: Op, rule: Rule)
    requires op.DoAddDomain?
  {
    && rule.host == op.host && rule.port == op.port && rule.protocol == op.protocol
    && (op.maxSize == None || op.maxSize == Some(0) ==> rule.maxSize == env.defaultMaxSize)
    && (op.maxSize != None && op.maxSize != Some(0) ==> Some(rule.maxSize) == op.maxSize)
    && (op.limit == None || op.limit == Some(0) ==> rule.limit == env.defaultLimit)
    && (op.limit != None && op.limit != Some(0) ==> Some(rule.limit) == op.limit)
  }

  lemma {:induction false} AllowedRemembers(env: Env, pruning: bool, ops: seq<Op>, host: string)
    ensures var allowed := Run(env, pruning, ops).allowed;
      && (host in allowed <==> HasListing(ops, host))
      && (forall i | Listed(ops, host, i) :: host in allowed && RuleOfCall(env, ops[i], allowed[host]))
    decreases |ops|
  {
    if ops != [] {
      var before, op := ops[..|ops| - 1], ops[|ops| - 1];
      assert ops == before + [op];
      AllowedRemembers(env, pruning, before, host);
      HasListingStep(before, op, host);
      AllowedStep(env, pruning, Run(env, pruning, before), op, host);
      forall i | Listed(ops, host, i)
        ensures RuleOfCall(env, ops[i], Run(env, pruning, ops).allowed[host])
      {
        ListedStep(before, op, host, i);
      }
    }
  }

  lemma AllowedStep(env: Env, pruning: bool, st: State, op: Op, host: string)
    ensures var allowed := Step(env, pruning, st, op).allowed;
      && (host in allowed <==> Lists(op, host) || (host in st.allowed && !Unlists(op, host)))
      && (Lists(op, host) ==> RuleOfCall(env, op, allowed[host]))
      && (host in allowed && !Lists(op, host) ==> allowed[host] == st.allowed[host])
  {
  }

  lemma {:induction false} PatternsRemember(env: Env, pruning: bool, ops: seq<Op>, pattern: string)
    ensures pattern in Run(env, pruning, ops).patterns <==> HasWildcard(ops, pattern)
    decreases |ops|
  {
    if ops != [] {
      var before, op := ops[..|ops| - 1], ops[|ops| - 1];
      assert ops == before + [op];
      PatternsRemember(env, pruning, before, pattern);
      HasWildcardStep(before, op, pattern);
      PatternsStep(env, pruning, Run(env, pruning, before), op, pattern);
    }
  }

  lemma PatternsStep(env: Env, pruning: bool, st: State, op: Op, pattern: string)
    ensures pattern in Step(env, pruning, st, op).patterns
       <==> (op.DoAddWildcard? && op.pattern == pattern) || (pattern in st.patterns && !Unlists(op, pattern))
  {
    if op.DoRemove? {
      WithoutHolds(st.patterns, op.host, pattern);
    }
  }

  lemma {:induction false} WithoutHolds(patterns: seq<string>, host: string, pattern: string)
    ensures pattern in Without(patterns, host) <==> pattern in patterns && pattern != host
    decreases |patterns|
  {
    if patterns != [] {
      var n := |patterns| - 1;
      assert patterns == patterns[..n] + [patterns[n]];
      WithoutHolds(patterns[..n], host, pattern);
    }
  }

  /** The rule that governs a host after any calls: the one its last listing made, or with no listing and a matching
      wildcard the default one for https; without either there is none. */
  lemma RuleIsOfLastCall(env: Env, pruning: bool, ops: seq<Op>, host: string)
    ensures var rule := RuleFor(env, Run(env, pruning, ops), host);
      && (rule.Some? <==> Governed(env, ops, host))
      && (forall i | Listed(ops, host, i) :: rule.Some? && RuleOfCall(env, ops[i], rule.value))
      && (rule.Some? && !HasListing(ops, host) ==>
            rule.value == Rule(host, 443, "https", env.defaultMaxSize, env.defaultLimit))
  {
    var st := Run(env, pruning, ops);
    AllowedRemembers(env, pruning, ops, host);
    forall pattern
      ensures pattern in st.patterns <==> HasWildcard(ops, pattern)
    {
      PatternsRemember(env, pruning, ops, pattern);
    }
    if MatchesAny(env, host, st.patterns) {
      var i :| 0 <= i < |st.patterns| && env.fnmatch(host, st.patterns[i]);
      assert HasWildcard(ops, st.patterns[i]);
    }
    if pattern :| HasWildcard(ops, pattern) && env.fnmatch(host, pattern) {
      var i :| 0 <= i < |st.patterns| && st.patterns[i] == pattern;
    }
  }

  // ----- How many requests count -----

  /** The calls after `since` that counted as a request of the agent: attempts to reach a host governed at the time,
      and logged connections. */
  ghost function RequestsSince(env: Env, ops: seq<Op>, agent: string, since: real): nat {
    if ops == [] then 0
    else
      var before, op := ops[..|ops| - 1], ops[|ops| - 1];
      RequestsSince(env, before, agent, since)
      + if op.time > since && IsRequest(env, before, op, agent) then 1 else 0
  }

  ghost predicate IsRequest(env: Env, before: seq<Op>, op: Op, agent: string) {
    || (op.DoEvaluate? && op.attempt.agent == agent && Governed(env, before, op.attempt.host))
    || (op.DoLogConnection? && op.attempt.agent == agent)
  }

  lemma {:induction false} HistoryCounts(env: Env, ops: seq<Op>, agent: string, since: real)
    ensures |Recent(Of(Run(env, false, ops).history, agent), since)| == RequestsSince(env, ops, agent, since)
    decreases |ops|
  {
    if ops != [] {
      var before, op := ops[..|ops| - 1], ops[|ops| - 1];
      var st := Run(env, false, before);
      HistoryCounts(env, before, agent, since);
      HistoryStep(env, before, st, op, agent);
      RecentAppend(Of(st.history, agent), op.time, since);
    }
  }

  lemma HistoryStep(env: Env, before: seq<Op>, st: State, op: Op, agent: string)
    requires st == Run(env, false, before)
    ensures Of(Step(env, false, st, op).history, agent)
         == if IsRequest(env, before, op, agent) then Of(st.history, agent) + [op.time] else Of(st.history, agent)
  {
    if op.DoEvaluate? {
      RuleIsOfLastCall(env, false, before, op.attempt.host);
      EvaluationRecords(env, st, op.attempt, op.time);
    }
  }

  // ----- The decision -----

  /** What the decision is when the limits are these and so many requests count, this one included. */
  predicate DecidedBy(env: Env, d: Decision, a: Attempt, protocol: string, maxSize: int, limit: int, count: nat) {
    && (d == DenyProtocol <==> env.lower(a.protocol) != protocol)
    && (d == DenyRateLimit <==> env.lower(a.protocol) == protocol && count >= limit)
    && (d == DenySizeLimit <==> env.lower(a.protocol) == protocol && count < limit && a.size > maxSize)
    && (d == Allow <==> env.lower(a.protocol) == protocol && count < limit && a.size <= maxSize)
  }

  function LimitOr(given: Option<int>, default: int): int {
    if given == None || given == Some(0) then default else given.value
  }

  /** Default deny: after any calls, and for any clock, exactly the hosts that nothing governs are refused for their
      domain, and no grant is made to them. */
  lemma DefaultDeny(env: Env, ops: seq<Op>, a: Attempt, now: real)
    ensures Evaluate(env, true, Run(env, true, ops), a, now).1 == DenyDomain <==> !Governed(env, ops, a.host)
    ensures !Governed(env, ops, a.host) ==>
      Grants(env, true, ops + [DoEvaluate(a, now)]) == Grants(env, true, ops)
  {
    RuleIsOfLastCall(env, true, ops, a.host);
    OneStepMore(env, ops, DoEvaluate(a, now));
    DeniedIffUnruled(env, Run(env, true, ops), a, now);
    assert Grants(env, true, ops) + [] == Grants(env, true, ops);
  }

  lemma DeniedIffUnruled(env: Env, st: State, a: Attempt, now: real)
    ensures Evaluate(env, true, st, a, now).1 == DenyDomain <==> RuleFor(env, st, a.host) == None
    ensures RuleFor(env, st, a.host) == None ==> GrantOf(env, true, st, DoEvaluate(a, now)) == []
  {
    var found := RuleFor(env, st, a.host);
    if found.Some? {
      var recent := Recent(Of(st.history, a.agent) + [now], now - MINUTE);
      EvaluateUnderRule(env, true, st, a, now, found.value, Decide(env, found.value, a, recent));
    }
  }

  /** After any calls in order of time, an attempt on a listed host is decided by the arguments of its last listing,
      and one on a host that only wildcards match by the defaults; first the protocol, then the rate over all counted
      requests of the last minute, then the size. */
  lemma DecidedByCalls(env: Env, ops: seq<Op>, a: Attempt, now: real)
    requires InOrder(ops, now) && Governed(env, ops, a.host)
    ensures var d := Evaluate(env, true, Run(env, true, ops), a, now).1;
      var count := RequestsSince(env, ops, a.agent, now - 60.0) + 1;
      && (forall i | Listed(ops, a.host, i) ::
            DecidedBy(env, d, a, ops[i].protocol, LimitOr(ops[i].maxSize, env.defaultMaxSize),
                      LimitOr(ops[i].limit, env.defaultLimit), count))
      && (!HasListing(ops, a.host) ==>
            DecidedBy(env, d, a, "https", env.defaultMaxSize, env.defaultLimit, count))
  {
    var rule := RuleOfReference(env, ops, a, now);
    RuleIsOfLastCall(env, false, ops, a.host);
  }

  lemma RuleOfReference(env: Env, ops: seq<Op>, a: Attempt, now: real) returns (rule: Rule)
    requires InOrder(ops, now) && Governed(env, ops, a.host)
    ensures RuleFor(env, Run(env, false, ops), a.host) == Some(rule)
    ensures DecidedBy(env, Evaluate(env, true, Run(env, true, ops), a, now).1, a, rule.protocol, rule.maxSize,
                      rule.limit, RequestsSince(env, ops, a.agent, now - 60.0) + 1)
  {
    var ref := Run(env, false, ops);
    PruningInvisible(env, ops, now);
    EvaluateMirrors(env, Run(env, true, ops), ref, a, now);
    RuleIsOfLastCall(env, false, ops, a.host);
    rule := RuleFor(env, ref, a.host).value;
    HistoryCounts(env, ops, a.agent, now - 60.0);
    RecentAppend(Of(ref.history, a.agent), now, now - 60.0);
    DecidedByRule(env, ref, a, now, rule, RequestsSince(env, ops, a.agent, now - 60.0) + 1);
  }

  lemma DecidedByRule(env: Env, ref: State, a: Attempt, now: real, rule: Rule, count: nat)
    requires RuleFor(env, ref, a.host) == Some(rule)
    requires |Recent(Of(ref.history, a.agent) + [now], now - 60.0)| == count
    ensures DecidedBy(env, Evaluate(env, false, ref, a, now).1, a, rule.protocol, rule.maxSize, rule.limit, count)
  {
    var recent := Recent(Of(ref.history, a.agent) + [now], now - MINUTE);
    DecideMeans(env, rule, a, recent);
    EvaluateUnderRule(env, false, ref, a, now, rule, Decide(env, rule, a, recent));
  }

  lemma DecideMeans(env: Env, rule: Rule, a: Attempt, recent: seq<real>)
    ensures DecidedBy(env, Decide(env, rule, a, recent), a, rule.protocol, rule.maxSize, rule.limit, |recent|)
  {
  }

  // ----- The log -----

  /** Every attempt is logged as it was made, with the decision that was given, and every completed connection as an
      allowed one over https; no other call logs anything. */
  lemma LoggedAsDecided(env: Env, ops: seq<Op>, op: Op)
    ensures var st, events := Run(env, true, ops), Run(env, true, ops + [op]).events;
      if op.DoEvaluate? || op.DoLogConnection? then
        events != []
        && var e, a := events[|events| - 1], op.attempt;
        && e.timestamp == op.time && e.agent == a.agent && e.task == a.task && e.host == a.host && e.port == a.port
        && (op.DoEvaluate? ==> e.protocol == a.protocol && e.decision == Evaluate(env, true, st, a, op.time).1)
        && (op.DoLogConnection? ==> e.protocol == "https" && e.decision == Allow)
      else events == st.events
  {
    var st := Run(env, true, ops);
    OneStepMore(env, ops, op);
    StepPushes(env, st, op);
  }
}
