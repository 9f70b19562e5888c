/** The egress proxy as a state machine, and what its pruned request history still guarantees. */
module EgressPolicy {
  import opened Prelude

  /** Wildcard matching and lower-casing come from the library. */
  datatype Env = Env(fnmatch: (string, string) -> bool, lower: string -> string, defaultMaxSize: int, defaultLimit: int)

  datatype Rule = Rule(host: string, port: int, protocol: string, maxSize: int, limit: int)

  datatype Decision = Allow | DenyDomain | DenyProtocol | DenyRateLimit | DenySizeLimit

  datatype Attempt = Attempt(agent: string, task: string, host: string, port: int, protocol: string, size: int)

  datatype Event = Event(timestamp: real, agent: string, task: string, host: string, port: int, protocol: string,
                         decision: Decision)

  const MINUTE := 60.0
  const MAX_EVENTS := 10000
  const KEPT_EVENTS := 5000
  const HTTPS := "https"

  type History = map<string, seq<real>>

  datatype State = State(allowed: map<string, Rule>, patterns: seq<string>, history: History, events: seq<Event>)

  const INITIAL := State(map[], [], map[], [])

  function Of(h: History, agent: string): seq<real> {
    if agent in h then h[agent] else []
  }

  /** The times strictly after `cutoff`. */
  function Recent(times: seq<real>, cutoff: real): seq<real> {
    if times == [] then []
    else
      var n := |times| - 1;
      Recent(times[..n], cutoff) + if times[n] > cutoff then [times[n]] else []
  }

  function NonZeroOr(n: Option<int>, default: int): int {
    if n.Some? && n.value != 0 then n.value else default
  }

  function MakeRule(
      env: Env, host: string, port: int, protocol: string, maxSize: Option<int>, limit: Option<int>): Rule
  {
    Rule(host, port, protocol, NonZeroOr(maxSize, env.defaultMaxSize), NonZeroOr(limit, env.defaultLimit))
  }

  predicate MatchesAny(env: Env, host: string, patterns: seq<string>) {
    exists i | 0 <= i < |patterns| :: env.fnmatch(host, patterns[i])
  }

  /** The rule that governs a host: its own, or the default one when a wildcard matches. */
  function RuleFor(env: Env, st: State, host: string): Option<Rule> {
    if host in st.allowed then Some(st.allowed[host])
    else if MatchesAny(env, host, st.patterns) then Some(Rule(host, 443, HTTPS, env.defaultMaxSize, env.defaultLimit))
    else None
  }

  function Pushed(events: seq<Event>, e: Event): seq<Event> {
    var more := events + [e];
    if |more| > MAX_EVENTS then more[|more| - KEPT_EVENTS..] else more
  }

  function EventOf(a: Attempt, now: real, d: Decision): Event {
    Event(now, a.agent, a.task, a.host, a.port, a.protocol, d)
  }

  /** The decision, given the requests already counted in the last minute, this one included. */
  function Decide(env: Env, rule: Rule, a: Attempt, recent: seq<real>): Decision {
    if env.lower(a.protocol) != rule.protocol then DenyProtocol
    else if |recent| >= rule.limit then DenyRateLimit
    else if a.size > rule.maxSize then DenySizeLimit
    else Allow
  }

  /** `pruning` is false for the reference proxy that keeps every request time forever. */
  function Evaluate(env: Env, pruning: bool, st: State, a: Attempt, now: real): (State, Decision) {
    match RuleFor(env, st, a.host)
    case None => (st.(events := Pushed(st.events, EventOf(a, now, DenyDomain))), DenyDomain)
    case Some(rule) =>
      var times := Of(st.history, a.agent) + [now];
      var d := Decide(env, rule, a, Recent(times, now - MINUTE));
      (Noted(st, a, Kept(pruning, d, times, now), now, d), d)
  }

  /** The rate check prunes; an attempt refused for its protocol does not get that far. */
  function Kept(pruning: bool, d: Decision, times: seq<real>, now: real): seq<real> {
    if pruning && !d.DenyProtocol? then Recent(times, now - MINUTE) else times
  }

  function Noted(st: State, a: Attempt, times: seq<real>, now: real, d: Decision): State {
    st.(history := st.history[a.agent := times], events := Pushed(st.events, EventOf(a, now, d)))
  }

  function LogConnection(st: State, a: Attempt, now: real): State {
    Noted(st, a.(protocol := HTTPS), Of(st.history, a.agent) + [now], now, Allow)
  }

  function Without(patterns: seq<string>, host: string): seq<string> {
    if patterns == [] then []
    else
      var n := |patterns| - 1;
      Without(patterns[..n], host) + if patterns[n] != host then [patterns[n]] else []
  }

  // ----- Runs -----

  datatype Op =
    | DoEvaluate(attempt: Attempt, time: real)
    | DoLogConnection(attempt: Attempt, time: real)
    | DoAddDomain(host: string, port: int, protocol: string, maxSize: Option<int>, limit: Option<int>, time: real)
    | DoAddWildcard(pattern: string, time: real)
    | DoRemove(host: string, time: real)

  function Step(env: Env, pruning: bool, st: State, op: Op): State {
    match op
    case DoEvaluate(a, now) => Evaluate(env, pruning, st, a, now).0
    case DoLogConnection(a, now) => LogConnection(st, a, now)
    case DoAddDomain(host, port, protocol, maxSize, limit, _) =>
      st.(allowed := st.allowed[host := MakeRule(env, host, port, protocol, maxSize, limit)])
    case DoAddWildcard(pattern, _) => st.(patterns := st.patterns + [pattern])
    case DoRemove(host, _) => st.(allowed := st.allowed - {host}, patterns := Without(st.patterns, host))
  }

  function Run(env: Env, pruning: bool, ops: seq<Op>): State {
    if ops == [] then INITIAL else Step(env, pruning, Run(env, pruning, ops[..|ops| - 1]), ops[|ops| - 1])
  }

  /** A request that was let through, with the limit of the rule that let it through. */
  datatype Grant = Grant(agent: string, time: real, limit: int)

  function GrantOf(env: Env, pruning: bool, st: State, op: Op): seq<Grant> {
    if op.DoEvaluate? && Evaluate(env, pruning, st, op.attempt, op.time).1.Allow? then
      [Grant(op.attempt.agent, op.time, RuleFor(env, st, op.attempt.host).value.limit)]
    else
      []
  }

  function Grants(env: Env, pruning: bool, ops: seq<Op>): seq<Grant> {
    if ops == [] then []
    else
      var before, last := ops[..|ops| - 1], ops[|ops| - 1];
      Grants(env, pruning, before) + GrantOf(env, pruning, Run(env, pruning, before), last)
  }

  predicate InOrder(ops: seq<Op>, now: real) {
    && (forall i, j | 0 <= i < j < |ops| :: ops[i].time <= ops[j].time)
    && (forall i | 0 <= i < |ops| :: ops[i].time <= now)
  }

  // ----- Pruning is not observable -----

  lemma {:induction false} RecentTwice(times: seq<real>, lo: real, c: real)
    requires lo <= c
    ensures Recent(Recent(times, lo), c) == Recent(times, c)
    decreases |times|
  {
    if times != [] {
      var n := |times| - 1;
      RecentTwice(times[..n], lo, c);
      if times[n] > lo {
        RecentAppend(Recent(times[..n], lo), times[n], c);
      } else {
        assert Recent(times[..n], lo) + [] == Recent(times[..n], lo);
      }
    }
  }

  lemma RecentAppend(times: seq<real>, x: real, c: real)
    ensures Recent(times + [x], c) == Recent(times, c) + if x > c then [x] else []
  {
    assert (times + [x])[..|times|] == times;
  }

  lemma {:induction false} RecentShrinks(times: seq<real>, lo: real, c: real)
    requires lo <= c
    ensures |Recent(times, c)| <= |Recent(times, lo)|
    decreases |times|
  {
    if times != [] {
      RecentShrinks(times[..|times| - 1], lo, c);
    }
  }

  /** Two lists of times agree on everything after `lo`. */
  ghost predicate Agree(a: seq<real>, b: seq<real>, lo: real) {
    forall c | c >= lo :: Recent(a, c) == Recent(b, c)
  }

  lemma AgreeAppend(a: seq<real>, b: seq<real>, lo: real, x: real)
    requires Agree(a, b, lo)
    ensures Agree(a + [x], b + [x], lo)
  {
    forall c | c >= lo
      ensures Recent(a + [x], c) == Recent(b + [x], c)
    {
      RecentAppend(a, x, c);
      RecentAppend(b, x, c);
    }
  }

  lemma AgreePruned(a: seq<real>, b: seq<real>, lo: real)
    requires Agree(a, b, lo)
    ensures Agree(Recent(a, lo), b, lo)
  {
    forall c | c >= lo
      ensures Recent(Recent(a, lo), c) == Recent(b, c)
    {
      RecentTwice(a, lo, c);
    }
  }

  /** The pruning proxy against the reference one: they agree on the last minute, and on all else entirely. */
  ghost predicate Mirrors(st: State, ref: State, now: real) {
    && st.allowed == ref.allowed && st.patterns == ref.patterns && st.events == ref.events
    && forall agent :: Agree(Of(st.history, agent), Of(ref.history, agent), now - MINUTE)
  }

  lemma MirrorsLater(st: State, ref: State, t: real, now: real)
    requires Mirrors(st, ref, t) && t <= now
    ensures Mirrors(st, ref, now)
  {
    forall agent
      ensures Agree(Of(st.history, agent), Of(ref.history, agent), now - MINUTE)
    {
      assert Agree(Of(st.history, agent), Of(ref.history, agent), t - MINUTE);
    }
  }

  /** What an evaluation or a logged connection does to the history keeps the agreement. */
  lemma HistoriesAgree(st: State, ref: State, now: real, agent: string)
    requires Mirrors(st, ref, now)
    ensures var a, b := Of(st.history, agent), Of(ref.history, agent);
      && Agree(a, b, now - MINUTE)
      && Agree(a + [now], b + [now], now - MINUTE)
      && Recent(a + [now], now - MINUTE) == Recent(b + [now], now - MINUTE)
      && Agree(Recent(a + [now], now - MINUTE), b + [now], now - MINUTE)
  {
    var a, b, lo := Of(st.history, agent), Of(ref.history, agent), now - MINUTE;
    assert Agree(a, b, lo);
    AgreeAppend(a, b, lo, now);
    AgreePruned(a + [now], b + [now], lo);
  }

  lemma NotedMirrors(st: State, ref: State, a: Attempt, times: seq<real>, all: seq<real>, now: real, d: Decision)
    requires Mirrors(st, ref, now) && Agree(times, all, now - MINUTE)
    ensures Mirrors(Noted(st, a, times, now, d), Noted(ref, a, all, now, d), now)
  {
    var h, h' := Noted(st, a, times, now, d).history, Noted(ref, a, all, now, d).history;
    forall agent
      ensures Agree(Of(h, agent), Of(h', agent), now - MINUTE)
    {
      assert Agree(Of(st.history, agent), Of(ref.history, agent), now - MINUTE);
    }
  }

  lemma EvaluateUnderRule(env: Env, pruning: bool, st: State, a: Attempt, now: real, rule: Rule, d: Decision)
    requires RuleFor(env, st, a.host) == Some(rule)
    requires d == Decide(env, rule, a, Recent(Of(st.history, a.agent) + [now], now - MINUTE))
    ensures Evaluate(env, pruning, st, a, now)
         == (Noted(st, a, Kept(pruning, d, Of(st.history, a.agent) + [now], now), now, d), d)
  {
  }

  lemma EvaluateMirrors(env: Env, st: State, ref: State, a: Attempt, now: real)
    requires Mirrors(st, ref, now)
    ensures Evaluate(env, true, st, a, now).1 == Evaluate(env, false, ref, a, now).1
    ensures Mirrors(Evaluate(env, true, st, a, now).0, Evaluate(env, false, ref, a, now).0, now)
  {
    var found := RuleFor(env, st, a.host);
    assert found == RuleFor(env, ref, a.host);
    if found == None {
      UnruledMirrors(env, st, ref, a, now);
    } else {
      var times, all := Of(st.history, a.agent) + [now], Of(ref.history, a.agent) + [now];
      var d := Decide(env, found.value, a, Recent(times, now - MINUTE));
      HistoriesAgree(st, ref, now, a.agent);
      EvaluateUnderRule(env, true, st, a, now, found.value, d);
      EvaluateUnderRule(env, false, ref, a, now, found.value, d);
      NotedMirrors(st, ref, a, Kept(true, d, times, now), Kept(false, d, all, now), now, d);
    }
  }

  lemma UnruledMirrors(env: Env, st: State, ref: State, a: Attempt, now: real)
    requires Mirrors(st, ref, now) && RuleFor(env, st, a.host) == None
    ensures Evaluate(env, true, st, a, now).1 == Evaluate(env, false, ref, a, now).1
    ensures Mirrors(Evaluate(env, true, st, a, now).0, Evaluate(env, false, ref, a, now).0, now)
  {
    var events := Pushed(st.events, EventOf(a, now, DenyDomain));
    assert Evaluate(env, true, st, a, now) == (st.(events := events), DenyDomain);
    assert Evaluate(env, false, ref, a, now) == (ref.(events := events), DenyDomain);
  }

  lemma StepMirrors(env: Env, st: State, ref: State, op: Op)
    requires Mirrors(st, ref, op.time)
    ensures Mirrors(Step(env, true, st, op), Step(env, false, ref, op), op.time)
    ensures GrantOf(env, true, st, op) == GrantOf(env, false, ref, op)
  {
    match op
    case DoEvaluate(a, now) =>
      EvaluateMirrors(env, st, ref, a, now);
    case DoLogConnection(a, now) =>
      LoggingMirrors(st, ref, a, now);
    case _ =>
  }

  lemma LoggingMirrors(st: State, ref: State, a: Attempt, now: real)
    requires Mirrors(st, ref, now)
    ensures Mirrors(LogConnection(st, a, now), LogConnection(ref, a, now), now)
  {
    var times, all := Of(st.history, a.agent) + [now], Of(ref.history, a.agent) + [now];
    HistoriesAgree(st, ref, now, a.agent);
    NotedMirrors(st, ref, a.(protocol := HTTPS), times, all, now, Allow);
  }

  /** Pruning never drops a request time that any rule could still need: on every run with a non-decreasing
      clock the proxy lets through and logs exactly what one with an unlimited memory would. */
  lemma {:induction false} PruningInvisible(env: Env, ops: seq<Op>, now: real)
    requires InOrder(ops, now)
    ensures Mirrors(Run(env, true, ops), Run(env, false, ops), now)
    ensures Grants(env, true, ops) == Grants(env, false, ops)
    decreases |ops|
  {
    if ops != [] {
      var n := |ops| - 1;
      PruningInvisible(env, ops[..n], ops[n].time);
      StepMirrors(env, Run(env, true, ops[..n]), Run(env, false, ops[..n]), ops[n]);
      MirrorsLater(Run(env, true, ops), Run(env, false, ops), ops[n].time, now);
    }
  }

  // ----- Per-minute safety -----

  /** Grants to an agent under rules of limit at most `limit`, after `lo` and up to `hi`. */
  function Count(grants: seq<Grant>, agent: string, limit: int, lo: real, hi: real): nat {
    if grants == [] then 0
    else
      var n := |grants| - 1;
      var g := grants[n];
      Count(grants[..n], agent, limit, lo, hi)
      + if g.agent == agent && g.limit <= limit && lo < g.time <= hi then 1 else 0
  }

  lemma CountAppend(grants: seq<Grant>, g: Grant, agent: string, limit: int, lo: real, hi: real)
    ensures Count(grants + [g], agent, limit, lo, hi)
         == Count(grants, agent, limit, lo, hi)
            + if g.agent == agent && g.limit <= limit && lo < g.time <= hi then 1 else 0
  {
    assert (grants + [g])[..|grants|] == grants;
  }

  /** Every grant was recorded as a request: no more grants than requests after any time. */
  ghost predicate Recorded(grants: seq<Grant>, h: History) {
    forall agent, limit, lo, hi :: Count(grants, agent, limit, lo, hi) <= |Recent(Of(h, agent), lo)|
  }

  /** In any minute, fewer grants under rules of limit at most `limit` than `limit`. */
  ghost predicate Limited(grants: seq<Grant>) {
    forall agent, limit, t :: FewerThan(CountEnding(grants, agent, limit, t), limit)
  }

  predicate FewerThan(n: nat, limit: int) {
    n == 0 || n < limit
  }

  /** The count over the half-open minute that ends at `t`. */
  function CountEnding(grants: seq<Grant>, agent: string, limit: int, t: real): nat {
    Count(grants, agent, limit, t - MINUTE, t)
  }

  /** A step of the reference proxy appends the time of a granted request to its agent's history, and at most
      appends a time to any other. */
  lemma HistoryGrows(env: Env, st: State, op: Op, agent: string)
    ensures var before, after := Of(st.history, agent), Of(Step(env, false, st, op).history, agent);
      after == before + [op.time]
      || (after == before && forall g | g in GrantOf(env, false, st, op) :: g.agent != agent)
    ensures forall g | g in GrantOf(env, false, st, op) :: g.time == op.time
    ensures |GrantOf(env, false, st, op)| <= 1
  {
    if op.DoEvaluate? {
      EvaluationRecords(env, st, op.attempt, op.time);
    }
  }

  /** Without pruning an evaluation either finds no rule, and records nothing, or records its time. */
  lemma EvaluationRecords(env: Env, st: State, a: Attempt, now: real)
    ensures var (st', d) := Evaluate(env, false, st, a, now);
      if RuleFor(env, st, a.host) == None then d == DenyDomain && st'.history == st.history
      else st'.history == st.history[a.agent := Of(st.history, a.agent) + [now]]
  {
    var found := RuleFor(env, st, a.host);
    if found.Some? {
      var d := Decide(env, found.value, a, Recent(Of(st.history, a.agent) + [now], now - MINUTE));
      EvaluateUnderRule(env, false, st, a, now, found.value, d);
    }
  }

  lemma RecordedStep(env: Env, st: State, op: Op, grants: seq<Grant>)
    requires Recorded(grants, st.history)
    ensures Recorded(grants + GrantOf(env, false, st, op), Step(env, false, st, op).history)
  {
    var h, h' := st.history, Step(env, false, st, op).history;
    var more := GrantOf(env, false, st, op);
    forall agent, limit, lo, hi
      ensures Count(grants + more, agent, limit, lo, hi) <= |Recent(Of(h', agent), lo)|
    {
      assert Count(grants, agent, limit, lo, hi) <= |Recent(Of(h, agent), lo)|;
      HistoryGrows(env, st, op, agent);
      CountKeepsUp(grants, more, agent, limit, lo, hi, Of(h, agent), Of(h', agent), op.time);
    }
  }

  lemma CountKeepsUp(grants: seq<Grant>, more: seq<Grant>, agent: string, limit: int, lo: real, hi: real,
                     before: seq<real>, after: seq<real>, now: real)
    requires Count(grants, agent, limit, lo, hi) <= |Recent(before, lo)|
    requires |more| <= 1 && forall g | g in more :: g.time == now
    requires after == before + [now] || (after == before && forall g | g in more :: g.agent != agent)
    ensures Count(grants + more, agent, limit, lo, hi) <= |Recent(after, lo)|
  {
    RecentAppend(before, now, lo);
    if more == [] {
      assert grants + more == grants;
    } else {
      assert more[0] in more && grants + more == grants + [more[0]];
      CountAppend(grants, more[0], agent, limit, lo, hi);
    }
  }

  lemma LimitedStep(env: Env, st: State, op: Op, grants: seq<Grant>)
    requires Recorded(grants, st.history) && Limited(grants)
    ensures Limited(grants + GrantOf(env, false, st, op))
  {
    var more := GrantOf(env, false, st, op);
    if more == [] {
      assert grants + more == grants;
    } else {
      var g := more[0];
      RecordedStep(env, st, op, grants);
      var times := Of(st.history, g.agent) + [g.time];
      assert Of(Step(env, false, st, op).history, g.agent) == times;
      assert |Recent(times, g.time - MINUTE)| < g.limit;
      assert grants + more == grants + [g];
      forall agent, limit, t
        ensures FewerThan(CountEnding(grants + more, agent, limit, t), limit)
      {
        assert FewerThan(CountEnding(grants, agent, limit, t), limit);
        CountAppend(grants, g, agent, limit, t - MINUTE, t);
        if g.agent == agent && g.limit <= limit && t - MINUTE < g.time <= t {
          RecentShrinks(times, g.time - MINUTE, t - MINUTE);
          assert Count(grants + more, agent, limit, t - MINUTE, t) <= |Recent(times, t - MINUTE)|;
        }
      }
    }
  }

  lemma {:induction false} ReferenceLimited(env: Env, ops: seq<Op>)
    ensures Recorded(Grants(env, false, ops), Run(env, false, ops).history)
    ensures Limited(Grants(env, false, ops))
    decreases |ops|
  {
    if ops != [] {
      var n := |ops| - 1;
      var st := Run(env, false, ops[..n]);
      ReferenceLimited(env, ops[..n]);
      RecordedStep(env, st, ops[n], Grants(env, false, ops[..n]));
      LimitedStep(env, st, ops[n], Grants(env, false, ops[..n]));
    }
  }

  /** In any half-open minute of any run, whatever rules come and go, an agent is let through fewer than
      `limit` times under rules of limit at most `limit`. */
  lemma PerMinuteSafety(env: Env, ops: seq<Op>, now: real, agent: string, limit: int, t: real)
    requires InOrder(ops, now)
    ensures FewerThan(CountEnding(Grants(env, true, ops), agent, limit, t), limit)
  {
    PruningInvisible(env, ops, now);
    ReferenceLimited(env, ops);
  }

  /** Some rule governs the host, the protocol is that rule's, the size fits, and the requests of the last minute,
      out of all those in `ever`, are fewer than the limit. */
  predicate Permitted(env: Env, st: State, a: Attempt, ever: seq<real>, now: real) {
    var rule := RuleFor(env, st, a.host);
    && rule.Some?
    && env.lower(a.protocol) == rule.value.protocol
    && a.size <= rule.value.maxSize
    && |Recent(ever, now - MINUTE)| < rule.value.limit
  }

  /** On every run, an attempt is let through exactly when it is permitted in view of all requests that its agent
      ever made, this one included. */
  lemma AllowedExactlyWhen(env: Env, ops: seq<Op>, a: Attempt, now: real)
    requires InOrder(ops, now)
    ensures var st, ever := Run(env, true, ops), Of(Run(env, false, ops).history, a.agent) + [now];
      Evaluate(env, true, st, a, now).1.Allow? <==> Permitted(env, st, a, ever, now)
  {
    var st, ref := Run(env, true, ops), Run(env, false, ops);
    PruningInvisible(env, ops, now);
    EvaluateMirrors(env, st, ref, a, now);
    AllowedByReference(env, ref, a, now);
    assert RuleFor(env, st, a.host) == RuleFor(env, ref, a.host);
  }

  lemma AllowedByReference(env: Env, ref: State, a: Attempt, now: real)
    ensures Evaluate(env, false, ref, a, now).1.Allow?
       <==> Permitted(env, ref, a, Of(ref.history, a.agent) + [now], now)
  {
    var found := RuleFor(env, ref, a.host);
    if found.Some? {
      var recent := Recent(Of(ref.history, a.agent) + [now], now - MINUTE);
      DecideAllows(env, found.value, a, recent);
      EvaluateUnderRule(env, false, ref, a, now, found.value, Decide(env, found.value, a, recent));
    } else {
      DeniedUnruled(env, ref, a, now);
    }
  }

  lemma DecideAllows(env: Env, rule: Rule, a: Attempt, recent: seq<real>)
    ensures Decide(env, rule, a, recent).Allow?
       <==> env.lower(a.protocol) == rule.protocol && a.size <= rule.maxSize && |recent| < rule.limit
  {
  }

  lemma DeniedUnruled(env: Env, st: State, a: Attempt, now: real)
    requires RuleFor(env, st, a.host) == None
    ensures Evaluate(env, false, st, a, now).1 == DenyDomain
  {
  }

  // ----- How far the limit is reached -----

  function InLastMinute(st: State, agent: string, now: real): nat {
    |Recent(Of(st.history, agent), now - MINUTE)|
  }

  /** A rule governs the host, and the protocol and the size fit it. */
  predicate Fits(env: Env, st: State, a: Attempt, rule: Rule) {
    RuleFor(env, st, a.host) == Some(rule) && env.lower(a.protocol) == rule.protocol && a.size <= rule.maxSize
  }

  /** An attempt, and with `logging`, as the proxy is meant to be used, the logging of the connection it allows. */
  function Attempted(env: Env, logging: bool, st: State, a: Attempt, now: real): State {
    var (st', d) := Evaluate(env, true, st, a, now);
    if logging && d.Allow? then LogConnection(st', a, now) else st'
  }

  function Iterated<S>(step: S -> S, x: S, n: nat): S {
    if n == 0 then x else step(Iterated(step, x, n - 1))
  }

  function Repeated(env: Env, logging: bool, st: State, a: Attempt, now: real, n: nat): State {
    Iterated(Attempting(env, logging, a, now), st, n)
  }

  function Attempting(env: Env, logging: bool, a: Attempt, now: real): State -> State {
    st => Attempted(env, logging, st, a, now)
  }

  predicate IsAllowed(env: Env, st: State, a: Attempt, now: real) {
    Evaluate(env, true, st, a, now).1.Allow?
  }

  /** An evaluation counts itself, and is allowed when that stays below the limit. */
  lemma EvaluationCounts(env: Env, st: State, a: Attempt, now: real, rule: Rule)
    requires Fits(env, st, a, rule)
    ensures IsAllowed(env, st, a, now) <==> InLastMinute(st, a.agent, now) + 1 < rule.limit
    ensures var st' := Evaluate(env, true, st, a, now).0;
      Fits(env, st', a, rule) && InLastMinute(st', a.agent, now) == InLastMinute(st, a.agent, now) + 1
  {
    var times, lo := Of(st.history, a.agent) + [now], now - MINUTE;
    var d := Decide(env, rule, a, Recent(times, lo));
    RecentAppend(Of(st.history, a.agent), now, lo);
    DecideAllows(env, rule, a, Recent(times, lo));
    EvaluateUnderRule(env, true, st, a, now, rule, d);
    RecentTwice(times, lo, lo);
    NotedCounts(env, st, a, Kept(true, d, times, now), now, d, rule);
  }

  lemma NotedCounts(env: Env, st: State, a: Attempt, times: seq<real>, now: real, d: Decision, rule: Rule)
    requires Fits(env, st, a, rule)
    ensures var st' := Noted(st, a, times, now, d);
      Fits(env, st', a, rule) && InLastMinute(st', a.agent, now) == |Recent(times, now - MINUTE)|
  {
  }

  lemma LoggingCounts(env: Env, st: State, a: Attempt, now: real, rule: Rule)
    requires Fits(env, st, a, rule)
    ensures var st' := LogConnection(st, a, now);
      Fits(env, st', a, rule) && InLastMinute(st', a.agent, now) == InLastMinute(st, a.agent, now) + 1
  {
    RecentAppend(Of(st.history, a.agent), now, now - MINUTE);
  }

  /** What so many attempts at one instant count, when nothing was counted before them. */
  function CountAfter(logging: bool, limit: int, n: nat): nat {
    if n == 0 then 0
    else Counted(logging, limit, CountAfter(logging, limit, n - 1))
  }

  /** The count after one attempt more. */
  function Counted(logging: bool, limit: int, count: nat): nat {
    count + 1 + if logging && count + 1 < limit then 1 else 0
  }

  lemma AttemptCounts(env: Env, logging: bool, st: State, a: Attempt, now: real, rule: Rule)
    requires Fits(env, st, a, rule)
    ensures var count, st' := InLastMinute(st, a.agent, now), Attempted(env, logging, st, a, now);
      && Fits(env, st', a, rule)
      && InLastMinute(st', a.agent, now) == Counted(logging, rule.limit, count)
  {
    EvaluationCounts(env, st, a, now, rule);
    if logging && IsAllowed(env, st, a, now) {
      LoggingCounts(env, Evaluate(env, true, st, a, now).0, a, now, rule);
    }
  }

  /** Any operation that counts like an attempt on the states that fit. */
  lemma {:induction false} IteratedCounts(
      step: State -> State, fits: State -> bool, count: State -> nat, logging: bool, limit: int, st: State, n: nat)
    requires forall x {:trigger step(x)} | fits(x) ::
      fits(step(x)) && count(step(x)) == Counted(logging, limit, count(x))
    requires fits(st) && count(st) == 0
    ensures fits(Iterated(step, st, n)) && count(Iterated(step, st, n)) == CountAfter(logging, limit, n)
  {
    if n > 0 {
      IteratedCounts(step, fits, count, logging, limit, st, n - 1);
    }
  }

  lemma RepeatedCounts(env: Env, logging: bool, st: State, a: Attempt, now: real, rule: Rule, n: nat)
    requires Fits(env, st, a, rule) && InLastMinute(st, a.agent, now) == 0
    ensures Fits(env, Repeated(env, logging, st, a, now, n), a, rule)
    ensures InLastMinute(Repeated(env, logging, st, a, now, n), a.agent, now) == CountAfter(logging, rule.limit, n)
  {
    var step := Attempting(env, logging, a, now);
    var fits, count := x => Fits(env, x, a, rule), x => InLastMinute(x, a.agent, now);
    forall x {:trigger step(x)} | fits(x)
      ensures fits(step(x)) && count(step(x)) == Counted(logging, rule.limit, count(x))
    {
      AttemptCounts(env, logging, x, a, now, rule);
    }
    IteratedCounts(step, fits, count, logging, rule.limit, st, n);
  }

  lemma {:induction false} CountAfterIs(logging: bool, limit: int, n: nat)
    ensures !logging ==> CountAfter(logging, limit, n) == n
    ensures logging && 2 * n <= limit ==> CountAfter(logging, limit, n) == 2 * n
    ensures logging && 2 * n > limit ==> CountAfter(logging, limit, n) + 1 >= limit
  {
    if n > 0 {
      CountAfterIs(logging, limit, n - 1);
    }
  }

  predicate WithinLimit(logging: bool, limit: int, i: nat) {
    if logging then 2 * i <= limit else i < limit
  }

  lemma AllowedAfter(env: Env, logging: bool, st: State, a: Attempt, now: real, rule: Rule, i: nat)
    requires Fits(env, st, a, rule) && i > 0
    requires InLastMinute(st, a.agent, now) == CountAfter(logging, rule.limit, i - 1)
    ensures IsAllowed(env, st, a, now) <==> WithinLimit(logging, rule.limit, i)
  {
    CountAfterIs(logging, rule.limit, i - 1);
    EvaluationCounts(env, st, a, now, rule);
  }

  /** Of attempts at one instant by an agent without requests in the last minute, the `i`-th is allowed exactly when
      `i` is below the limit, and, with logging, exactly when twice `i` is within it. */
  lemma NthAllowedIff(env: Env, logging: bool, st: State, a: Attempt, now: real, rule: Rule, i: nat)
    requires Fits(env, st, a, rule) && InLastMinute(st, a.agent, now) == 0 && i > 0
    ensures IsAllowed(env, Repeated(env, logging, st, a, now, i - 1), a, now)
       <==> if logging then 2 * i <= rule.limit else i < rule.limit
  {
    RepeatedCounts(env, logging, st, a, now, rule, i - 1);
    AllowedAfter(env, logging, Repeated(env, logging, st, a, now, i - 1), a, now, rule, i);
  }

  /** The attempt's own host, port and protocol are added with the given limit, and then asked for `n` times at once. */
  function AskedAtOnce(env: Env, limit: int, a: Attempt, now: real, n: nat): seq<Op> {
    [DoAddDomain(a.host, a.port, env.lower(a.protocol), None, Some(limit), now)] + seq(n, _ => DoEvaluate(a, now))
  }

  function OwnRule(env: Env, limit: int, a: Attempt): Rule {
    MakeRule(env, a.host, a.port, env.lower(a.protocol), None, Some(limit))
  }

  lemma AskedOnceMore(env: Env, limit: int, a: Attempt, now: real, n: nat)
    requires n > 0
    ensures AskedAtOnce(env, limit, a, now, n) == AskedAtOnce(env, limit, a, now, n - 1) + [DoEvaluate(a, now)]
  {
  }

  function Started(rule: Rule): State {
    INITIAL.(allowed := map[rule.host := rule])
  }

  lemma AskedStarts(env: Env, limit: int, a: Attempt, now: real)
    ensures Run(env, true, AskedAtOnce(env, limit, a, now, 0)) == Started(OwnRule(env, limit, a))
    ensures Grants(env, true, AskedAtOnce(env, limit, a, now, 0)) == []
  {
    var ops := AskedAtOnce(env, limit, a, now, 0);
    assert ops[..0] == [] && Run(env, true, []) == INITIAL;
    assert Step(env, true, INITIAL, ops[0]) == Started(OwnRule(env, limit, a));
    assert Grants(env, true, []) == [] && GrantOf(env, true, INITIAL, ops[0]) == [];
  }

  lemma {:induction false} AskedRuns(env: Env, limit: int, a: Attempt, now: real, n: nat)
    ensures Run(env, true, AskedAtOnce(env, limit, a, now, n))
         == Repeated(env, false, Started(OwnRule(env, limit, a)), a, now, n)
    decreases n
  {
    if n == 0 {
      AskedStarts(env, limit, a, now);
    } else {
      AskedRuns(env, limit, a, now, n - 1);
      AskedOnceMore(env, limit, a, now, n);
      OneStepMore(env, AskedAtOnce(env, limit, a, now, n - 1), DoEvaluate(a, now));
    }
  }

  lemma OneStepMore(env: Env, before: seq<Op>, op: Op)
    ensures Run(env, true, before + [op]) == Step(env, true, Run(env, true, before), op)
    ensures Grants(env, true, before + [op])
         == Grants(env, true, before) + GrantOf(env, true, Run(env, true, before), op)
  {
    assert (before + [op])[..|before|] == before;
  }

  lemma OneAttemptMore(env: Env, before: seq<Op>, st: State, a: Attempt, now: real, rule: Rule)
    requires Run(env, true, before) == st && RuleFor(env, st, a.host) == Some(rule)
    ensures Grants(env, true, before + [DoEvaluate(a, now)])
         == Grants(env, true, before)
            + if IsAllowed(env, st, a, now) then [Grant(a.agent, now, rule.limit)] else []
  {
    OneStepMore(env, before, DoEvaluate(a, now));
  }

  /** So the per-minute bound is reached: asked often enough at once, the proxy grants all but one of the limit. */
  lemma {:induction false} LimitLessOneGranted(env: Env, limit: int, a: Attempt, now: real, n: nat)
    requires limit > 0 && a.size <= env.defaultMaxSize
    ensures CountEnding(Grants(env, true, AskedAtOnce(env, limit, a, now, n)), a.agent, limit, now)
         == if n < limit then n else limit - 1
    decreases n
  {
    if n == 0 {
      AskedStarts(env, limit, a, now);
    } else {
      LimitLessOneGranted(env, limit, a, now, n - 1);
      AskedOnceMore(env, limit, a, now, n);
      NthGranted(env, limit, a, now, n, AskedAtOnce(env, limit, a, now, n - 1));
    }
  }

  lemma NthGranted(env: Env, limit: int, a: Attempt, now: real, n: nat, before: seq<Op>)
    requires limit > 0 && a.size <= env.defaultMaxSize && n > 0
    requires before == AskedAtOnce(env, limit, a, now, n - 1)
    ensures CountEnding(Grants(env, true, before + [DoEvaluate(a, now)]), a.agent, limit, now)
         == CountEnding(Grants(env, true, before), a.agent, limit, now) + if n < limit then 1 else 0
  {
    var rule := OwnRule(env, limit, a);
    var st := Repeated(env, false, Started(rule), a, now, n - 1);
    AskedRuns(env, limit, a, now, n - 1);
    RepeatedCounts(env, false, Started(rule), a, now, rule, n - 1);
    NthAllowedIff(env, false, Started(rule), a, now, rule, n);
    OneAttemptMore(env, before, st, a, now, rule);
    CountWithOne(Grants(env, true, before), Grant(a.agent, now, limit), n < limit, now);
  }

  lemma CountWithOne(grants: seq<Grant>, g: Grant, granted: bool, now: real)
    requires g.time == now
    ensures CountEnding(grants + if granted then [g] else [], g.agent, g.limit, now)
         == CountEnding(grants, g.agent, g.limit, now) + if granted then 1 else 0
  {
    if granted {
      CountAppend(grants, g, g.agent, g.limit, now - MINUTE, now);
    } else {
      assert grants + [] == grants;
    }
  }

  // ----- The event buffer -----

  function EventsOf(env: Env, st: State, op: Op): seq<Event> {
    match op
    case DoEvaluate(a, now) => [EventOf(a, now, Evaluate(env, true, st, a, now).1)]
    case DoLogConnection(a, now) => [EventOf(a.(protocol := HTTPS), now, Allow)]
    case _ => []
  }

  /** Every event of a run. */
  function AllEvents(env: Env, ops: seq<Op>): seq<Event> {
    if ops == [] then []
    else
      var before, last := ops[..|ops| - 1], ops[|ops| - 1];
      AllEvents(env, before) + EventsOf(env, Run(env, true, before), last)
  }

  predicate LatestOf(kept: seq<Event>, all: seq<Event>) {
    && |kept| <= MAX_EVENTS && |kept| <= |all| && kept == all[|all| - |kept|..]
    && (|kept| == |all| || |kept| >= KEPT_EVENTS)
  }

  lemma PushedLatest(kept: seq<Event>, all: seq<Event>, e: Event)
    requires LatestOf(kept, all)
    ensures LatestOf(Pushed(kept, e), all + [e])
  {
    var more := kept + [e];
    assert more == (all + [e])[|all| - |kept|..];
  }

  lemma StepPushes(env: Env, st: State, op: Op)
    ensures var more := EventsOf(env, st, op);
      && |more| <= 1
      && Step(env, true, st, op).events == if more == [] then st.events else Pushed(st.events, more[0])
  {
  }

  lemma ExtendedLatest(kept: seq<Event>, all: seq<Event>, more: seq<Event>)
    requires LatestOf(kept, all) && |more| <= 1
    ensures LatestOf(if more == [] then kept else Pushed(kept, more[0]), all + more)
  {
    if more == [] {
      assert all + more == all;
    } else {
      PushedLatest(kept, all, more[0]);
      assert all + more == all + [more[0]];
    }
  }

  /** The buffer is bounded and always holds the latest events: all of them, or at least the last 5000. */
  lemma {:induction false} BufferHoldsLatest(env: Env, ops: seq<Op>)
    ensures LatestOf(Run(env, true, ops).events, AllEvents(env, ops))
    decreases |ops|
  {
    if ops != [] {
      var n := |ops| - 1;
      var st := Run(env, true, ops[..n]);
      BufferHoldsLatest(env, ops[..n]);
      StepPushes(env, st, ops[n]);
      ExtendedLatest(st.events, AllEvents(env, ops[..n]), EventsOf(env, st, ops[n]));
    }
  }

  /** How many events the buffer holds after `n` of them: one more each, but 5000 after a full 10000. */
  function BufferLength(n: nat): nat {
    if n == 0 then 0
    else
      var before := BufferLength(n - 1);
      if before == 10000 then 5000 else before + 1
  }

  lemma {:induction false} BufferHasLength(env: Env, ops: seq<Op>)
    ensures |Run(env, true, ops).events| == BufferLength(|AllEvents(env, ops)|)
    decreases |ops|
  {
    if ops != [] {
      var n := |ops| - 1;
      var st := Run(env, true, ops[..n]);
      BufferHasLength(env, ops[..n]);
      BufferHoldsLatest(env, ops[..n]);
      StepPushes(env, st, ops[n]);
      ExtendedLength(st.events, AllEvents(env, ops[..n]), EventsOf(env, st, ops[n]));
    }
  }

  lemma ExtendedLength(kept: seq<Event>, all: seq<Event>, more: seq<Event>)
    requires |more| <= 1 && |kept| == BufferLength(|all|) <= 10000
    ensures |if more == [] then kept else Pushed(kept, more[0])| == BufferLength(|all + more|)
  {
  }
}
