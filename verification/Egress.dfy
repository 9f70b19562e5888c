/** The egress proxy object. */
module Egress {
  import opened Prelude
  import opened EgressPolicy

  class EgressProxy {
    const env: Env
    var allowedDomains: map<string, Rule>
    var domainPatterns: seq<string>
    var requestHistory: map<string, seq<real>>
    var events: seq<Event>

    function Abstract(): State
      reads this
    {
      State(allowedDomains, domainPatterns, requestHistory, events)
    }

    constructor (env: Env)
      ensures this.env == env && Abstract() == INITIAL
    {
      this.env := env;
      allowedDomains := map[];
      domainPatterns := [];
      requestHistory := map[];
      events := [];
    }

    method AddDomain(
        host: string, port: int, protocol: string, maxSize: Option<int>, limit: Option<int>, ghost now: real)
      modifies `allowedDomains
      ensures Abstract() ==
        Step(env, true, old(Abstract()), DoAddDomain(host, port, protocol, maxSize, limit, now))
    {
      var size := if maxSize.Some? && maxSize.value != 0 then maxSize.value else env.defaultMaxSize;
      var rate := if limit.Some? && limit.value != 0 then limit.value else env.defaultLimit;
      allowedDomains := allowedDomains[host := Rule(host, port, protocol, size, rate)];
    }

    method AddWildcard(pattern: string, ghost now: real)
      modifies `domainPatterns
      ensures Abstract() == Step(env, true, old(Abstract()), DoAddWildcard(pattern, now))
    {
      domainPatterns := domainPatterns + [pattern];
    }

    method RemoveDomain(host: string, ghost now: real)
      modifies `allowedDomains, `domainPatterns
      ensures Abstract() == Step(env, true, old(Abstract()), DoRemove(host, now))
    {
      allowedDomains := allowedDomains - {host};
      var kept := [];
      for i := 0 to |domainPatterns|
        invariant kept == Without(domainPatterns[..i], host)
      {
        assert domainPatterns[..i + 1][..i] == domainPatterns[..i];
        if domainPatterns[i] != host {
          kept := kept + [domainPatterns[i]];
        }
      }
      assert domainPatterns[..|domainPatterns|] == domainPatterns;
      domainPatterns := kept;
    }

    /** Decides one attempt and records it. */
    method EvaluateAttempt(a: Attempt, now: real) returns (d: Decision)
      modifies `requestHistory, `events
      ensures (Abstract(), d) == Evaluate(env, true, old(Abstract()), a, now)
    {
      var rule: Rule;
      if a.host in allowedDomains {
        rule := allowedDomains[a.host];
      } else {
        var matched := MatchesPattern(a.host);
        if !matched {
          RecordEvent(EventOf(a, now, DenyDomain));
          return DenyDomain;
        }
        rule := Rule(a.host, 443, HTTPS, env.defaultMaxSize, env.defaultLimit);
      }
      d := Screen(a, rule, now);
    }

    /** The checks on an attempt whose host is allowed: protocol, then rate, then size. */
    method Screen(a: Attempt, rule: Rule, now: real) returns (d: Decision)
      requires RuleFor(env, Abstract(), a.host) == Some(rule)
      modifies `requestHistory, `events
      ensures (Abstract(), d) == Evaluate(env, true, old(Abstract()), a, now)
    {
      d := Judge(a, rule, now);
      EvaluateUnderRule(env, true, old(Abstract()), a, now, rule, d);
      RecordEvent(EventOf(a, now, d));
    }

    method Judge(a: Attempt, rule: Rule, now: real) returns (d: Decision)
      modifies `requestHistory
      ensures var times := Of(old(requestHistory), a.agent) + [now];
        && d == Decide(env, rule, a, Recent(times, now - MINUTE))
        && requestHistory == old(requestHistory)[a.agent := Kept(true, d, times, now)]
    {
      RecordRequest(a.agent, now);
      if env.lower(a.protocol) != rule.protocol {
        return DenyProtocol;
      }
      var within := CheckRateLimit(a.agent, rule, now);
      if !within {
        return DenyRateLimit;
      }
      if a.size > rule.maxSize {
        return DenySizeLimit;
      }
      return Allow;
    }

    method MatchesPattern(host: string) returns (matched: bool)
      ensures matched == MatchesAny(env, host, domainPatterns)
    {
      for i := 0 to |domainPatterns|
        invariant !MatchesAny(env, host, domainPatterns[..i])
      {
        if env.fnmatch(host, domainPatterns[i]) {
          return true;
        }
      }
      assert domainPatterns[..|domainPatterns|] == domainPatterns;
      return false;
    }

    method RecordRequest(agent: string, now: real)
      modifies `requestHistory
      ensures requestHistory == old(requestHistory)[agent := Of(old(requestHistory), agent) + [now]]
    {
      if agent !in requestHistory {
        requestHistory := requestHistory[agent := []];
      }
      requestHistory := requestHistory[agent := requestHistory[agent] + [now]];
    }

    /** Prunes the agent's history to the last minute and compares what is left with the limit. */
    method CheckRateLimit(agent: string, rule: Rule, now: real) returns (within: bool)
      modifies `requestHistory
      ensures var recent := Recent(Of(old(requestHistory), agent), now - MINUTE);
        requestHistory == old(requestHistory)[agent := recent] && within == (|recent| < rule.limit)
    {
      var minuteAgo := now - MINUTE;
      if agent !in requestHistory {
        requestHistory := requestHistory[agent := []];
      }
      var times := requestHistory[agent];
      var recent := [];
      for i := 0 to |times|
        invariant recent == Recent(times[..i], minuteAgo)
      {
        assert times[..i + 1][..i] == times[..i];
        if times[i] > minuteAgo {
          recent := recent + [times[i]];
        }
      }
      assert times[..|times|] == times;
      requestHistory := requestHistory[agent := recent];
      within := |recent| < rule.limit;
    }

    method RecordEvent(e: Event)
      modifies `events
      ensures events == Pushed(old(events), e)
    {
      events := events + [e];
      if |events| > MAX_EVENTS {
        events := events[|events| - KEPT_EVENTS..];
      }
    }

    method LogCompleted(a: Attempt, now: real)
      modifies `requestHistory, `events
      ensures Abstract() == LogConnection(old(Abstract()), a, now)
    {
      RecordRequest(a.agent, now);
      RecordEvent(EventOf(a.(protocol := HTTPS), now, Allow));
    }
  }
}
