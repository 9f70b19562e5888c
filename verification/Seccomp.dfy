/** The profile generator object. */
module Seccomp {
  import opened Prelude
  import opened SeccompRules

  class SeccompProfile {
    const cfg: Settings
    const base: Option<Profile>
    var allowed: set<string>
    var blocked: map<string, Block>
    var order: seq<string>

    ghost predicate Valid()
      reads this
    {
      Ordered(Abstract())
    }

    function Abstract(): State
      reads this
    {
      State(allowed, blocked, order)
    }

    /** With a base profile the generator hardens it; without one it denies by default. */
    constructor (cfg: Settings, base: Option<Profile>)
      ensures Valid() && Abstract() == EMPTY && this.cfg == cfg && this.base == base
    {
      this.cfg := cfg;
      this.base := base;
      allowed := {};
      blocked := map[];
      order := [];
    }

    /** Adds the names that are not blocklisted, whatever the order they come in. */
    method AddSyscalls(names: set<string>)
      requires Valid()
      modifies `allowed
      ensures Valid() && Abstract() == Step(old(Abstract()), Add(names))
    {
      ghost var before := allowed;
      var rest := names;
      while rest != {}
        invariant rest <= names
        invariant allowed == before + (names - rest - BLOCKLIST)
        decreases rest
      {
        var syscall :| syscall in rest;
        rest := rest - {syscall};
        if syscall in BLOCKLIST {
          continue;
        }
        allowed := allowed + {syscall};
      }
    }

    method BlockSyscall(name: string, errno: int, action: string)
      requires Valid()
      modifies `blocked, `order
      ensures Valid() && Abstract() == Step(old(Abstract()), DoBlock(name, errno, action))
    {
      if name !in blocked {
        order := order + [name];
      }
      blocked := blocked[name := BlockFor(action, errno)];
    }

    method AllowNetwork()
      requires Valid()
      modifies `allowed
      ensures Valid() && Abstract() == Step(old(Abstract()), Add(NETWORK))
    {
      AddSyscalls(NETWORK);
    }

    method ToDict() returns (p: Profile)
      requires Valid()
      ensures base.Some? ==> p == Hardened(base.value, Abstract())
      ensures base.None? ==> Denies(cfg, Abstract(), p)
    {
      if base.Some? {
        p := ToDictHarden();
      } else {
        p := ToDictDefaultDeny();
      }
    }

    /** The kill rule goes first and every errno rule is inserted right after it. */
    method ToDictHarden() returns (p: Profile)
      requires Valid() && base.Some?
      ensures p == Hardened(base.value, Abstract())
    {
      var kills := CollectKills(HARDEN_KILL);
      var errnoRules := CollectErrnoRules();
      var rules := InsertAll(Rule(kills, KILL, None, Always), base.value.rules, errnoRules);
      p := base.value.(rules := rules);
    }

    method CollectKills(always: set<string>) returns (kills: set<string>)
      requires Valid()
      ensures kills == always + ExplicitKills(blocked)
    {
      kills := always;
      for i := 0 to |order|
        invariant kills == always + set s | s in order[..i] && s in blocked && blocked[s].action == KILL
      {
        assert order[..i + 1] == order[..i] + [order[i]];
        if blocked[order[i]].action == KILL {
          kills := kills + {order[i]};
        }
      }
      assert order[..|order|] == order;
    }

    method CollectErrnoRules() returns (errnoRules: seq<Rule>)
      requires Valid()
      ensures errnoRules == ErrnoRules(order, blocked)
    {
      errnoRules := [];
      for i := 0 to |order|
        invariant errnoRules == ErrnoRules(order[..i], blocked)
      {
        var syscall := order[i];
        assert order[..i + 1][..i] == order[..i];
        if blocked[syscall].action == ERRNO {
          errnoRules := errnoRules + [ErrnoRule(syscall, blocked[syscall])];
        }
      }
      assert order[..|order|] == order;
    }

    method ToDictDefaultDeny() returns (p: Profile)
      requires Valid()
      ensures Denies(cfg, Abstract(), p)
    {
      var rules := CompileDeny(BLOCKLIST);
      p := Profile(if cfg.audit then LOG else cfg.defaultAction, Some(1), rules);
      forall judge: Judge, call
        ensures Meaning(judge, p, call) == DenyEffect(cfg, Abstract(), call.name)
      {
        MeaningOfRules(BLOCKLIST, cfg, Abstract(), rules, judge, call);
      }
    }

    /** Always-block rules, then explicit blocks, then the allowed names that are not blocked. */
    method CompileDeny(blocklist: set<string>) returns (rules: seq<Rule>)
      requires Valid()
      ensures Says(rules, cfg, Abstract(), blocklist, blocklist + blocked.Keys + allowed)
    {
      rules := [];
      assert Says(rules, cfg, Abstract(), blocklist, {});
      var rest := blocklist;
      while rest != {}
        invariant rest <= blocklist
        invariant Says(rules, cfg, Abstract(), blocklist, blocklist - rest)
        decreases rest
      {
        var syscall :| syscall in rest;
        SaysMore(rules, cfg, Abstract(), blocklist, blocklist - rest, syscall, KILL, None);
        rules := rules + [Rule({syscall}, KILL, None, Always)];
        assert blocklist - (rest - {syscall}) == blocklist - rest + {syscall};
        rest := rest - {syscall};
      }
      assert blocklist - {} == blocklist == blocklist + Names(order[..0]);
      for i := 0 to |order|
        invariant Says(rules, cfg, Abstract(), blocklist, blocklist + Names(order[..i]))
      {
        var syscall := order[i];
        var block := blocked[syscall];
        SaysMore(rules, cfg, Abstract(), blocklist, blocklist + Names(order[..i]), syscall, block.action, block.errno);
        rules := rules + [Rule({syscall}, block.action, block.errno, Always)];
        assert blocklist + Names(order[..i + 1]) == blocklist + Names(order[..i]) + {syscall};
      }
      assert Names(order[..|order|]) == blocked.Keys;
      rules := AppendAllowed(blocklist, rules);
    }

    method AppendAllowed(blocklist: set<string>, before: seq<Rule>) returns (rules: seq<Rule>)
      requires Valid() && Says(before, cfg, Abstract(), blocklist, blocklist + blocked.Keys)
      ensures Says(rules, cfg, Abstract(), blocklist, blocklist + blocked.Keys + allowed)
    {
      rules := before;
      ghost var decided := blocklist + blocked.Keys;
      var rest := allowed - blocklist;
      while rest != {}
        invariant rest <= allowed - blocklist
        invariant decided == blocklist + blocked.Keys + (allowed - blocklist - rest)
        invariant Says(rules, cfg, Abstract(), blocklist, decided)
        decreases rest
      {
        var syscall :| syscall in rest;
        rest := rest - {syscall};
        if syscall !in blocked {
          var action := if cfg.audit then LOG else ALLOW;
          SaysMore(rules, cfg, Abstract(), blocklist, decided, syscall, action, None);
          rules := rules + [Rule({syscall}, action, None, Always)];
        }
        assert syscall in blocked ==> decided + {syscall} == decided;
        decided := decided + {syscall};
      }
      assert decided == blocklist + blocked.Keys + allowed;
    }
  }

  /** Inserting each rule in turn at position one leaves them reversed behind the first rule. */
  method InsertAll(first: Rule, rest: seq<Rule>, inserted: seq<Rule>) returns (rules: seq<Rule>)
    ensures rules == [first] + Reversed(inserted) + rest
  {
    rules := [first] + rest;
    for i := 0 to |inserted|
      invariant rules == [first] + Reversed(inserted[..i]) + rest
    {
      assert inserted[..i + 1][..i] == inserted[..i];
      assert rules[1..] == Reversed(inserted[..i]) + rest;
      rules := rules[..1] + [inserted[i]] + rules[1..];
    }
    assert inserted[..|inserted|] == inserted;
  }

  function Names(names: seq<string>): set<string> {
    set s | s in names
  }

  function Told(cfg: Settings, st: State, blocklist: set<string>, decided: set<string>, s: string): Option<Effect> {
    if s in decided then Some(DenyEffectOver(blocklist, cfg, st, s)) else None
  }

  /** The rules decide exactly the names in `decided`, each as promised, whatever the arguments. */
  ghost predicate Says(rules: seq<Rule>, cfg: Settings, st: State, blocklist: set<string>, decided: set<string>) {
    forall judge: Judge, call :: FirstMatch(judge, rules, call) == Told(cfg, st, blocklist, decided, call.name)
  }

  lemma SaysMore(rules: seq<Rule>, cfg: Settings, st: State, blocklist: set<string>, decided: set<string>,
                 s: string, action: string, errno: Option<int>)
    requires Says(rules, cfg, st, blocklist, decided)
    requires s in decided || DenyEffectOver(blocklist, cfg, st, s) == Effect(action, errno)
    ensures Says(rules + [Rule({s}, action, errno, Always)], cfg, st, blocklist, decided + {s})
  {
    var r := Rule({s}, action, errno, Always);
    forall judge: Judge, call
      ensures FirstMatch(judge, rules + [r], call) == Told(cfg, st, blocklist, decided + {s}, call.name)
    {
      FirstMatchAppend(judge, rules, [r], call);
      SingleRule(judge, r, call);
    }
  }

  lemma MeaningOfRules(blocklist: set<string>, cfg: Settings, st: State, rules: seq<Rule>, judge: Judge, call: Call)
    requires Says(rules, cfg, st, blocklist, blocklist + st.blocked.Keys + st.allowed)
    ensures Meaning(judge, Profile(if cfg.audit then LOG else cfg.defaultAction, Some(1), rules), call)
         == DenyEffectOver(blocklist, cfg, st, call.name)
  {
    assert FirstMatch(judge, rules, call)
        == Told(cfg, st, blocklist, blocklist + st.blocked.Keys + st.allowed, call.name);
  }
}
