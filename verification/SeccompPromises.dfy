/** What the profile generator promises about a call, in terms of the calls made to the generator. */
module SeccompPromises {
  import opened Prelude
  import opened SeccompRules

  // ----- First match -----

  /** A rule list gives a call the effect of the first rule that names it and whose condition holds. */
  lemma {:induction false} FirstMatchIs(judge: Judge, rules: seq<Rule>, call: Call)
    ensures FirstMatch(judge, rules, call) == None <==> forall j | 0 <= j < |rules| :: !Applies(judge, rules[j], call)
    ensures forall k | 0 <= k < |rules| && Applies(judge, rules[k], call)
                       && (forall j | 0 <= j < k :: !Applies(judge, rules[j], call)) ::
      FirstMatch(judge, rules, call) == Some(Effect(rules[k].action, rules[k].errno))
    decreases |rules|
  {
    if rules != [] {
      var rest := rules[1..];
      FirstMatchIs(judge, rest, call);
      forall k | 0 < k < |rules|
        ensures rules[k] == rest[k - 1]
      {
      }
      assert forall j | 0 <= j < |rest| :: rest[j] == rules[j + 1];
    }
  }

  predicate Applies(judge: Judge, r: Rule, call: Call) {
    call.name in r.names && (r.condition == Always || judge(r.condition.id, call))
  }

  // ----- Calls to the generator -----

  predicate Blocking(op: Op, s: string) {
    op.DoBlock? && op.name == s
  }

  /** The `i`-th call blocked the name, and no later one did. */
  predicate LastBlocks(ops: seq<Op>, s: string, i: int) {
    0 <= i < |ops| && Blocking(ops[i], s) && forall j | i < j < |ops| :: !Blocking(ops[j], s)
  }

  predicate NeverBlocks(ops: seq<Op>, s: string) {
    forall j | 0 <= j < |ops| :: !Blocking(ops[j], s)
  }

  predicate Adds(ops: seq<Op>, s: string) {
    exists j | 0 <= j < |ops| :: ops[j].Add? && s in ops[j].names
  }

  lemma {:induction false} LastBlockIs(ops: seq<Op>, s: string)
    ensures NeverBlocks(ops, s) ==> LastBlock(ops, s) == None
    ensures forall i | LastBlocks(ops, s, i) ::
      LastBlock(ops, s) == Some(Block(ops[i].action, if ops[i].action == ERRNO then Some(ops[i].errno) else None))
    decreases |ops|
  {
    if ops != [] {
      var n := |ops| - 1;
      LastBlockIs(ops[..n], s);
      forall i | LastBlocks(ops, s, i) && i < n
        ensures LastBlocks(ops[..n], s, i) && !Blocking(ops[n], s)
      {
      }
    }
  }

  lemma {:induction false} AddedIs(ops: seq<Op>, s: string)
    ensures s in Added(ops) <==> Adds(ops, s)
    decreases |ops|
  {
    if ops != [] {
      var n := |ops| - 1;
      AddedIs(ops[..n], s);
      assert forall j | 0 <= j < n :: ops[..n][j] == ops[j];
    }
  }

  // ----- Hardening -----

  /** Under a hardened base, for every call: a name whose last block kills is killed, one whose last block fails it
      with an errno fails with that errno, and one with another last block, or none, has the base's effect; but the
      names of the kill list are killed whatever was asked. */
  lemma HardenedCall(judge: Judge, base: Profile, ops: seq<Op>, call: Call)
    ensures var effect, s := Meaning(judge, Hardened(base, Run(ops)), call), call.name;
      && (s in HARDEN_KILL ==> effect == Effect(KILL, None))
      && (s !in HARDEN_KILL && NeverBlocks(ops, s) ==> effect == Meaning(judge, base, call))
      && (forall i | LastBlocks(ops, s, i) && s !in HARDEN_KILL ::
            effect == if ops[i].action == KILL then Effect(KILL, None)
                      else if ops[i].action == ERRNO then Effect(ERRNO, Some(ops[i].errno))
                      else Meaning(judge, base, call))
  {
    HardeningOverrides(judge, base, ops, call);
    LastBlockIs(ops, call.name);
    assert KILL != ERRNO;
  }

  // ----- Default deny -----

  /** In a profile from scratch, for every call: a blocklisted name is killed whatever was asked; another has the
      action of its last block, with its errno if that is the action; one never blocked is allowed, or logged in audit
      mode, if it was added; and all else gets the default action, or is logged, with errno one. */
  lemma DeniedCall(cfg: Settings, ops: seq<Op>, p: Profile, judge: Judge, call: Call)
    requires Denies(cfg, Run(ops), p)
    ensures var effect, s := Meaning(judge, p, call), call.name;
      && (s in BLOCKLIST ==> effect == Effect(KILL, None))
      && (forall i | LastBlocks(ops, s, i) && s !in BLOCKLIST ::
            effect == Effect(ops[i].action, if ops[i].action == ERRNO then Some(ops[i].errno) else None))
      && (s !in BLOCKLIST && NeverBlocks(ops, s) ==>
            effect == if Adds(ops, s) then Effect(if cfg.audit then LOG else ALLOW, None)
                      else Effect(if cfg.audit then LOG else cfg.defaultAction, Some(1)))
  {
    RunRemembers(ops, call.name);
    LastBlockIs(ops, call.name);
    AddedIs(ops, call.name);
    assert Meaning(judge, p, call) == DenyEffect(cfg, Run(ops), call.name);
  }

  /** In both modes a name whose last block kills is killed, whatever else was added or blocked. */
  lemma KilledInBothModes(
      cfg: Settings, base: Profile, ops: seq<Op>, p: Profile, judge: Judge, call: Call, i: int)
    requires Denies(cfg, Run(ops), p) && LastBlocks(ops, call.name, i) && ops[i].action == KILL
    ensures Meaning(judge, p, call) == Meaning(judge, Hardened(base, Run(ops)), call) == Effect(KILL, None)
  {
    HardenedCall(judge, base, ops, call);
    DeniedCall(cfg, ops, p, judge, call);
  }
}
