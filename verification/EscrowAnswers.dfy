/** What the escrow engine answers and records, in terms of the calls made to it. */
module EscrowAnswers {
  import opened Prelude
  import opened Reputation
  import opened ReputationReports
  import opened EscrowRules

  // ----- What a bounty keeps of the calls -----

  /** A bounty keeps the client and the reward it was created with. */
  lemma CreatedStands(cfg: Config, ops: seq<Op>, i: nat)
    requires cfg.consensusAgents >= 1 && Legal(cfg, ops) && i < |ops| && ops[i].Create?
    ensures var st := Run(cfg, ops);
      ops[i].id in st.bounties && st.bounties[ops[i].id].clientId == ops[i].client
      && st.bounties[ops[i].id].reward == ops[i].reward
  {
    var upTo := ops[..i + 1];
    assert upTo[..i] == ops[..i] && upTo[i] == ops[i];
    RunEvolves(cfg, ops, i + 1);
    assert ops[i].id in Run(cfg, upTo).bounties;
  }

  /** Which calls succeed, from their arguments; a claim is settled by `ClaimAcceptedIff`. */
  lemma AcceptedIff(cfg: Config, st: State, op: Op)
    requires cfg.consensusAgents >= 1
    ensures var outcome := Step(cfg, st, op).1;
      && (op.Create? || op.Look? ==> outcome == Accepted)
      && (op.Submit? ==>
            (outcome == Accepted <==> op.id in st.bounties && st.bounties[op.id].claimedBy == Some(op.agent)))
      && (op.Approve? ==>
            (outcome == Accepted <==>
              && op.id in st.bounties && st.bounties[op.id].clientId == op.client
              && st.bounties[op.id].phase == Submitted))
      && (op.Dispute? ==>
            (outcome == Accepted <==> op.id in st.bounties && st.bounties[op.id].clientId == op.client))
      && outcome != Raised
  {
  }

  /** What a successful call writes into its bounty. */
  lemma AcceptedWrites(cfg: Config, st: State, op: Op)
    requires cfg.consensusAgents >= 1 && Step(cfg, st, op).1 == Accepted && !op.Look?
    ensures var b := Step(cfg, st, op).0.bounties[op.id];
      && (op.Create? ==> b == Bounty(op.client, op.reward, Open, None, None, None, None))
      && (op.Claim? ==> b.phase == Claimed && b.claimedBy == Some(op.agent))
      && (op.Submit? ==>
            b.phase == Submitted && b.submittedAt == Some(op.now) && b.snapshot == Some(cfg.hash(op.output)))
      && (op.Approve? || op.Dispute? ==> b.phase == Settled && b.settledAt == Some(op.now))
    ensures forall id | id in st.bounties && id != op.id :: Step(cfg, st, op).0.bounties[id] == st.bounties[id]
  {
  }

  /** A refused call changes no bounty, and no record but for creating that of an agent looked up. */
  lemma RefusalChangesNothing(cfg: Config, st: State, op: Op)
    requires Step(cfg, st, op).1 == Refused
    ensures Step(cfg, st, op).0.bounties == st.bounties
    ensures forall a :: GetOrCreate(Step(cfg, st, op).0.reputations, a) == GetOrCreate(st.reputations, a)
  {
  }

  /** Without a panel a dispute by the client raises, and leaves the bounty disputed and everybody uncredited. */
  lemma NoPanelRaises(cfg: Config, st: State, op: Op)
    requires cfg.consensusAgents < 1
    ensures var (st', outcome) := Step(cfg, st, op);
      && (outcome == Raised <==> op.Dispute? && op.id in st.bounties && st.bounties[op.id].clientId == op.client)
      && (outcome == Raised ==>
            st'.bounties[op.id] == st.bounties[op.id].(phase := Disputed) && st'.reputations == st.reputations)
  {
  }

  // ----- What is credited -----

  /** Every accepted approval or dispute credits the claimant with one undisputed task of full score, dated at the
      call; the panel never decides otherwise. */
  lemma CreditsAreFullMarks(cfg: Config, st: State, op: Op)
    ensures CreditOf(cfg, st, op)
         == if (op.Approve? || op.Dispute?) && Step(cfg, st, op).1 == Accepted
            then [Credit(st.bounties[op.id].claimedBy, Task(1.0, true, false, op.now))] else []
  {
  }

  lemma {:induction false} AllFullMarks(cfg: Config, ops: seq<Op>, a: Agent)
    ensures forall t | t in To(Credits(cfg, ops), a) :: t.score == 1.0 && !t.disputed
    decreases |ops|
  {
    if ops != [] {
      var n := |ops| - 1;
      var st := Run(cfg, ops[..n]);
      AllFullMarks(cfg, ops[..n], a);
      CreditsAreFullMarks(cfg, st, ops[n]);
      ToAppend(Credits(cfg, ops[..n]), CreditOf(cfg, st, ops[n]), a);
    }
  }

  /** The number of times a run credited the agent. */
  function TimesCredited(cfg: Config, ops: seq<Op>, a: Agent): nat {
    |To(Credits(cfg, ops), a)|
  }

  lemma {:induction false} StandingScore(cfg: Config, ops: seq<Op>, a: Agent)
    ensures GetOrCreate(Run(cfg, ops).reputations, a).score == 0.5
    decreases |ops|
  {
    if ops != [] {
      var n := |ops| - 1;
      StandingScore(cfg, ops[..n], a);
      ScoreStays(cfg, Run(cfg, ops[..n]), ops[n], a);
    }
  }

  lemma ScoreStays(cfg: Config, st: State, op: Op, a: Agent)
    ensures GetOrCreate(Step(cfg, st, op).0.reputations, a).score == GetOrCreate(st.reputations, a).score
  {
  }

  /** On every run an agent's report takes one of two values: a half before its first settlement, and one ever after,
      except that a decay of minus one takes it back after every second settlement. */
  lemma ReportOnRuns(cfg: Config, ops: seq<Op>, a: Agent)
    ensures Reported(cfg.decay, GetOrCreate(Run(cfg, ops).reputations, a))
         == if NothingToAverage(cfg.decay, TimesCredited(cfg, ops, a)) then 0.5 else 1.0
  {
    HistoryIsCredits(cfg, ops, a);
    AllFullMarks(cfg, ops, a);
    StandingScore(cfg, ops, a);
    FullMarks(cfg.decay, GetOrCreate(Run(cfg, ops).reputations, a));
  }

  /** So a claim after any calls succeeds exactly when the bounty is open and the minimum is at most a half, for an
      agent that was never credited, or at most one. */
  lemma ClaimAcceptedIff(cfg: Config, ops: seq<Op>, id: string, agent: string)
    ensures var st := Run(cfg, ops);
      var n := TimesCredited(cfg, ops, Some(agent));
      Step(cfg, st, Claim(id, agent)).1 == Accepted
      <==> && id in st.bounties && st.bounties[id].phase == Open
           && cfg.minReputation <= if n == 0 || (cfg.decay == -1.0 && n % 2 == 0) then 0.5 else 1.0
  {
    ReportOnRuns(cfg, ops, Some(agent));
  }

  /** In any state, whatever the history: a claim of an open bounty succeeds when the weighted average of the agent's
      scores exceeds the minimum, and fails when it falls below it, rounding aside. */
  lemma ClaimFollowsAverage(cfg: Config, st: State, id: string, agent: string)
    requires id in st.bounties && st.bounties[id].phase == Open
    requires var r := GetOrCreate(st.reputations, Some(agent)); !NothingToAverage(cfg.decay, |r.history|)
    ensures var r := GetOrCreate(st.reputations, Some(agent));
      && Possible(cfg.decay, |r.history|) != 0.0
      && var share := Earned(cfg.decay, r.history) / Possible(cfg.decay, |r.history|);
      && (share >= cfg.minReputation + 0.00005 ==> Step(cfg, st, Claim(id, agent)).1 == Accepted)
      && (share < cfg.minReputation - 0.00005 ==> Step(cfg, st, Claim(id, agent)).1 == Refused)
  {
    var n := ReportIsShare(cfg.decay, GetOrCreate(st.reputations, Some(agent)));
  }

  // ----- Counters -----

  lemma {:induction false} FullMarksAllComplete(history: seq<Task>)
    requires forall t | t in history :: t.score == 1.0 && !t.disputed
    ensures CompletedIn(history) == |history| && DisputedIn(history) == 0
    decreases |history|
  {
    if history != [] {
      var n := |history| - 1;
      assert history[n] in history && forall t | t in history[..n] :: t in history;
      FullMarksAllComplete(history[..n]);
    }
  }

  /** On every run an agent has completed as many tasks as it was credited, and none is disputed: a dispute decided by
      the panel leaves no mark. */
  lemma CountersOnRuns(cfg: Config, ops: seq<Op>, a: Agent)
    requires cfg.consensusAgents >= 1 && Legal(cfg, ops)
    ensures var r := GetOrCreate(Run(cfg, ops).reputations, a);
      && r.totalTasks == r.completedTasks == TimesCredited(cfg, ops, a)
      && r.disputedCount == 0
  {
    RunSound(cfg, ops);
    HistoryIsCredits(cfg, ops, a);
    AllFullMarks(cfg, ops, a);
    FullMarksAllComplete(GetOrCreate(Run(cfg, ops).reputations, a).history);
  }

  /** What each resolution of a dispute would do to a record: in the agent's favour one more completed task, in the
      client's one more disputed one, and a split neither; the new task scores one, nothing or a half. */
  lemma ResolutionCounts(r: Record, resolution: Resolution, now: real)
    ensures var r' := Updated(r, TaskFor(resolution, now));
      && r'.totalTasks == r.totalTasks + 1
      && r'.completedTasks == r.completedTasks + (if resolution == AgentFavor then 1 else 0)
      && r'.disputedCount == r.disputedCount + (if resolution == ClientFavor then 1 else 0)
      && |r'.history| == |r.history| + 1
      && r'.history[|r.history|].score
         == if resolution == AgentFavor then 1.0 else if resolution == ClientFavor then 0.0 else 0.5
  {
  }

  /** A task counts as completed, as disputed or as neither, never as both. */
  lemma {:induction false} CountsApart(history: seq<Task>)
    ensures CompletedIn(history) + DisputedIn(history) <= |history|
    decreases |history|
  {
    if history != [] {
      CountsApart(history[..|history| - 1]);
    }
  }
}
