/** The bounty lifecycle as a state machine, what every run of it keeps, and what it does not keep. */
module EscrowRules {
  import opened Prelude
  import opened Reputation

  datatype Phase = Open | Claimed | InProgress | Submitted | UnderReview | Approved | Disputed | Settled | Cancelled

  datatype Bounty = Bounty(
    clientId: string,
    reward: real,
    phase: Phase,
    claimedBy: Option<string>,
    submittedAt: Option<real>,
    settledAt: Option<real>,
    snapshot: Option<string>)

  datatype Resolution = ClientFavor | AgentFavor | Split

  datatype Config = Config(consensusAgents: int, decay: real, minReputation: real, hash: string -> string)

  /** An agent is named, except that a bounty nobody claimed credits the agent `None`. */
  type Agent = Option<string>

  type Bounties = map<string, Bounty>
  type Reputations = map<Agent, Record>

  datatype State = State(bounties: Bounties, reputations: Reputations)

  /** A call answers True or False, or raises. */
  datatype Outcome = Accepted | Refused | Raised

  // ----- Consensus -----

  function CountOf(votes: seq<Resolution>, v: Resolution): nat {
    if votes == [] then 0
    else CountOf(votes[..|votes| - 1], v) + if votes[|votes| - 1] == v then 1 else 0
  }

  predicate Before(votes: seq<Resolution>, v: Resolution, w: Resolution) {
    exists i | 0 <= i < |votes| :: votes[i] == v && w !in votes[..i]
  }

  /** The most frequent vote; of several, the one cast first. */
  predicate Wins(votes: seq<Resolution>, v: Resolution) {
    && v in votes
    && (forall w :: CountOf(votes, w) <= CountOf(votes, v))
    && (forall w | w != v && CountOf(votes, w) == CountOf(votes, v) :: Before(votes, v, w))
  }

  /** The panel's votes: every agent of the panel favours the agent. */
  function Panel(agents: int): seq<Resolution> {
    if agents <= 0 then [] else seq(agents, _ => AgentFavor)
  }

  /** No votes, no winner: the call raises. */
  function Consensus(agents: int): Option<Resolution> {
    if agents <= 0 then None else Some(AgentFavor)
  }

  lemma {:induction false} PanelOutcome(agents: int, v: Resolution)
    requires agents > 0
    ensures Wins(Panel(agents), v) <==> Consensus(agents) == Some(v)
  {
    var votes := Panel(agents);
    forall w
      ensures CountOf(votes, w) == if w == AgentFavor then agents else 0
    {
      UnanimousCount(agents, w);
    }
    assert votes[0] == AgentFavor;
  }

  lemma {:induction false} UnanimousCount(n: nat, w: Resolution)
    ensures CountOf(seq(n, _ => AgentFavor), w) == if w == AgentFavor then n else 0
  {
    if n > 0 {
      assert seq(n, _ => AgentFavor)[..n - 1] == seq(n - 1, _ => AgentFavor);
      UnanimousCount(n - 1, w);
    }
  }

  // ----- Steps -----

  datatype Op =
    | Create(id: string, client: string, reward: real)
    | Claim(id: string, agent: string)
    | Submit(id: string, agent: string, output: string, now: real)
    | Approve(id: string, client: string, now: real)
    | Dispute(id: string, client: string, now: real)
    | Look(agent: string)

  function GetOrCreate(reps: Reputations, a: Agent): Record {
    if a in reps then reps[a] else NEWCOMER
  }

  function Credited(reps: Reputations, a: Agent, t: Task): Reputations {
    reps[a := Updated(GetOrCreate(reps, a), t)]
  }

  function TaskFor(r: Resolution, now: real): Task {
    match r
    case AgentFavor => Task(1.0, true, false, now)
    case ClientFavor => Task(0.0, false, true, now)
    case Split => Task(0.5, false, false, now)
  }

  function SettledAs(st: State, id: string, t: Task, now: real): State
    requires id in st.bounties
  {
    var b := st.bounties[id];
    State(st.bounties[id := b.(phase := Settled, settledAt := Some(now))], Credited(st.reputations, b.claimedBy, t))
  }

  function DisputedAs(st: State, id: string): State
    requires id in st.bounties
  {
    st.(bounties := st.bounties[id := st.bounties[id].(phase := Disputed)])
  }

  /** The panel's decision settles the bounty; without a panel the call raises. */
  function ConcludedAs(cfg: Config, st: State, id: string, now: real): (State, Outcome)
    requires id in st.bounties
  {
    var resolution := Consensus(cfg.consensusAgents);
    if resolution == None then (st, Raised)
    else (SettledAs(st, id, TaskFor(resolution.value, now), now), Accepted)
  }

  /** A dispute, once under way: without a panel the bounty stays disputed. */
  function ResolvedAs(cfg: Config, st: State, id: string, now: real): (State, Outcome)
    requires id in st.bounties
  {
    var resolution := Consensus(cfg.consensusAgents);
    if resolution == None then (DisputedAs(st, id), Raised)
    else (SettledAs(st, id, TaskFor(resolution.value, now), now), Accepted)
  }

  /** Passing through the disputed phase leaves no trace in a settlement. */
  lemma ResolvedInSteps(cfg: Config, st: State, id: string, now: real)
    requires id in st.bounties
    ensures ResolvedAs(cfg, st, id, now) == ConcludedAs(cfg, DisputedAs(st, id), id, now)
  {
    var b := st.bounties[id].(phase := Settled, settledAt := Some(now));
    assert DisputedAs(st, id).bounties[id := b] == st.bounties[id := b];
  }

  predicate Eligible(cfg: Config, r: Record) {
    Calculated(cfg.decay, r.score, Scores(r.history)) >= cfg.minReputation
  }

  function Step(cfg: Config, st: State, op: Op): (State, Outcome) {
    match op
    case Create(id, client, reward) =>
      (st.(bounties := st.bounties[id := Bounty(client, reward, Open, None, None, None, None)]), Accepted)
    case Claim(id, agent) =>
      if id !in st.bounties || st.bounties[id].phase != Open then (st, Refused)
      else
        var r := GetOrCreate(st.reputations, Some(agent));
        var looked := st.(reputations := st.reputations[Some(agent) := r]);
        if !Eligible(cfg, r) then (looked, Refused)
        else
          var b := st.bounties[id].(phase := Claimed, claimedBy := Some(agent));
          (looked.(bounties := st.bounties[id := b]), Accepted)
    case Submit(id, agent, output, now) =>
      if id !in st.bounties || st.bounties[id].claimedBy != Some(agent) then (st, Refused)
      else
        var b := st.bounties[id].(phase := Submitted, submittedAt := Some(now), snapshot := Some(cfg.hash(output)));
        (st.(bounties := st.bounties[id := b]), Accepted)
    case Approve(id, client, now) =>
      if id !in st.bounties || st.bounties[id].clientId != client then (st, Refused)
      else if st.bounties[id].phase != Submitted then (st, Refused)
      else (SettledAs(st, id, Task(1.0, true, false, now), now), Accepted)
    case Dispute(id, client, now) =>
      if id !in st.bounties || st.bounties[id].clientId != client then (st, Refused)
      else
        ResolvedAs(cfg, st, id, now)
    case Look(agent) =>
      (st.(reputations := st.reputations[Some(agent) := GetOrCreate(st.reputations, Some(agent))]), Accepted)
  }

  const INITIAL := State(map[], map[])

  /** Identifiers are fresh when a bounty is created. */
  predicate Fresh(st: State, op: Op) {
    op.Create? ==> op.id !in st.bounties
  }

  predicate Legal(cfg: Config, ops: seq<Op>) {
    ops == [] || (Legal(cfg, ops[..|ops| - 1]) && Fresh(Run(cfg, ops[..|ops| - 1]), ops[|ops| - 1]))
  }

  function Run(cfg: Config, ops: seq<Op>): State {
    if ops == [] then INITIAL else Step(cfg, Run(cfg, ops[..|ops| - 1]), ops[|ops| - 1]).0
  }

  // ----- What every state keeps -----

  predicate Consistent(b: Bounty) {
    && (b.phase.Open? || b.phase.Claimed? || b.phase.Submitted? || b.phase.Settled?)
    && (b.phase.Open? ==> b.claimedBy == None)
    && (b.phase.Claimed? ==> b.claimedBy.Some?)
    && (b.phase.Submitted? ==> b.claimedBy.Some? && b.snapshot.Some? && b.submittedAt.Some?)
    && (b.phase.Settled? ==> b.settledAt.Some?)
    && (b.snapshot.Some? ==> b.claimedBy.Some?)
  }

  predicate Sound(st: State) {
    && (forall id | id in st.bounties :: Consistent(st.bounties[id]))
    && (forall a | a in st.reputations :: Counted(st.reputations[a]))
  }

  /** What one step may do to an existing bounty: never reopen it, never change its client, reward or claimant,
      never forget a snapshot or a settlement. */
  predicate Evolves(b: Bounty, b': Bounty) {
    && b'.clientId == b.clientId && b'.reward == b.reward
    && (b'.phase.Open? ==> b.phase.Open?)
    && (b.claimedBy.Some? ==> b'.claimedBy == b.claimedBy)
    && (b.snapshot.Some? ==> b'.snapshot.Some?)
    && (b.settledAt.Some? ==> b'.settledAt.Some?)
  }

  predicate AllEvolve(st: State, st': State) {
    forall id | id in st.bounties :: id in st'.bounties && Evolves(st.bounties[id], st'.bounties[id])
  }

  lemma BountyStep(cfg: Config, st: State, op: Op, id: string)
    requires cfg.consensusAgents >= 1 && Fresh(st, op) && id in Step(cfg, st, op).0.bounties
    requires id in st.bounties ==> Consistent(st.bounties[id])
    ensures Consistent(Step(cfg, st, op).0.bounties[id])
    ensures id in st.bounties ==> Evolves(st.bounties[id], Step(cfg, st, op).0.bounties[id])
  {
  }

  lemma RecordStep(cfg: Config, st: State, op: Op, a: Agent)
    requires a in Step(cfg, st, op).0.reputations
    requires a in st.reputations ==> Counted(st.reputations[a])
    ensures Counted(Step(cfg, st, op).0.reputations[a])
  {
    var r, r' := GetOrCreate(st.reputations, a), Step(cfg, st, op).0.reputations[a];
    if r' != r {
      UpdatedStaysCounted(r, r'.history[|r.history|]);
    }
  }

  lemma StepSound(cfg: Config, st: State, op: Op)
    requires cfg.consensusAgents >= 1 && Sound(st) && Fresh(st, op)
    ensures Sound(Step(cfg, st, op).0) && AllEvolve(st, Step(cfg, st, op).0)
  {
    var st' := Step(cfg, st, op).0;
    assert st.bounties.Keys <= st'.bounties.Keys;
    forall id | id in st'.bounties
      ensures Consistent(st'.bounties[id])
      ensures id in st.bounties ==> Evolves(st.bounties[id], st'.bounties[id])
    {
      BountyStep(cfg, st, op, id);
    }
    forall a | a in st'.reputations
      ensures Counted(st'.reputations[a])
    {
      RecordStep(cfg, st, op, a);
    }
  }

  lemma EvolvesOn(a: State, b: State, c: State)
    requires AllEvolve(a, b) && AllEvolve(b, c)
    ensures AllEvolve(a, c)
  {
    forall id | id in a.bounties
      ensures id in c.bounties && Evolves(a.bounties[id], c.bounties[id])
    {
      assert id in b.bounties && Evolves(b.bounties[id], c.bounties[id]);
    }
  }

  /** On every run, whatever the order of the calls, every bounty and every counter is consistent. */
  lemma {:induction false} RunSound(cfg: Config, ops: seq<Op>)
    requires cfg.consensusAgents >= 1 && Legal(cfg, ops)
    ensures Sound(Run(cfg, ops))
    decreases |ops|
  {
    if ops != [] {
      var n := |ops| - 1;
      RunSound(cfg, ops[..n]);
      StepSound(cfg, Run(cfg, ops[..n]), ops[n]);
    }
  }

  /** Nothing that happened to a bounty at any point of a run is undone by the end of it: it is never reopened,
      its claimant is written at most once, its snapshot and its settlement are not forgotten. */
  lemma {:induction false} RunEvolves(cfg: Config, ops: seq<Op>, k: nat)
    requires cfg.consensusAgents >= 1 && Legal(cfg, ops) && k <= |ops|
    ensures AllEvolve(Run(cfg, ops[..k]), Run(cfg, ops))
    decreases |ops|
  {
    if k == |ops| {
      assert ops[..k] == ops;
    } else {
      var n := |ops| - 1;
      assert ops[..n][..k] == ops[..k];
      RunSound(cfg, ops[..n]);
      RunEvolves(cfg, ops[..n], k);
      StepSound(cfg, Run(cfg, ops[..n]), ops[n]);
      EvolvesOn(Run(cfg, ops[..k]), Run(cfg, ops[..n]), Run(cfg, ops));
    }
  }

  /** Which calls move a bounty on.  It gets a claimant, who is the caller, exactly when it is open and an agent
      with a sufficient score claims it; it becomes settled exactly when its client approves submitted work or
      disputes it; and its snapshot changes, to the hash of the output, exactly when its claimant submits an output
      of another hash. */
  lemma MovesExactlyWhen(cfg: Config, st: State, op: Op, id: string)
    requires cfg.consensusAgents >= 1 && Sound(st) && Fresh(st, op) && id in st.bounties
    ensures var b, b' := st.bounties[id], Step(cfg, st, op).0.bounties[id];
      && (b'.claimedBy != b.claimedBy <==>
            op.Claim? && op.id == id && b.phase.Open? && Eligible(cfg, GetOrCreate(st.reputations, Some(op.agent))))
      && (b'.claimedBy != b.claimedBy ==> b'.claimedBy == Some(op.agent))
      && (!b.phase.Settled? && b'.phase.Settled? <==>
            || (op.Approve? && op.id == id && op.client == b.clientId && b.phase.Submitted?)
            || (op.Dispute? && op.id == id && op.client == b.clientId && !b.phase.Settled?))
      && (b'.snapshot != b.snapshot <==>
            op.Submit? && op.id == id && b.claimedBy == Some(op.agent) && b.snapshot != Some(cfg.hash(op.output)))
      && (b'.snapshot != b.snapshot ==> b'.snapshot == Some(cfg.hash(op.output)))
  {
  }

  // ----- Conservation -----

  /** The settlements a run makes: to whom, and the task recorded. */
  datatype Credit = Credit(agent: Agent, task: Task)

  function CreditOf(cfg: Config, st: State, op: Op): seq<Credit> {
    if !Step(cfg, st, op).1.Accepted? then []
    else match op
      case Approve(id, _, now) => [Credit(st.bounties[id].claimedBy, Task(1.0, true, false, now))]
      case Dispute(id, _, now) =>
        [Credit(st.bounties[id].claimedBy, TaskFor(Consensus(cfg.consensusAgents).value, now))]
      case _ => []
  }

  function Credits(cfg: Config, ops: seq<Op>): seq<Credit> {
    if ops == [] then []
    else
      var n := |ops| - 1;
      Credits(cfg, ops[..n]) + CreditOf(cfg, Run(cfg, ops[..n]), ops[n])
  }

  function To(credits: seq<Credit>, a: Agent): seq<Task> {
    if credits == [] then []
    else
      var n := |credits| - 1;
      To(credits[..n], a) + if credits[n].agent == a then [credits[n].task] else []
  }

  lemma ToAppend(credits: seq<Credit>, more: seq<Credit>, a: Agent)
    requires |more| <= 1
    ensures To(credits + more, a) == To(credits, a) + if more != [] && more[0].agent == a then [more[0].task] else []
  {
    if more == [] {
      assert credits + more == credits;
    } else {
      assert (credits + more)[..|credits|] == credits;
    }
  }

  /** An agent's history is exactly the settlements credited to it, in order. */
  lemma {:induction false} HistoryIsCredits(cfg: Config, ops: seq<Op>, a: Agent)
    ensures GetOrCreate(Run(cfg, ops).reputations, a).history == To(Credits(cfg, ops), a)
    decreases |ops|
  {
    if ops != [] {
      var n := |ops| - 1;
      var st := Run(cfg, ops[..n]);
      HistoryIsCredits(cfg, ops[..n], a);
      StepHistory(cfg, st, ops[n], a);
      ToAppend(Credits(cfg, ops[..n]), CreditOf(cfg, st, ops[n]), a);
    }
  }

  lemma StepHistory(cfg: Config, st: State, op: Op, a: Agent)
    ensures var credits := CreditOf(cfg, st, op);
      |credits| <= 1
      && GetOrCreate(Step(cfg, st, op).0.reputations, a).history
         == GetOrCreate(st.reputations, a).history
            + if credits != [] && credits[0].agent == a then [credits[0].task] else []
  {
  }

  /** The lengths of all histories together. */
  ghost function Total(reps: Reputations): nat {
    if reps == map[] then 0
    else
      var a :| a in reps;
      |reps[a].history| + Total(reps - {a})
  }

  lemma {:induction false} TotalSplit(reps: Reputations, a: Agent)
    requires a in reps
    ensures Total(reps) == |reps[a].history| + Total(reps - {a})
    decreases |reps|
  {
    var b :| b in reps && Total(reps) == |reps[b].history| + Total(reps - {b});
    if a != b {
      TotalSplit(reps - {b}, a);
      TotalSplit(reps - {a}, b);
      assert reps - {a} - {b} == reps - {b} - {a};
    }
  }

  lemma TotalUpdate(reps: Reputations, a: Agent, r: Record)
    ensures Total(reps[a := r]) + |GetOrCreate(reps, a).history| == Total(reps) + |r.history|
  {
    var reps' := reps[a := r];
    TotalSplit(reps', a);
    assert reps' - {a} == reps - {a};
    if a in reps {
      TotalSplit(reps, a);
    } else {
      assert reps - {a} == reps;
    }
  }

  /** All histories together are as long as the number of accepted approvals and disputes. */
  lemma {:induction false} SettlementsConserved(cfg: Config, ops: seq<Op>)
    ensures Total(Run(cfg, ops).reputations) == |Credits(cfg, ops)|
    decreases |ops|
  {
    if ops != [] {
      var n := |ops| - 1;
      SettlementsConserved(cfg, ops[..n]);
      StepConserves(cfg, Run(cfg, ops[..n]), ops[n]);
    }
  }

  lemma StepConserves(cfg: Config, st: State, op: Op)
    ensures Total(Step(cfg, st, op).0.reputations) == Total(st.reputations) + |CreditOf(cfg, st, op)|
  {
    var reps, reps' := st.reputations, Step(cfg, st, op).0.reputations;
    if reps' != reps {
      var a: Agent := match op
        case Claim(_, agent) => Some(agent)
        case Look(agent) => Some(agent)
        case Approve(id, _, _) => st.bounties[id].claimedBy
        case Dispute(id, _, _) => st.bounties[id].claimedBy
        case _ => None;
      TotalUpdate(reps, a, reps'[a]);
    }
  }

  // ----- Settled is not terminal -----

  /** Exactly which calls disturb a settled bounty: its claimant submitting again takes it out of the settled
      phase, and its client disputing it settles it, and credits its claimant, once more. */
  lemma SettledDisturbedIff(cfg: Config, st: State, op: Op, id: string)
    requires cfg.consensusAgents >= 1 && Sound(st) && Fresh(st, op)
    requires id in st.bounties && st.bounties[id].phase.Settled?
    ensures !Step(cfg, st, op).0.bounties[id].phase.Settled?
       <==> op.Submit? && op.id == id && st.bounties[id].claimedBy == Some(op.agent)
    ensures (CreditOf(cfg, st, op) != [] && op.id == id)
       <==> op.Dispute? && op.id == id && op.client == st.bounties[id].clientId
  {
  }

  /** The call credits somebody for the bounty. */
  predicate Settles(cfg: Config, st: State, op: Op, id: string) {
    (op.Approve? || op.Dispute?) && op.id == id && CreditOf(cfg, st, op) != []
  }

  /** How often a run credits somebody for the bounty. */
  function Settlements(cfg: Config, ops: seq<Op>, id: string): nat {
    if ops == [] then 0
    else
      var n := |ops| - 1;
      Settlements(cfg, ops[..n], id) + if Settles(cfg, Run(cfg, ops[..n]), ops[n], id) then 1 else 0
  }

  /** The client approves or disputes a bounty that has been settled before: an approval of resubmitted work, or a
      dispute in any phase. */
  predicate SettlesAgain(st: State, op: Op, id: string) {
    && (op.Approve? || op.Dispute?) && op.id == id && id in st.bounties
    && op.client == st.bounties[id].clientId && st.bounties[id].settledAt.Some?
    && (op.Approve? ==> st.bounties[id].phase.Submitted?)
  }

  predicate EverSettled(st: State, id: string) {
    id in st.bounties && st.bounties[id].settledAt.Some?
  }

  lemma SettlesStep(cfg: Config, st: State, op: Op, id: string)
    requires cfg.consensusAgents >= 1 && Fresh(st, op)
    ensures EverSettled(Step(cfg, st, op).0, id) <==> EverSettled(st, id) || Settles(cfg, st, op, id)
    ensures SettlesAgain(st, op, id) <==> EverSettled(st, id) && Settles(cfg, st, op, id)
  {
  }

  /** A bounty carries a settlement time exactly when the run has credited somebody for it. */
  lemma {:induction false} SettledIffCredited(cfg: Config, ops: seq<Op>, id: string)
    requires cfg.consensusAgents >= 1 && Legal(cfg, ops)
    ensures Settlements(cfg, ops, id) > 0 <==> EverSettled(Run(cfg, ops), id)
    decreases |ops|
  {
    if ops != [] {
      var n := |ops| - 1;
      SettledIffCredited(cfg, ops[..n], id);
      SettlesStep(cfg, Run(cfg, ops[..n]), ops[n], id);
    }
  }

  /** No call of the run settles the bounty again. */
  predicate NeverSettlesAgain(cfg: Config, ops: seq<Op>, id: string) {
    ops == []
    || (NeverSettlesAgain(cfg, ops[..|ops| - 1], id)
        && !SettlesAgain(Run(cfg, ops[..|ops| - 1]), ops[|ops| - 1], id))
  }

  /** A run credits somebody for a bounty once at most, exactly when no call of it is its client approving or
      disputing it after it has been settled. */
  lemma {:induction false} SettledOnceIff(cfg: Config, ops: seq<Op>, id: string)
    requires cfg.consensusAgents >= 1 && Legal(cfg, ops)
    ensures Settlements(cfg, ops, id) <= 1 <==> NeverSettlesAgain(cfg, ops, id)
    decreases |ops|
  {
    if ops != [] {
      var n := |ops| - 1;
      SettledOnceIff(cfg, ops[..n], id);
      SettledIffCredited(cfg, ops[..n], id);
      SettlesStep(cfg, Run(cfg, ops[..n]), ops[n], id);
    }
  }

  /** A bounty settled twice: submit again after the approval, and have it approved again. */
  lemma SettledTwice(cfg: Config)
    requires Eligible(cfg, NEWCOMER)
    ensures var ops := [Create("b", "client", 1.0), Claim("b", "agent"), Submit("b", "agent", "", 1.0),
                        Approve("b", "client", 2.0), Submit("b", "agent", "", 3.0), Approve("b", "client", 4.0)];
      Legal(cfg, ops) && Settlements(cfg, ops, "b") == 2
  {
    var claimed := CreatedAndClaimed(cfg, "b", "client", "agent");
    var once := SubmittedAndApproved(cfg, claimed, "b", "client", "agent", 1.0, 2.0);
    var twice := SubmittedAndApproved(cfg, once, "b", "client", "agent", 3.0, 4.0);
    assert twice == [Create("b", "client", 1.0), Claim("b", "agent"), Submit("b", "agent", "", 1.0),
                     Approve("b", "client", 2.0), Submit("b", "agent", "", 3.0), Approve("b", "client", 4.0)];
  }

  lemma CreatedAndClaimed(cfg: Config, id: string, client: string, agent: string) returns (ops: seq<Op>)
    requires Eligible(cfg, NEWCOMER)
    ensures ops == [Create(id, client, 1.0), Claim(id, agent)] && Legal(cfg, ops)
    ensures Held(Run(cfg, ops), id, client, agent) && Settlements(cfg, ops, id) == 0
  {
    var created := Extend(cfg, [], Create(id, client, 1.0));
    OneCallMore(cfg, [], Create(id, client, 1.0), id);
    ops := Extend(cfg, created, Claim(id, agent));
    OneCallMore(cfg, created, Claim(id, agent), id);
  }

  predicate Held(st: State, id: string, client: string, agent: string) {
    id in st.bounties && st.bounties[id].clientId == client && st.bounties[id].claimedBy == Some(agent)
  }

  /** From any point where an agent holds the claim, settled or not, a submission and an approval credit it again. */
  lemma SubmittedAndApproved(
      cfg: Config, ops: seq<Op>, id: string, client: string, agent: string, first: real, second: real)
    returns (longer: seq<Op>)
    requires Legal(cfg, ops) && Held(Run(cfg, ops), id, client, agent)
    ensures longer == ops + [Submit(id, agent, "", first), Approve(id, client, second)] && Legal(cfg, longer)
    ensures Held(Run(cfg, longer), id, client, agent)
    ensures Settlements(cfg, longer, id) == Settlements(cfg, ops, id) + 1
  {
    var submitted := Extend(cfg, ops, Submit(id, agent, "", first));
    assert Held(Run(cfg, submitted), id, client, agent) && Run(cfg, submitted).bounties[id].phase.Submitted?;
    OneCallMore(cfg, ops, Submit(id, agent, "", first), id);
    longer := Extend(cfg, submitted, Approve(id, client, second));
    OneCallMore(cfg, submitted, Approve(id, client, second), id);
  }

  lemma OneCallMore(cfg: Config, ops: seq<Op>, op: Op, id: string)
    ensures Settlements(cfg, ops + [op], id)
         == Settlements(cfg, ops, id) + if Settles(cfg, Run(cfg, ops), op, id) then 1 else 0
  {
    assert (ops + [op])[..|ops|] == ops;
  }

  // ----- One active bounty per agent is not kept -----

  predicate Active(b: Bounty) {
    b.phase.Claimed? || b.phase.Submitted?
  }

  predicate Holds(st: State, id: string, agent: string) {
    id in st.bounties && Active(st.bounties[id]) && st.bounties[id].claimedBy == Some(agent)
  }

  /** No agent holds two active bounties. */
  ghost predicate Exclusive(st: State) {
    forall id, other, agent | Holds(st, id, agent) && Holds(st, other, agent) :: id == other
  }

  /** The agent holds an active bounty other than `id`. */
  ghost predicate Busy(st: State, id: string, agent: string) {
    exists other :: other != id && Holds(st, other, agent)
  }

  /** The call makes `id` an active bounty of the agent: a claim that succeeds, or the claimant of any bounty,
      settled or not, submitting for it. */
  predicate Takes(cfg: Config, st: State, op: Op, id: string, agent: string) {
    && (op.Claim? || op.Submit?) && op.id == id && op.agent == agent && id in st.bounties
    && (op.Claim? ==> st.bounties[id].phase.Open? && Eligible(cfg, GetOrCreate(st.reputations, Some(agent))))
    && (op.Submit? ==> st.bounties[id].claimedBy == Some(agent))
  }

  /** The call makes a bounty active for an agent who holds another. */
  ghost predicate Doubles(cfg: Config, st: State, op: Op) {
    (op.Claim? || op.Submit?) && Takes(cfg, st, op, op.id, op.agent) && Busy(st, op.id, op.agent)
  }

  /** What an agent holds after a call: what it held, less a bounty settled by the call, and a bounty it claims or
      submits for. */
  lemma HoldsStep(cfg: Config, st: State, op: Op, id: string, agent: string)
    requires cfg.consensusAgents >= 1 && Sound(st) && Fresh(st, op)
    ensures Holds(Step(cfg, st, op).0, id, agent) <==>
      || Takes(cfg, st, op, id, agent)
      || (Holds(st, id, agent) && !((op.Approve? || op.Dispute?) && op.id == id && Step(cfg, st, op).1.Accepted?))
  {
  }

  /** Exactly which calls give an agent a second active bounty. */
  lemma StepExclusiveIff(cfg: Config, st: State, op: Op)
    requires cfg.consensusAgents >= 1 && Sound(st) && Fresh(st, op) && Exclusive(st)
    ensures Exclusive(Step(cfg, st, op).0) <==> !Doubles(cfg, st, op)
  {
    var st' := Step(cfg, st, op).0;
    forall id, agent
      ensures Holds(st', id, agent) ==> Takes(cfg, st, op, id, agent) || Holds(st, id, agent)
    {
      HoldsStep(cfg, st, op, id, agent);
    }
    if Doubles(cfg, st, op) {
      var other :| other != op.id && Holds(st, other, op.agent);
      HoldsStep(cfg, st, op, op.id, op.agent);
      HoldsStep(cfg, st, op, other, op.agent);
    }
  }

  /** No agent holds two active bounties at any point of the run. */
  ghost predicate StaysExclusive(cfg: Config, ops: seq<Op>) {
    Exclusive(Run(cfg, ops)) && (ops == [] || StaysExclusive(cfg, ops[..|ops| - 1]))
  }

  /** No call of the run gives an agent a second active bounty. */
  ghost predicate NeverDoubles(cfg: Config, ops: seq<Op>) {
    ops == [] || (NeverDoubles(cfg, ops[..|ops| - 1]) && !Doubles(cfg, Run(cfg, ops[..|ops| - 1]), ops[|ops| - 1]))
  }

  /** All along a run each agent has one active bounty at most, exactly when no call of the run gives an agent a
      second one. */
  lemma {:induction false} RunExclusiveIff(cfg: Config, ops: seq<Op>)
    requires cfg.consensusAgents >= 1 && Legal(cfg, ops)
    ensures StaysExclusive(cfg, ops) <==> NeverDoubles(cfg, ops)
    decreases |ops|
  {
    if ops != [] {
      var before, op := ops[..|ops| - 1], ops[|ops| - 1];
      RunExclusiveIff(cfg, before);
      if StaysExclusive(cfg, before) {
        RunSound(cfg, before);
        StepExclusiveIff(cfg, Run(cfg, before), op);
      }
    }
  }

  /** One agent with two active bounties: nothing stops the second claim. */
  lemma TwoActiveBounties(cfg: Config)
    requires Eligible(cfg, NEWCOMER)
    ensures var ops := [Create("a", "client", 1.0), Create("b", "client", 1.0),
                        Claim("a", "agent"), Claim("b", "agent")];
      Legal(cfg, ops) && !Exclusive(Run(cfg, ops))
  {
    var first := Extend(cfg, [], Create("a", "client", 1.0));
    var second := Extend(cfg, first, Create("b", "client", 1.0));
    var claimed := Extend(cfg, second, Claim("a", "agent"));
    var twice := Extend(cfg, claimed, Claim("b", "agent"));
    assert Holds(Run(cfg, twice), "a", "agent") && Holds(Run(cfg, twice), "b", "agent");
    assert twice == [Create("a", "client", 1.0), Create("b", "client", 1.0), Claim("a", "agent"), Claim("b", "agent")];
  }

  lemma Extend(cfg: Config, ops: seq<Op>, op: Op) returns (longer: seq<Op>)
    requires Legal(cfg, ops) && Fresh(Run(cfg, ops), op)
    ensures longer == ops + [op] && Legal(cfg, longer)
    ensures Run(cfg, longer) == Step(cfg, Run(cfg, ops), op).0
    ensures Credits(cfg, longer) == Credits(cfg, ops) + CreditOf(cfg, Run(cfg, ops), op)
  {
    longer := ops + [op];
    assert longer[..|ops|] == ops;
  }
}
