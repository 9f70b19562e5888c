/** The escrow engine object: dictionaries of bounty objects and reputation objects. */
module Escrow {
  import opened Prelude
  import opened Reputation
  import opened EscrowRules

  class BountyObject {
    const clientId: string
    const reward: real
    var phase: Phase
    var claimedBy: Option<string>
    var submittedAt: Option<real>
    var settledAt: Option<real>
    var snapshot: Option<string>

    function View(): Bounty
      reads this
    {
      Bounty(clientId, reward, phase, claimedBy, submittedAt, settledAt, snapshot)
    }

    constructor (clientId: string, reward: real)
      ensures View() == Bounty(clientId, reward, Open, None, None, None, None)
    {
      this.clientId, this.reward, phase := clientId, reward, Open;
      claimedBy, submittedAt, settledAt, snapshot := None, None, None, None;
    }
  }

  class EscrowEngine {
    const cfg: Config
    var bounties: map<string, BountyObject>
    var reputations: map<Agent, ReputationRecord>

    /** No two keys share an object. */
    ghost predicate Valid()
      reads this
    {
      && (forall i, j | i in bounties && j in bounties && i != j :: bounties[i] != bounties[j])
      && (forall a, b | a in reputations && b in reputations && a != b :: reputations[a] != reputations[b])
    }

    ghost function Bounties(): EscrowRules.Bounties
      reads this, bounties.Values
    {
      map id | id in bounties :: bounties[id].View()
    }

    ghost function Reputations(): EscrowRules.Reputations
      reads this, reputations.Values
    {
      map a | a in reputations :: reputations[a].View()
    }

    ghost function Abstract(): State
      reads this, bounties.Values, reputations.Values
    {
      State(Bounties(), Reputations())
    }

    constructor (cfg: Config)
      ensures Valid() && this.cfg == cfg && Abstract() == INITIAL
    {
      this.cfg := cfg;
      bounties := map[];
      reputations := map[];
    }

    method CreateBounty(id: string, client: string, reward: real)
      requires Valid() && id !in bounties
      modifies `bounties
      ensures Valid() && fresh(bounties.Values - old(bounties.Values))
      ensures Abstract() == Step(cfg, old(Abstract()), Create(id, client, reward)).0
    {
      var bounty := new BountyObject(client, reward);
      AddBounty(id, bounty);
    }

    method AddBounty(id: string, bounty: BountyObject)
      requires Valid() && id !in bounties && bounty !in bounties.Values
      modifies `bounties
      ensures Valid() && bounties == old(bounties)[id := bounty]
      ensures Reputations() == old(Reputations())
      ensures Bounties() == old(Bounties())[id := bounty.View()]
    {
      bounties := bounties[id := bounty];
    }

    method GetOrCreateReputation(a: Agent, now: real) returns (r: ReputationRecord)
      requires Valid()
      modifies `reputations
      ensures Valid() && a in reputations && reputations[a] == r
      ensures fresh(r) || r in old(reputations.Values)
      ensures fresh(reputations.Values - old(reputations.Values))
      ensures Bounties() == old(Bounties())
      ensures Reputations() == old(Reputations())[a := GetOrCreate(old(Reputations()), a)]
    {
      ghost var before := Reputations();
      if a !in reputations {
        var created := new ReputationRecord(now);
        reputations := reputations[a := created];
      }
      r := reputations[a];
      assert Reputations() == before[a := r.View()];
    }

    /** Refused unless the bounty is open and the agent's rounded score reaches the minimum. */
    method ClaimBounty(id: string, agent: string, now: real) returns (ok: bool)
      requires Valid()
      modifies `reputations, bounties.Values
      ensures Valid() && fresh(reputations.Values - old(reputations.Values))
      ensures bounties == old(bounties)
      ensures var (st, outcome) := Step(cfg, old(Abstract()), Claim(id, agent));
        Abstract() == st && ok == outcome.Accepted?
    {
      if id !in bounties || bounties[id].phase != Open {
        return false;
      }
      var eligible := LookUpEligible(agent, now);
      if !eligible {
        return false;
      }
      MarkClaimed(id, agent);
      return true;
    }

    method LookUpEligible(agent: string, now: real) returns (eligible: bool)
      requires Valid()
      modifies `reputations
      ensures Valid() && fresh(reputations.Values - old(reputations.Values))
      ensures Bounties() == old(Bounties())
      ensures var r := GetOrCreate(old(Reputations()), Some(agent));
        Reputations() == old(Reputations())[Some(agent) := r] && eligible == Eligible(cfg, r)
    {
      var reputation := GetOrCreateReputation(Some(agent), now);
      assert Reputations()[Some(agent)] == reputation.View();
      var rs := reputation.CalculateRs(cfg.decay);
      eligible := !(rs < cfg.minReputation);
    }

    method MarkClaimed(id: string, agent: string)
      requires Valid() && id in bounties
      modifies bounties[id]
      ensures Reputations() == old(Reputations())
      ensures Bounties() == old(Bounties())[id := old(Bounties())[id].(phase := Claimed, claimedBy := Some(agent))]
    {
      bounties[id].phase := Claimed;
      bounties[id].claimedBy := Some(agent);
    }

    /** Any phase will do, as long as the claimant submits. */
    method SubmitWork(id: string, agent: string, output: string, now: real) returns (ok: bool)
      requires Valid()
      modifies bounties.Values
      ensures var (st, outcome) := Step(cfg, old(Abstract()), Submit(id, agent, output, now));
        Abstract() == st && ok == outcome.Accepted?
    {
      if id !in bounties || bounties[id].claimedBy != Some(agent) {
        return false;
      }
      var outputHash := cfg.hash(output);
      MarkSubmitted(id, outputHash, now);
      return true;
    }

    method MarkSubmitted(id: string, outputHash: string, now: real)
      requires Valid() && id in bounties
      modifies bounties[id]
      ensures Reputations() == old(Reputations())
      ensures Bounties() == old(Bounties())[id :=
        old(Bounties())[id].(phase := Submitted, submittedAt := Some(now), snapshot := Some(outputHash))]
    {
      bounties[id].snapshot := Some(outputHash);
      bounties[id].phase := Submitted;
      bounties[id].submittedAt := Some(now);
    }

    method ApproveBounty(id: string, client: string, now: real) returns (ok: bool)
      requires Valid()
      modifies `reputations, bounties.Values, reputations.Values
      ensures Valid() && fresh(reputations.Values - old(reputations.Values))
      ensures bounties == old(bounties)
      ensures var (st, outcome) := Step(cfg, old(Abstract()), Approve(id, client, now));
        Abstract() == st && ok == outcome.Accepted?
    {
      if id !in bounties || bounties[id].clientId != client {
        return false;
      }
      if bounties[id].phase != Submitted {
        return false;
      }
      Settle(id, Task(1.0, true, false, now), now);
      return true;
    }

    /** Get or create the reputation, then record the task in it. */
    method CreditAgent(a: Agent, t: Task)
      requires Valid()
      modifies `reputations, reputations.Values
      ensures Valid() && fresh(reputations.Values - old(reputations.Values))
      ensures Bounties() == old(Bounties())
      ensures Reputations() == Credited(old(Reputations()), a, t)
    {
      var reputation := GetOrCreateReputation(a, t.timestamp);
      UpdateReputation(a, t);
    }

    method UpdateReputation(a: Agent, t: Task)
      requires Valid() && a in reputations
      modifies reputations[a]
      ensures Bounties() == old(Bounties())
      ensures Reputations() == old(Reputations())[a := Updated(old(Reputations())[a], t)]
    {
      reputations[a].Update(t.score, t.verified, t.disputed, t.timestamp);
    }

    method MarkSettled(id: string, now: real)
      requires Valid() && id in bounties
      modifies bounties[id]
      ensures Reputations() == old(Reputations())
      ensures Bounties() == old(Bounties())[id := old(Bounties())[id].(phase := Settled, settledAt := Some(now))]
    {
      bounties[id].phase := Settled;
      bounties[id].settledAt := Some(now);
    }

    /** Any phase will do, as long as the client disputes.  Raises, leaving the bounty disputed, when the panel
        is empty. */
    method DisputeBounty(id: string, client: string, now: real) returns (outcome: Outcome)
      requires Valid()
      modifies `reputations, bounties.Values, reputations.Values
      ensures Valid() && fresh(reputations.Values - old(reputations.Values))
      ensures bounties == old(bounties)
      ensures (Abstract(), outcome) == Step(cfg, old(Abstract()), Dispute(id, client, now))
    {
      if id !in bounties || bounties[id].clientId != client {
        return Refused;
      }
      outcome := Resolve(id, now);
    }

    method Resolve(id: string, now: real) returns (outcome: Outcome)
      requires Valid() && id in bounties
      modifies `reputations, bounties[id], reputations.Values
      ensures Valid() && fresh(reputations.Values - old(reputations.Values))
      ensures bounties == old(bounties)
      ensures (Abstract(), outcome) == ResolvedAs(cfg, old(Abstract()), id, now)
    {
      ResolvedInSteps(cfg, Abstract(), id, now);
      MarkDisputed(id);
      outcome := Conclude(id, now);
    }

    method Conclude(id: string, now: real) returns (outcome: Outcome)
      requires Valid() && id in bounties
      modifies `reputations, bounties[id], reputations.Values
      ensures Valid() && fresh(reputations.Values - old(reputations.Values))
      ensures bounties == old(bounties)
      ensures (Abstract(), outcome) == ConcludedAs(cfg, old(Abstract()), id, now)
    {
      var resolution := RunConsensus(cfg.consensusAgents);
      if resolution == None {
        return Raised;
      }
      Settle(id, TaskFor(resolution.value, now), now);
      return Accepted;
    }

    method Settle(id: string, t: Task, now: real)
      requires Valid() && id in bounties && t.timestamp == now
      modifies `reputations, bounties[id], reputations.Values
      ensures Valid() && fresh(reputations.Values - old(reputations.Values))
      ensures bounties == old(bounties)
      ensures Abstract() == SettledAs(old(Abstract()), id, t, now)
    {
      MarkSettled(id, now);
      var claimant := bounties[id].claimedBy;
      assert claimant == Bounties()[id].claimedBy;
      CreditAgent(claimant, t);
    }

    method MarkDisputed(id: string)
      requires Valid() && id in bounties
      modifies bounties[id]
      ensures Reputations() == old(Reputations())
      ensures Bounties() == old(Bounties())[id := old(Bounties())[id].(phase := Disputed)]
    {
      bounties[id].phase := Disputed;
    }
  }

  /** Collects the panel's votes and takes the winner. */
  method RunConsensus(agents: int) returns (resolution: Option<Resolution>)
    ensures resolution == Consensus(agents)
  {
    var votes := [];
    var i := 0;
    while i < agents
      invariant 0 <= i && (i == 0 || i <= agents)
      invariant votes == seq(i, _ => AgentFavor)
    {
      votes := votes + [AgentFavor];
      i := i + 1;
    }
    if votes == [] {
      return None;
    }
    var winner := Tally(votes);
    PanelOutcome(agents, winner);
    return Some(winner);
  }

  /** The tallies count every vote cast so far, and `order` lists their keys by first vote. */
  ghost predicate Tallied(votes: seq<Resolution>, tallies: map<Resolution, nat>, order: seq<Resolution>) {
    && (forall v :: CountOf(votes, v) == if v in tallies then tallies[v] else 0)
    && (forall v :: v in order <==> v in tallies)
    && (forall v :: v in tallies <==> v in votes)
    && (forall j, k | 0 <= j < k < |order| :: Before(votes, order[j], order[k]) && order[j] != order[k])
  }

  /** Counts the votes into a dictionary, which keeps its keys in the order of their first vote, and takes the
      first key with the highest count. */
  method Tally(votes: seq<Resolution>) returns (winner: Resolution)
    requires votes != []
    ensures Wins(votes, winner)
  {
    var tallies, order := CountVotes(votes);
    assert votes[0] in tallies;
    winner := order[0];
    var best := 0;
    for k := 1 to |order|
      invariant 0 <= best < k && winner == order[best]
      invariant forall j | 0 <= j < best :: tallies[order[j]] < tallies[winner]
      invariant forall j | best <= j < k :: tallies[order[j]] <= tallies[winner]
    {
      if tallies[order[k]] > tallies[winner] {
        winner := order[k];
        best := k;
      }
    }
    FirstBestWins(votes, tallies, order, best);
  }

  lemma FirstBestWins(votes: seq<Resolution>, tallies: map<Resolution, nat>, order: seq<Resolution>, best: nat)
    requires Tallied(votes, tallies, order) && best < |order|
    requires forall j | 0 <= j < best :: tallies[order[j]] < tallies[order[best]]
    requires forall j | best <= j < |order| :: tallies[order[j]] <= tallies[order[best]]
    ensures Wins(votes, order[best])
  {
    var v := order[best];
    assert v in order;
    forall w
      ensures CountOf(votes, w) <= CountOf(votes, v)
      ensures w != v && CountOf(votes, w) == CountOf(votes, v) ==> Before(votes, v, w)
    {
      NoVotes(votes);
      if w in order {
        var j :| 0 <= j < |order| && order[j] == w;
      }
    }
  }

  method CountVotes(votes: seq<Resolution>) returns (tallies: map<Resolution, nat>, order: seq<Resolution>)
    ensures Tallied(votes, tallies, order)
  {
    tallies, order := map[], [];
    for i := 0 to |votes|
      invariant Tallied(votes[..i], tallies, order)
    {
      var vote := votes[i];
      assert votes[..i + 1] == votes[..i] + [vote];
      TallyOne(votes[..i], tallies, order, vote);
      if vote in tallies {
        tallies := tallies[vote := tallies[vote] + 1];
      } else {
        tallies := tallies[vote := 1];
        order := order + [vote];
      }
    }
    assert votes[..|votes|] == votes;
  }

  lemma TallyOne(votes: seq<Resolution>, tallies: map<Resolution, nat>, order: seq<Resolution>, vote: Resolution)
    requires Tallied(votes, tallies, order)
    ensures if vote in tallies then Tallied(votes + [vote], tallies[vote := tallies[vote] + 1], order)
            else Tallied(votes + [vote], tallies[vote := 1], order + [vote])
  {
    var order' := if vote in tallies then order else order + [vote];
    CountsAppend(votes, vote);
    forall j, k | 0 <= j < k < |order'|
      ensures Before(votes + [vote], order'[j], order'[k]) && order'[j] != order'[k]
    {
      if k < |order| {
        BeforeGrows(votes, vote, order[j], order[k]);
      } else {
        assert order[j] in order;
        NewcomerIsLater(votes, vote, order[j]);
      }
    }
  }

  lemma CountsAppend(votes: seq<Resolution>, vote: Resolution)
    ensures forall v :: CountOf(votes + [vote], v) == CountOf(votes, v) + if v == vote then 1 else 0
  {
    assert (votes + [vote])[..|votes|] == votes;
  }

  lemma NewcomerIsLater(votes: seq<Resolution>, vote: Resolution, v: Resolution)
    requires v in votes && vote !in votes
    ensures Before(votes + [vote], v, vote)
  {
    var k :| 0 <= k < |votes| && votes[k] == v;
    assert (votes + [vote])[..k] == votes[..k] && (votes + [vote])[k] == v;
  }

  lemma BeforeGrows(votes: seq<Resolution>, vote: Resolution, v: Resolution, w: Resolution)
    requires Before(votes, v, w)
    ensures Before(votes + [vote], v, w)
  {
    var i :| 0 <= i < |votes| && votes[i] == v && w !in votes[..i];
    var longer := votes + [vote];
    assert longer[..i] == votes[..i] && longer[i] == v;
  }

  lemma {:induction false} NoVotes(votes: seq<Resolution>)
    ensures forall v :: v in votes <==> CountOf(votes, v) > 0
    decreases |votes|
  {
    if votes != [] {
      NoVotes(votes[..|votes| - 1]);
      assert votes == votes[..|votes| - 1] + [votes[|votes| - 1]];
    }
  }
}
