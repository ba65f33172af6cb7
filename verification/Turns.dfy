/** What entering a height and voting do, on any node of any run: what an elected
    node proposes, where a healed member rejoins, how a faulty node votes. */
module Turns {
  import opened Wrappers
  import opened Types
  import opened Ledger
  import opened Chains
  import opened Elections
  import opened Votes
  import opened Proposals
  import opened Consensus
  import opened Invariants
  import opened Convictions

  /** Node i's next height, entered with what the mempool gave. */
  ghost predicate CanEnter(s: System, i: nat) {
    i < |s.nodes| && Runnable(s.nodes[i]) && s.nodes[i].phase.Ready?
  }

  /** A node that finds itself elected broadcasts one proposal, carrying exactly the
      drained transactions that apply to its ledger; any other node broadcasts
      nothing. */
  lemma ElectedProposes(cfg: Config, events: seq<Event>, i: nat, now: int, drained: seq<Transaction>, at: set<int>)
    requires cfg.Valid() && CanEnter(Consensus.After(cfg, events), i)
    requires Survive(Consensus.After(cfg, events).nodes[i].chain.state, drained, at)
    ensures i < |Consensus.After(cfg, events + [BeginHeight(i, now, drained)]).nodes|
    ensures
      var s, t := Consensus.After(cfg, events), Consensus.After(cfg, events + [BeginHeight(i, now, drained)]);
      var n, r := s.nodes[i], t.nodes[i];
      if r.phase.AwaitingProposal? && r.views != [] && r.views[|r.views| - 1].elected == n.self.address then
        exists b :: && t.bus == s.bus + {ProposalMsg(b)} && b.transactions == Picked(drained, at, |drained|)
                    && b.header.height == n.height && b.header.proposer == n.self.address
      else t.bus == s.bus
  {
    hide Enter, Next, Elected, Propose, Survive, Picked;
    var s, more := Consensus.After(cfg, events), events + [BeginHeight(i, now, drained)];
    assert more[..|events|] == events;
    var n := s.nodes[i];
    var (r, out) := Begin(n, now, drained);
    assert Consensus.After(cfg, more) == Put(s, i, (r, out));
    assert s.bus + {} == s.bus;
    ProposalCarries(n.chain.Tip().header, n.chain.state, n.height, n.self, now, drained, at);
  }

  /** On every node of every run, a member healed as a height is entered rejoins at
      the back of those who had weight: level with one of them and ahead of none. As
      long as priorities are in range, it is elected there only if it outweighs or
      equals every other member that kept its weight. */
  lemma NodeHealsToBack(cfg: Config, events: seq<Event>, i: nat, k: nat, a: Address)
    requires cfg.Valid() && i < |Consensus.After(cfg, events).nodes|
    requires k < |Consensus.After(cfg, events).nodes[i].views| && k <= |Consensus.After(cfg, events).nodes[i].commits|
    requires a in Consensus.After(cfg, events).nodes[i].views[k].healed
    ensures
      var n := Consensus.After(cfg, events).nodes[i];
      var v, before := n.views[k], ElectionAt(cfg, n, k);
      && before.Valid() && a in before.addresses
      && var e := Enter(before, v.offenders, v.healed, v.ledger.delegations);
         var q := IndexOf(before.addresses, a);
         && v.election == Next(e) && Elected(e) == Some(v.elected) && !e.slashed[q]
         && AtBack(e.priorities[q], before.priorities, Weights(SlashAll(before, v.offenders)), -1)
         && (InRange(e) && v.elected == a ==>
               forall j | 0 <= j < |before.addresses| && before.addresses[j] != a && before.addresses[j] !in v.healed
                          && 0 < Effective(SlashAll(before, v.offenders), j) :: Effective(e, j) <= Effective(e, q))
  {
    hide Consensus.After, SystemOk, Enter, Next, Elected, AtBack, InRange, SlashAll, Weights;
    AlwaysOk(cfg, events);
    var n := Consensus.After(cfg, events).nodes[i];
    ViewEntry(cfg, Consensus.After(cfg, events), i, k);
    var v, before := n.views[k], ElectionAt(cfg, n, k);
    HealedEnterAtBack(before, v.offenders, v.healed, v.ledger.delegations, a);
    var e := Enter(before, v.offenders, v.healed, v.ledger.delegations);
    if InRange(e) && v.elected == a {
      forall j | 0 <= j < |before.addresses| && before.addresses[j] != a && before.addresses[j] !in v.healed
                 && 0 < Effective(SlashAll(before, v.offenders), j)
        ensures Effective(e, j) <= Effective(e, IndexOf(before.addresses, a))
      {
        HealedWaits(before, v.offenders, v.healed, v.ledger.delegations, a, j);
      }
    }
  }

  lemma ViewEntry(cfg: Config, s: System, i: nat, k: nat)
    requires cfg.Valid() && SystemOk(cfg, s) && i < |s.nodes| && k < |s.nodes[i].views| && k <= |s.nodes[i].commits|
    ensures
      var n := s.nodes[i];
      var v, before := n.views[k], ElectionAt(cfg, n, k);
      && before.Valid() && v.offenders + v.healed <= Elements(before.addresses)
      && var e := Enter(before, v.offenders, v.healed, v.ledger.delegations);
         v.election == Next(e) && Elected(e) == Some(v.elected)
  {
    hide Enter, Next, Elected, CommitsBacked, TallyExact, StashSent;
    assert NodeOk(cfg, s.bus, i, s.nodes[i]);
    assert ViewOk(cfg, s.nodes[i], k);
  }

  // ----- faults -----

  /** Voting on a block that passes, a node that is not faulty casts one vote, for it;
      a faulty one casts a second that conflicts with the first. */
  lemma VotesCast(n: Node, m: Message)
    requires Runnable(n) && n.phase.AwaitingProposal? && Wanted(n, m) && CheckCandidate(n.chain, m.block).Success?
    requires n.self.WellFormed()
    ensures
      var first, out := VoteMsg(NewVote(n.height, m.block.Hash(), n.self)), Accept(n, m).1;
      if n.byzantine then exists second :: out == {first, second} && Conflict(first, second, n.height)
      else out == {first}
  {
    hide CheckCandidate;
    var first, second := NewVote(n.height, m.block.Hash(), n.self), NewVote(n.height, EQUIVOCATION, n.self);
    NewVoteVerifies(n.height, m.block.Hash(), n.self, n.height, m.block.Hash());
    NewVoteVerifies(n.height, EQUIVOCATION, n.self, n.height, EQUIVOCATION);
    assert {VoteMsg(first)} + {VoteMsg(second)} == {VoteMsg(first), VoteMsg(second)};
    assert {VoteMsg(first)} + {} == {VoteMsg(first)};
    assert Conflict(VoteMsg(first), VoteMsg(second), n.height);
  }

  /** A node stops being faulty exactly when it enters a height at which its own slash
      has come due. */
  lemma QuietFromSlash(n: Node, now: int, drained: seq<Transaction>)
    requires Runnable(n) && n.self.address in n.election.addresses
    ensures
      var due := n.self.address in n.detector.pendingSlash && n.detector.pendingSlash[n.self.address] <= n.height;
      Begin(n, now, drained).0.byzantine == (n.byzantine && !due)
  {
    hide Enter, Next, Elected, Propose, Fire;
  }
}
