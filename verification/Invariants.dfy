/** What every node keeps in every reachable state, whatever is on the bus. */
module Invariants {
  import opened Wrappers
  import opened Words
  import opened Types
  import opened Ledger
  import opened Chains
  import opened Elections
  import opened Votes
  import opened Proposals
  import opened Consensus

  /** Each voter is a member whose verified vote for the block is on the bus. */
  ghost predicate Backed(bus: set<Message>, members: seq<Address>, voters: set<Address>, height: int, hash: Digest) {
    forall a | a in voters :: a in members && HasVote(bus, a, height, hash)
  }

  ghost predicate Sits(cfg: Config, i: nat, n: Node)
    requires cfg.Valid() && i < |cfg.validators|
  {
    && n.self == cfg.validators[i]
    && n.chain.blocks != []
    && n.chain.Tip().header == TipAt(cfg, n, |n.commits|)
    && n.chain.state == LedgerAt(cfg, n, |n.commits|)
    && n.height == FirstHeight(cfg) + |n.commits| == n.chain.Tip().header.height + 1
    && |n.commits| <= |n.views| <= |n.commits| + 1
    && (n.phase.Ready? ==> |n.views| == |n.commits|)
    && (n.phase.AwaitingProposal? || n.phase.Tallying? ==> |n.views| == |n.commits| + 1)
    && n.election.Valid() && n.election.addresses == Addresses(cfg.validators)
    && (!n.phase.Crashed? ==> n.election == ElectionAt(cfg, n, |n.views|))
  }

  ghost predicate ViewFrom(v: View, before: ElectionView, tip: Header, ledger: State, self: Address, height: int) {
    && before.Valid() && v.tip == tip && v.ledger == ledger
    && (var entered := Enter(before, v.offenders, v.healed, ledger.delegations);
        v.election == Next(entered) && Elected(entered) == Some(v.elected))
    && v.offenders + v.healed <= Elements(before.addresses)
    && (v.proposal.Some? ==>
          && v.elected == self
          && v.proposal.value.header.height == height
          && v.proposal.value.header.proposer == self
          && Acceptable(tip, ledger, v.proposal.value))
  }

  ghost predicate ViewOk(cfg: Config, n: Node, k: nat)
    requires cfg.Valid() && k < |n.views| && k <= |n.commits|
  {
    ViewFrom(n.views[k], ElectionAt(cfg, n, k), TipAt(cfg, n, k), LedgerAt(cfg, n, k), n.self.address,
             FirstHeight(cfg) + k)
  }

  /** Every height was entered from the last committed block and the last election. */
  ghost predicate ViewsFollow(cfg: Config, n: Node)
    requires cfg.Valid() && |n.views| <= |n.commits| + 1
  {
    forall k | 0 <= k < |n.views| :: ViewOk(cfg, n, k)
  }

  ghost predicate CommitFrom(bus: set<Message>, c: Commitment, e: ElectionView, tip: Header, ledger: State,
                             height: int) {
    && CheckAgainst(tip, ledger, c.block) == Success(c.ledger)
    && e.Valid()
    && Backed(bus, e.addresses, c.voters, height, c.block.Hash())
    && QuorumReached(e, Uint64(WeightOf(e, c.voters)))
  }

  ghost predicate CommitOk(cfg: Config, bus: set<Message>, n: Node, k: nat)
    requires cfg.Valid() && k < |n.commits| && k < |n.views|
  {
    CommitFrom(bus, n.commits[k], n.views[k].election, TipAt(cfg, n, k), LedgerAt(cfg, n, k), FirstHeight(cfg) + k)
  }

  /** Every committed block passed its checks and had a quorum of votes. */
  ghost predicate CommitsBacked(cfg: Config, bus: set<Message>, n: Node)
    requires cfg.Valid() && |n.commits| <= |n.views|
  {
    forall k | 0 <= k < |n.commits| :: CommitOk(cfg, bus, n, k)
  }

  /** The tally in progress counts exactly the weight of the voters it names. */
  ghost predicate TallyExact(bus: set<Message>, n: Node)
    requires n.chain.blocks != [] && n.election.Valid()
  {
    n.phase.Tallying? ==>
      && CheckCandidate(n.chain, n.phase.candidate).Success?
      && n.phase.accepted == Uint64(WeightOf(n.election, n.phase.counted))
      && Backed(bus, n.election.addresses, n.phase.counted, n.height, n.phase.candidate.Hash())
  }

  ghost predicate StashSent(bus: set<Message>, n: Node) {
    forall m | m in n.pending :: m in bus
  }

  ghost predicate NodeOk(cfg: Config, bus: set<Message>, i: nat, n: Node)
    requires cfg.Valid() && i < |cfg.validators|
  {
    && Sits(cfg, i, n) && ViewsFollow(cfg, n) && CommitsBacked(cfg, bus, n) && TallyExact(bus, n) && StashSent(bus, n)
  }

  ghost predicate SystemOk(cfg: Config, s: System)
    requires cfg.Valid()
  {
    |s.nodes| == |cfg.validators| && forall i | 0 <= i < |s.nodes| :: NodeOk(cfg, s.bus, i, s.nodes[i])
  }

  // ----- a growing bus -----

  lemma BackedGrows(bus: set<Message>, more: set<Message>, members: seq<Address>, voters: set<Address>, height: int,
                    hash: Digest)
    requires bus <= more && Backed(bus, members, voters, height, hash)
    ensures Backed(more, members, voters, height, hash)
  {
    forall a | a in voters ensures HasVote(more, a, height, hash) {
      var m :| m in bus && VotedFor(m, a, height, hash);
      assert m in more;
    }
  }

  lemma NodeOkGrows(cfg: Config, bus: set<Message>, more: set<Message>, i: nat, n: Node)
    requires cfg.Valid() && i < |cfg.validators| && bus <= more && NodeOk(cfg, bus, i, n)
    ensures NodeOk(cfg, more, i, n)
  {
    hide ViewsFollow, QuorumReached, CheckAgainst, Backed;
    CommitsGrow(cfg, bus, more, n);
    if n.phase.Tallying? {
      BackedGrows(bus, more, n.election.addresses, n.phase.counted, n.height, n.phase.candidate.Hash());
    }
  }

  lemma CommitGrows(bus: set<Message>, more: set<Message>, c: Commitment, e: ElectionView, tip: Header, ledger: State,
                    height: int)
    requires bus <= more && CommitFrom(bus, c, e, tip, ledger, height)
    ensures CommitFrom(more, c, e, tip, ledger, height)
  {
    hide QuorumReached, CheckAgainst, Backed;
    BackedGrows(bus, more, e.addresses, c.voters, height, c.block.Hash());
  }

  lemma CommitsGrow(cfg: Config, bus: set<Message>, more: set<Message>, n: Node)
    requires cfg.Valid() && |n.commits| <= |n.views| && bus <= more && CommitsBacked(cfg, bus, n)
    ensures CommitsBacked(cfg, more, n)
  {
    hide CommitFrom;
    forall k | 0 <= k < |n.commits| ensures CommitOk(cfg, more, n, k) {
      assert CommitOk(cfg, bus, n, k);
      CommitGrows(bus, more, n.commits[k], n.views[k].election, TipAt(cfg, n, k), LedgerAt(cfg, n, k),
                  FirstHeight(cfg) + k);
    }
  }

  // ----- histories only grow -----

  ghost predicate Extends(n: Node, r: Node) {
    n.self == r.self && n.views <= r.views && n.commits <= r.commits
  }

  lemma ViewKept(cfg: Config, n: Node, r: Node, k: nat)
    requires cfg.Valid() && k < |n.views| && k <= |n.commits| && Extends(n, r) && ViewOk(cfg, n, k)
    ensures ViewOk(cfg, r, k)
  {
    hide ViewFrom;
  }

  lemma CommitKept(cfg: Config, bus: set<Message>, n: Node, r: Node, k: nat)
    requires cfg.Valid() && k < |n.views| && k < |n.commits| && Extends(n, r) && CommitOk(cfg, bus, n, k)
    ensures CommitOk(cfg, bus, r, k)
  {
    hide CommitFrom;
  }

  lemma ViewsKept(cfg: Config, n: Node, r: Node)
    requires cfg.Valid() && |n.views| <= |n.commits| + 1 && Extends(n, r) && ViewsFollow(cfg, n)
    ensures forall k | 0 <= k < |n.views| :: ViewOk(cfg, r, k)
  {
    hide ViewOk;
    forall k | 0 <= k < |n.views| ensures ViewOk(cfg, r, k) {
      ViewKept(cfg, n, r, k);
    }
  }

  lemma CommitsKept(cfg: Config, bus: set<Message>, n: Node, r: Node)
    requires cfg.Valid() && |n.commits| <= |n.views| && Extends(n, r) && CommitsBacked(cfg, bus, n)
    ensures forall k | 0 <= k < |n.commits| :: CommitOk(cfg, bus, r, k)
  {
    hide CommitOk;
    forall k | 0 <= k < |n.commits| ensures CommitOk(cfg, bus, r, k) {
      CommitKept(cfg, bus, n, r, k);
    }
  }

  /** Same self, chain and history. */
  ghost predicate SameHistory(n: Node, r: Node) {
    n.self == r.self && n.chain == r.chain && n.height == r.height && n.views == r.views && n.commits == r.commits
  }

  lemma HistoryKept(cfg: Config, bus: set<Message>, n: Node, r: Node)
    requires cfg.Valid() && |n.commits| <= |n.views| <= |n.commits| + 1 && SameHistory(n, r)
    requires ViewsFollow(cfg, n) && CommitsBacked(cfg, bus, n)
    ensures ViewsFollow(cfg, r) && CommitsBacked(cfg, bus, r)
  {
    hide ViewOk, CommitOk;
    ViewsKept(cfg, n, r);
    CommitsKept(cfg, bus, n, r);
  }

  // ----- beginning a height -----

  lemma BeginOk(cfg: Config, bus: set<Message>, i: nat, n: Node, now: int, drained: seq<Transaction>)
    requires cfg.Valid() && i < |cfg.validators| && NodeOk(cfg, bus, i, n) && n.phase.Ready?
    ensures
      var (r, out) := Begin(n, now, drained);
      NodeOk(cfg, bus + out, i, r)
  {
    hide ViewOk, CommitOk, Enter, Next, Elected, CheckAgainst, Propose;
    var (r, out) := Begin(n, now, drained);
    ViewsKept(cfg, n, r);
    CommitsKept(cfg, bus, n, r);
    if |r.views| > |n.views| {
      NewView(cfg, i, n, now, drained);
    }
    CommitsGrow(cfg, bus, bus + out, r);
    BeginSits(cfg, i, n, now, drained);
  }

  lemma BeginSits(cfg: Config, i: nat, n: Node, now: int, drained: seq<Transaction>)
    requires cfg.Valid() && i < |cfg.validators| && Sits(cfg, i, n) && n.phase.Ready?
    ensures Sits(cfg, i, Begin(n, now, drained).0)
  {
    hide Enter, Next, Elected, Propose;
  }

  lemma NewView(cfg: Config, i: nat, n: Node, now: int, drained: seq<Transaction>)
    requires cfg.Valid() && i < |cfg.validators| && Sits(cfg, i, n) && n.phase.Ready?
    requires |Begin(n, now, drained).0.views| == |n.views| + 1
    ensures ViewOk(cfg, Begin(n, now, drained).0, |n.views|)
  {
    hide Enter, Next, Elected, Acceptable, Propose, ElectionView.Valid;
    assert n.self in cfg.validators;
    ProposalAcceptable(n.chain.Tip().header, n.chain.state, n.self, now, drained);
  }

  // ----- waiting and tallying -----

  lemma AcceptOk(cfg: Config, bus: set<Message>, i: nat, n: Node, m: Message)
    requires cfg.Valid() && i < |cfg.validators| && NodeOk(cfg, bus, i, n) && Wanted(n, m) && m in bus
    ensures
      var (r, out) := Accept(n, m);
      NodeOk(cfg, bus + out, i, r)
  {
    hide ViewsFollow, CommitsBacked, CheckAgainst, StakeOf, WeightOf;
    var (r, out) := Accept(n, m);
    HistoryKept(cfg, bus, n, r);
    CommitsGrow(cfg, bus, bus + out, r);
    if n.phase.AwaitingProposal? {
      WeightEmpty(n.election);
    } else {
      CountOk(bus, n, m);
    }
  }

  lemma CountOk(bus: set<Message>, n: Node, m: Message)
    requires n.chain.blocks != [] && n.election.Valid() && TallyExact(bus, n) && n.phase.Tallying?
    requires Wanted(n, m) && m in bus
    ensures TallyExact(bus, Accept(n, m).0)
  {
    hide CheckAgainst, StakeOf, WeightOf;
    var r := Accept(n, m).0;
    if r != n {
      var a := m.vote.voter;
      WeightInsert(n.election, n.phase.counted, a);
      Uint64Absorbs(WeightOf(n.election, n.phase.counted), StakeOf(n.election, a));
      assert VotedFor(m, a, n.height, n.phase.candidate.Hash());
    }
  }

  lemma UnstashOk(cfg: Config, bus: set<Message>, i: nat, n: Node)
    requires cfg.Valid() && i < |cfg.validators| && NodeOk(cfg, bus, i, n) && InStash(n)
    ensures
      var (r, out) := Unstash(n);
      NodeOk(cfg, bus + out, i, r)
  {
    hide ViewsFollow, CommitsBacked, Accept;
    var k := FirstWanted(n, n.pending);
    var q := n.(pending := n.pending[..k] + n.pending[k + 1..]);
    HistoryKept(cfg, bus, n, q);
    AcceptOk(cfg, bus, i, q, n.pending[k]);
  }

  lemma ReceiveOk(cfg: Config, bus: set<Message>, i: nat, n: Node, m: Message)
    requires cfg.Valid() && i < |cfg.validators| && NodeOk(cfg, bus, i, n) && m in bus
    ensures
      var (r, out) := Receive(n, cfg.healDelay, m);
      NodeOk(cfg, bus + out, i, r)
  {
    hide ViewsFollow, CommitsBacked, Accept, Observe;
    var seen := n.(detector := Observe(n.detector, cfg.healDelay, m));
    HistoryKept(cfg, bus, n, seen);
    if Wanted(n, m) {
      AcceptOk(cfg, bus, i, seen, m);
    } else {
      var r := seen.(pending := n.pending + [m]);
      HistoryKept(cfg, bus, n, r);
      assert bus + {} == bus;
    }
  }

  // ----- finishing a height -----

  lemma {:induction false} PruneStashSent(bus: set<Message>, pending: seq<Message>, h: int)
    requires forall m | m in pending :: m in bus
    ensures forall m | m in PruneStash(pending, h) :: m in bus
  {
    PruneKeepsLater(pending, h);
  }

  lemma FinishOk(cfg: Config, bus: set<Message>, i: nat, n: Node)
    requires cfg.Valid() && i < |cfg.validators| && NodeOk(cfg, bus, i, n) && n.phase.Tallying? && !Waiting(n)
    ensures NodeOk(cfg, bus, i, Finish(n, cfg.paced))
  {
    hide ViewsFollow, CommitsBacked, CheckAgainst, Forget;
    PruneStashSent(bus, n.pending, n.height);
    FinishSits(cfg, i, n);
    FinishHistory(cfg, bus, i, n);
  }

  lemma FinishSits(cfg: Config, i: nat, n: Node)
    requires cfg.Valid() && i < |cfg.validators| && Sits(cfg, i, n) && n.phase.Tallying?
    requires CheckCandidate(n.chain, n.phase.candidate).Success?
    ensures Sits(cfg, i, Finish(n, cfg.paced))
  {
    hide CheckAgainst, Forget, PruneStash;
    PassedHeight(n.chain, n.phase.candidate);
    var r := Finish(n, cfg.paced);
    var b := n.phase.candidate;
    assert r.chain.Tip() == Commit(n.chain, b).Tip() == b;
    assert ElectionAt(cfg, r, |r.views|) == ElectionAt(cfg, n, |n.views|);
  }

  lemma PassedHeight(c: ChainView, b: Block)
    requires c.blocks != [] && CheckCandidate(c, b).Success?
    ensures b.header.height == c.Tip().header.height + 1
  {
    hide Apply;
  }

  lemma FinishHistory(cfg: Config, bus: set<Message>, i: nat, n: Node)
    requires cfg.Valid() && i < |cfg.validators| && NodeOk(cfg, bus, i, n) && n.phase.Tallying? && !Waiting(n)
    ensures
      var r := Finish(n, cfg.paced);
      |r.commits| == |r.views| && ViewsFollow(cfg, r) && CommitsBacked(cfg, bus, r)
  {
    hide ViewOk, CommitOk, CheckAgainst, Forget, PruneStash, Prune, Commit;
    var r := Finish(n, cfg.paced);
    ViewsKept(cfg, n, r);
    CommitsKept(cfg, bus, n, r);
    NewCommit(cfg, bus, i, n);
  }

  lemma NewCommit(cfg: Config, bus: set<Message>, i: nat, n: Node)
    requires cfg.Valid() && i < |cfg.validators| && NodeOk(cfg, bus, i, n) && n.phase.Tallying? && !Waiting(n)
    ensures |Finish(n, cfg.paced).commits| == |n.commits| + 1
    ensures CommitOk(cfg, bus, Finish(n, cfg.paced), |n.commits|)
  {
    hide ViewsFollow, CommitsBacked, WeightOf, QuorumReached, Apply, Forget, PruneStash, Prune, Commit;
  }

  // ----- every run -----

  lemma PutOk(cfg: Config, s: System, i: nat, r: (Node, set<Message>))
    requires cfg.Valid() && SystemOk(cfg, s) && i < |s.nodes| && NodeOk(cfg, s.bus + r.1, i, r.0)
    ensures SystemOk(cfg, Put(s, i, r))
  {
    hide NodeOk;
    var nodes := s.nodes[i := r.0];
    forall j | 0 <= j < |nodes| ensures NodeOk(cfg, s.bus + r.1, j, nodes[j]) {
      if j != i {
        NodeOkGrows(cfg, s.bus, s.bus + r.1, j, s.nodes[j]);
      }
    }
  }

  lemma StepOk(cfg: Config, s: System, ev: Event)
    requires cfg.Valid() && SystemOk(cfg, s)
    ensures SystemOk(cfg, Step(cfg, s, ev))
  {
    hide NodeOk, Begin, Unstash, Receive, Finish;
    if Step(cfg, s, ev) != s {
      match ev
      case BeginHeight(i, now, drained) =>
        BeginOk(cfg, s.bus, i, s.nodes[i], now, drained);
        PutOk(cfg, s, i, Begin(s.nodes[i], now, drained));
      case FromStash(i) =>
        UnstashOk(cfg, s.bus, i, s.nodes[i]);
        PutOk(cfg, s, i, Unstash(s.nodes[i]));
      case Deliver(i, m) =>
        ReceiveOk(cfg, s.bus, i, s.nodes[i], m);
        PutOk(cfg, s, i, Receive(s.nodes[i], cfg.healDelay, m));
      case FinishHeight(i) =>
        FinishOk(cfg, s.bus, i, s.nodes[i]);
        assert s.bus + {} == s.bus;
        PutOk(cfg, s, i, (Finish(s.nodes[i], cfg.paced), {}));
      case MakeFaulty(i) =>
        FaultyOk(cfg, s.bus, i, s.nodes[i]);
        assert s.bus + {} == s.bus;
        PutOk(cfg, s, i, (s.nodes[i].(byzantine := true), {}));
      case Inject(m) =>
        forall j | 0 <= j < |s.nodes| ensures NodeOk(cfg, s.bus + {m}, j, s.nodes[j]) {
          NodeOkGrows(cfg, s.bus, s.bus + {m}, j, s.nodes[j]);
        }
    }
  }

  lemma FaultyOk(cfg: Config, bus: set<Message>, i: nat, n: Node)
    requires cfg.Valid() && i < |cfg.validators| && NodeOk(cfg, bus, i, n)
    ensures NodeOk(cfg, bus, i, n.(byzantine := true))
  {
    hide ViewsFollow, CommitsBacked;
    HistoryKept(cfg, bus, n, n.(byzantine := true));
  }

  lemma {:induction false} AlwaysOk(cfg: Config, events: seq<Event>)
    requires cfg.Valid()
    ensures SystemOk(cfg, After(cfg, events))
  {
    hide NodeOk, Step;
    if events == [] {
      forall i | 0 <= i < |cfg.validators| ensures NodeOk(cfg, {}, i, FirstNode(cfg, i)) {
        FirstOk(cfg, i);
      }
    } else {
      AlwaysOk(cfg, events[..|events| - 1]);
      StepOk(cfg, After(cfg, events[..|events| - 1]), events[|events| - 1]);
    }
  }

  lemma FirstOk(cfg: Config, i: nat)
    requires cfg.Valid() && i < |cfg.validators|
    ensures NodeOk(cfg, {}, i, FirstNode(cfg, i))
  {
  }

  // ----- histories only grow, over the whole system -----

  ghost predicate SystemExtends(s: System, t: System) {
    s.bus <= t.bus && |s.nodes| == |t.nodes| && forall i | 0 <= i < |s.nodes| :: Extends(s.nodes[i], t.nodes[i])
  }

  lemma StepExtends(cfg: Config, s: System, ev: Event)
    ensures SystemExtends(s, Step(cfg, s, ev))
  {
    hide Enter, Next, Elected, Propose, CheckCandidate, Observe, Commit, Prune, QuorumReached, StakeOf, VerifyVote;
    if Step(cfg, s, ev) != s && ev.FromStash? {
      var n := s.nodes[ev.i];
      UnstashExtends(n);
    }
  }

  lemma UnstashExtends(n: Node)
    requires Runnable(n) && InStash(n)
    ensures Extends(n, Unstash(n).0)
  {
    hide CheckCandidate, StakeOf, VerifyVote;
    var k := FirstWanted(n, n.pending);
  }
}
