/** Every run completes: in a cluster without faults, until all nodes have committed
    the heights asked for, some node can move; every move counts, and there are
    only so many. */
module Completion {
  import opened Wrappers
  import opened Words
  import opened Sums
  import opened Types
  import opened Ledger
  import opened Chains
  import opened Elections
  import opened Votes
  import opened Proposals
  import opened Consensus
  import opened Invariants
  import opened Delivery
  import opened Convictions
  import opened Agreement
  import opened HonestRuns
  import opened Solvency
  import opened Progress
  import Accumulator
  import NoHalt
  import NodeLoop
  import SlashFree

  // ----- what nodes have put on the bus -----

  /** An elected node proposed; a tallying node voted; so did one that committed. */
  ghost predicate Posted(bus: set<Message>, n: Node) {
    && (forall k | 0 <= k < |n.views| :: ViewPosted(bus, n.views[k], n.self.address))
    && (n.phase.Tallying? ==>
          && n.phase.candidate.header.height == n.height
          && VoteMsg(NewVote(n.height, n.phase.candidate.Hash(), n.self)) in bus)
    && forall c | c in n.commits :: VoteMsg(NewVote(c.block.header.height, c.block.Hash(), n.self)) in bus
  }

  ghost predicate ViewPosted(bus: set<Message>, v: View, self: Address) {
    v.elected == self ==> v.proposal.Some? && ProposalMsg(v.proposal.value) in bus
  }

  /** Every vote on the bus is a member's and verifies. */
  ghost predicate Genuine(cfg: Config, bus: set<Message>) {
    forall m | m in bus && m.VoteMsg? :: m.vote.voter in Addresses(cfg.validators) && VerifyVote(m.vote)
  }

  ghost predicate AllPosted(cfg: Config, s: System) {
    Genuine(cfg, s.bus) && forall i | 0 <= i < |s.nodes| :: Posted(s.bus, s.nodes[i])
  }

  lemma PostedGrows(bus: set<Message>, more: set<Message>, n: Node)
    requires bus <= more && Posted(bus, n)
    ensures Posted(more, n)
  {
  }

  lemma BeginPosted(bus: set<Message>, n: Node, now: int, drained: seq<Transaction>)
    requires Runnable(n) && n.phase.Ready? && Posted(bus, n)
    ensures
      var (r, out) := Begin(n, now, drained);
      Posted(bus + out, r) && forall m | m in out :: m.ProposalMsg?
  {
    hide Enter, Next, Elected, Propose, NewVote;
    var (r, out) := Begin(n, now, drained);
    forall k | 0 <= k < |r.views| ensures ViewPosted(bus + out, r.views[k], n.self.address) {
      if k < |n.views| {
        assert ViewPosted(bus, n.views[k], n.self.address);
      }
    }
  }

  lemma AcceptPosted(cfg: Config, bus: set<Message>, n: Node, m: Message)
    requires Runnable(n) && Wanted(n, m) && Posted(bus, n) && cfg.Valid() && n.self in cfg.validators
    ensures
      var (r, out) := Accept(n, m);
      Posted(bus + out, r) && Genuine(cfg, out)
  {
    hide CheckCandidate, StakeOf, NewVote;
    var (r, out) := Accept(n, m);
    if n.phase.AwaitingProposal? {
      OwnVoteGenuine(cfg, n.self, n.height, m.block.Hash());
      OwnVoteGenuine(cfg, n.self, n.height, EQUIVOCATION);
    }
  }

  lemma OwnVoteGenuine(cfg: Config, v: Validator, height: int, hash: Digest)
    requires cfg.Valid() && v in cfg.validators
    ensures
      var vote := NewVote(height, hash, v);
      vote.hash == hash && vote.voter in Addresses(cfg.validators) && VerifyVote(vote)
  {
    var i :| 0 <= i < |cfg.validators| && cfg.validators[i] == v;
    assert Addresses(cfg.validators)[i] == v.address;
    NewVoteVerifies(height, hash, v, height, hash);
  }

  lemma SamePosted(bus: set<Message>, n: Node, r: Node)
    requires Posted(bus, n) && SameHistory(n, r) && r.phase == n.phase
    ensures Posted(bus, r)
  {
  }

  lemma UnstashPosted(cfg: Config, bus: set<Message>, n: Node)
    requires Runnable(n) && InStash(n) && Posted(bus, n) && cfg.Valid() && n.self in cfg.validators
    ensures
      var (r, out) := Unstash(n);
      Posted(bus + out, r) && Genuine(cfg, out)
  {
    hide Accept, Posted, Genuine;
    var k := FirstWanted(n, n.pending);
    var q := n.(pending := n.pending[..k] + n.pending[k + 1..]);
    SamePosted(bus, n, q);
    AcceptPosted(cfg, bus, q, n.pending[k]);
  }

  lemma ReceivePosted(cfg: Config, bus: set<Message>, n: Node, healDelay: int, m: Message)
    requires Runnable(n) && Posted(bus, n) && cfg.Valid() && n.self in cfg.validators
    ensures
      var (r, out) := Receive(n, healDelay, m);
      Posted(bus + out, r) && Genuine(cfg, out)
  {
    hide Accept, Posted, Observe;
    var seen := n.(detector := Observe(n.detector, healDelay, m));
    SamePosted(bus, n, seen);
    if Wanted(n, m) {
      AcceptPosted(cfg, bus, seen, m);
    } else {
      SamePosted(bus, n, seen.(pending := n.pending + [m]));
      assert bus + {} == bus;
    }
  }

  lemma FinishPosted(bus: set<Message>, n: Node, paced: bool)
    requires Runnable(n) && n.phase.Tallying? && Posted(bus, n)
    ensures Posted(bus, Finish(n, paced))
  {
    hide CheckAgainst, Prune, PruneStash, Forget, NewVote;
  }

  lemma PutPosted(cfg: Config, s: System, i: nat, r: (Node, set<Message>))
    requires i < |s.nodes| && AllPosted(cfg, s) && Posted(s.bus + r.1, r.0) && Genuine(cfg, r.1)
    ensures AllPosted(cfg, Put(s, i, r))
  {
    hide Posted, VerifyVote;
    var t := Put(s, i, r);
    forall j | 0 <= j < |t.nodes| ensures Posted(t.bus, t.nodes[j]) {
      if j != i {
        PostedGrows(s.bus, t.bus, s.nodes[j]);
      }
    }
  }

  lemma StepPosted(cfg: Config, s: System, ev: Event)
    requires cfg.Valid() && SystemOk(cfg, s) && AllPosted(cfg, s) && !ev.Inject? && !ev.MakeFaulty?
    ensures AllPosted(cfg, Consensus.Step(cfg, s, ev))
  {
    hide Begin, Unstash, Receive, Finish, Put, Posted, SystemOk, Genuine;
    if Consensus.Step(cfg, s, ev) != s {
      match ev
      case BeginHeight(i, now, drained) =>
        BeginPosted(s.bus, s.nodes[i], now, drained);
        NoVotes(cfg, Begin(s.nodes[i], now, drained).1);
        PutPosted(cfg, s, i, Begin(s.nodes[i], now, drained));
      case FromStash(i) =>
        MemberSits(cfg, s, i);
        UnstashPosted(cfg, s.bus, s.nodes[i]);
        PutPosted(cfg, s, i, Unstash(s.nodes[i]));
      case Deliver(i, m) =>
        MemberSits(cfg, s, i);
        ReceivePosted(cfg, s.bus, s.nodes[i], cfg.healDelay, m);
        PutPosted(cfg, s, i, Receive(s.nodes[i], cfg.healDelay, m));
      case FinishHeight(i) =>
        FinishPosted(s.bus, s.nodes[i], cfg.paced);
        NoVotes(cfg, {});
        assert s.bus + {} == s.bus;
        PutPosted(cfg, s, i, (Finish(s.nodes[i], cfg.paced), {}));
    }
  }

  lemma NoVotes(cfg: Config, out: set<Message>)
    requires forall m | m in out :: m.ProposalMsg?
    ensures Genuine(cfg, out)
  {
  }

  lemma MemberSits(cfg: Config, s: System, i: nat)
    requires cfg.Valid() && SystemOk(cfg, s) && i < |s.nodes|
    ensures |s.nodes| == |cfg.validators| && s.nodes[i].self == cfg.validators[i] && s.nodes[i].self in cfg.validators
    ensures Runnable(s.nodes[i]) && s.nodes[i].election.addresses == Addresses(cfg.validators)
  {
    hide ViewsFollow, CommitsBacked, TallyExact, StashSent;
    assert NodeOk(cfg, s.bus, i, s.nodes[i]);
  }

  lemma {:induction false} AlwaysPosted(cfg: Config, events: seq<Event>)
    requires cfg.Valid() && Calm(events)
    ensures AllPosted(cfg, Consensus.After(cfg, events))
  {
    hide Consensus.Step;
    if events != [] {
      var init := events[..|events| - 1];
      AlwaysPosted(cfg, init);
      AlwaysOk(cfg, init);
      StepPosted(cfg, Consensus.After(cfg, init), events[|events| - 1]);
    }
  }

  // ----- what holds throughout a calm run -----

  ghost predicate CalmSystem(cfg: Config, s: System)
    requires cfg.Valid()
  {
    SystemOk(cfg, s) && SchedulesAgree(s) && NoHalt.Owned(s) && NoHalt.NoneHalted(s) && AllPosted(cfg, s)
      && Quiet(cfg, s)
  }

  /** No node has anyone slashed, or any slash or heal to fire. */
  ghost predicate Quiet(cfg: Config, s: System) {
    forall i | 0 <= i < |s.nodes| :: QuietNode(cfg, s.nodes[i])
  }

  ghost predicate QuietNode(cfg: Config, n: Node) {
    && n.election.Valid() && n.election.addresses == Addresses(cfg.validators)
    && NothingDue(n, n.election.addresses) && SlashFree.Unslashed(n.election)
  }

  lemma CalmParts(cfg: Config, s: System)
    requires cfg.Valid() && CalmSystem(cfg, s)
    ensures SystemOk(cfg, s)
  {
  }

  lemma CalmHolds(cfg: Config, events: seq<Event>)
    requires cfg.Valid() && Calm(events)
    ensures CalmSystem(cfg, Consensus.After(cfg, events))
  {
    hide Consensus.After, SystemOk, SchedulesAgree, NoHalt.Owned, NoHalt.NoneHalted, AllPosted, NothingDue,
         SlashFree.Unslashed, Calm, AllHonestBut;
    var s := Consensus.After(cfg, events);
    CalmIsHonest(cfg, events);
    AlwaysOk(cfg, events);
    HonestSchedulesAgree(cfg, events);
    NoHalt.ScheduledRunsOn(cfg, events);
    AlwaysPosted(cfg, events);
    forall i | 0 <= i < |s.nodes| ensures QuietNode(cfg, s.nodes[i]) {
      MemberSits(cfg, s, i);
      NothingPending(cfg, events, i);
    }
  }

  // ----- nobody panics -----

  /** Only a node that has finished may have panicked. */
  ghost predicate NoneCrashed(s: System, heights: nat) {
    forall i | 0 <= i < |s.nodes| :: s.nodes[i].phase.Crashed? ==> |s.nodes[i].commits| >= heights
  }

  /** Node i is where its last commit left it. */
  lemma StandsOn(cfg: Config, s: System, i: nat)
    requires cfg.Valid() && SystemOk(cfg, s) && i < |s.nodes|
    ensures
      var n := s.nodes[i];
      && n.chain.blocks != [] && n.chain.state == LedgerAt(cfg, n, |n.commits|)
      && n.chain.Tip().header == TipAt(cfg, n, |n.commits|) && n.height == FirstHeight(cfg) + |n.commits|
      && |n.commits| <= |n.views| <= |n.commits| + 1
      && (n.phase.Ready? ==> |n.views| == |n.commits|)
      && (n.phase.AwaitingProposal? || n.phase.Tallying? ==> |n.views| == |n.commits| + 1)
      && n.election.Valid()
      && (!n.phase.Crashed? ==>
            n.election == ElectionAt(cfg, n, |n.views|) && n.election.origStake == Stakes(cfg.validators))
  {
    hide ViewOk, CommitsBacked, TallyExact, StashSent, FirstElection;
    assert NodeOk(cfg, s.bus, i, s.nodes[i]);
    ElectionMembers(cfg, s.nodes[i], |s.nodes[i].views|);
  }

  /** Entering a height, someone is elected. */
  lemma EntersElected(cfg: Config, s: System, i: nat, now: int, drained: seq<Transaction>, heights: nat)
    requires cfg.Valid() && CalmSystem(cfg, s) && Sustains(cfg, heights) && i < |s.nodes|
    requires s.nodes[i].phase.Ready? && |s.nodes[i].commits| < heights
    ensures Runnable(s.nodes[i]) && !Begin(s.nodes[i], now, drained).0.phase.Crashed?
  {
    hide SystemOk, SchedulesAgree, NoHalt.Owned, NoHalt.NoneHalted, AllPosted, Sustains, Propose, Fire, Next, Stakes,
         Grown, LedgerAt, TipAt, ElectionAt, Elected, Enter, Weights, Total;
    var n := s.nodes[i];
    StandsOn(cfg, s, i);
    assert QuietNode(cfg, n);
    LedgerGrown(cfg, s, i, |n.commits|, heights);
    NothingFires(n);
    var e := Enter(n.election, {}, {}, n.chain.state.delegations);
    EntersPlain(n.election, n.chain.state.delegations);
    HeightCounts(cfg, e, n.chain.state, |n.commits|, heights);
    SomeoneWins(e);
  }

  lemma NothingFires(n: Node)
    requires NothingDue(n, n.election.addresses)
    ensures
      var members := Elements(n.election.addresses);
      Due(n.detector.pendingSlash, n.height) * members == {} && Due(n.detector.pendingHeal, n.height) * members == {}
  {
  }

  lemma EntersPlain(e: ElectionView, d: Bonds)
    requires e.Valid() && SlashFree.Unslashed(e)
    ensures Plain(Enter(e, {}, {}, d), d) && Enter(e, {}, {}, d).origStake == e.origStake
  {
    SlashFree.EnterQuietly(e, d);
  }

  lemma SomeoneWins(e: ElectionView)
    requires e.Valid() && 0 < Total(Weights(e))
    ensures Elected(e).Some?
  {
    PositiveTotal(Weights(e), |Weights(e)|);
  }

  /** Checking a block, no reward panics. */
  lemma ChecksSafely(cfg: Config, s: System, i: nat, b: Block, heights: nat)
    requires cfg.Valid() && SystemOk(cfg, s) && Sustains(cfg, heights) && i < |s.nodes|
    requires |s.nodes[i].commits| < heights
    ensures s.nodes[i].chain.blocks != []
    ensures CheckCandidate(s.nodes[i].chain, b) != Failure(CannotApply(RewardPanic))
  {
    hide SystemOk, Sustains, Grown, LedgerAt, TipAt, ElectionAt, Stakes, Apply, VerifyFrom;
    var n := s.nodes[i];
    StandsOn(cfg, s, i);
    LedgerGrown(cfg, s, i, |n.commits|, heights);
    GrownFits(cfg, n.chain.state, |n.commits|, heights);
    RewardsNeverPanic(n.chain.state, b);
  }

  lemma AcceptSafely(n: Node, m: Message)
    requires Runnable(n) && Wanted(n, m) && !n.phase.Crashed?
    requires m.ProposalMsg? ==> CheckCandidate(n.chain, m.block) != Failure(CannotApply(RewardPanic))
    ensures !Accept(n, m).0.phase.Crashed? && Accept(n, m).0.commits == n.commits
  {
    hide CheckAgainst, StakeOf, VerifyVote;
  }

  lemma StepSafely(cfg: Config, s: System, ev: Event, heights: nat)
    requires cfg.Valid() && CalmSystem(cfg, s) && Sustains(cfg, heights) && NoneCrashed(s, heights)
    requires !ev.Inject? && !ev.MakeFaulty?
    ensures NoneCrashed(Consensus.Step(cfg, s, ev), heights)
  {
    hide SystemOk, SchedulesAgree, NoHalt.Owned, NoHalt.NoneHalted, AllPosted, Quiet, Sustains, CheckCandidate, Enter,
         Next, Elected, Propose, Observe, Accept, Prune, PruneStash, Forget, QuorumReached, Fire, Chains.Commit;
    if Consensus.Step(cfg, s, ev) != s {
      var i := ev.i;
      var n := s.nodes[i];
      if |n.commits| < heights {
        forall b ensures CheckCandidate(n.chain, b) != Failure(CannotApply(RewardPanic)) {
          ChecksSafely(cfg, s, i, b, heights);
        }
        match ev
        case BeginHeight(_, now, drained) => EntersElected(cfg, s, i, now, drained, heights);
        case FromStash(_) =>
          var k := FirstWanted(n, n.pending);
          AcceptSafely(n.(pending := n.pending[..k] + n.pending[k + 1..]), n.pending[k]);
        case Deliver(_, m) =>
          if Wanted(n, m) {
            AcceptSafely(n.(detector := Observe(n.detector, cfg.healDelay, m)), m);
          }
        case FinishHeight(_) =>
      } else {
        StepExtends(cfg, s, ev);
      }
    }
  }

  lemma {:induction false} AlwaysSafe(cfg: Config, events: seq<Event>, heights: nat)
    requires cfg.Valid() && Calm(events) && Sustains(cfg, heights)
    ensures NoneCrashed(Consensus.After(cfg, events), heights)
  {
    hide Consensus.Step, CalmSystem, Sustains;
    if events != [] {
      var init := events[..|events| - 1];
      AlwaysSafe(cfg, init, heights);
      CalmHolds(cfg, init);
      StepSafely(cfg, Consensus.After(cfg, init), events[|events| - 1], heights);
    }
  }

  // ----- one proposal a height -----

  lemma OneProposal(cfg: Config, s: System, b: Block, c: Block)
    requires cfg.Valid() && CalmSystem(cfg, s) && NoHalt.HasProposer(s, b) && NoHalt.HasProposer(s, c)
    requires b.header.height == c.header.height
    ensures b == c
  {
    hide SystemOk, SchedulesAgree, NoHalt.Owned, NoHalt.NoneHalted, AllPosted, Quiet, ViewOk, Acceptable, Alike;
    var p: nat, k: nat :| NoHalt.Proposed(s, b, p, k);
    var q: nat, h: nat :| NoHalt.Proposed(s, c, q, h);
    NoHalt.ProposalHeight(cfg, s, b, p, k);
    NoHalt.ProposalHeight(cfg, s, c, q, h);
    assert k == h;
    NoHalt.Lockstep(cfg, s, p, q, k);
    NoHalt.ViewsAlike(cfg, s, p, q, k);
    NoHalt.SameProposer(cfg, s, p, q);
  }

  lemma CandidateOwned(cfg: Config, s: System, i: nat)
    requires cfg.Valid() && CalmSystem(cfg, s) && i < |s.nodes| && s.nodes[i].phase.Tallying?
    ensures NoHalt.HasProposer(s, s.nodes[i].phase.candidate)
    ensures s.nodes[i].phase.candidate.header.height == s.nodes[i].height
  {
    hide SystemOk, SchedulesAgree, NoHalt.NoneHalted, Quiet, NoHalt.HasProposer, NewVote;
    assert NoHalt.FromBus(s.bus, s.nodes[i]) && Posted(s.bus, s.nodes[i]);
  }

  // ----- who can move -----

  /** An event with which node i gets on: it enters, finishes, or takes a message it
      was waiting for. */
  ghost predicate GetsOn(s: System, ev: Event, i: nat) {
    && i < |s.nodes| && Runnable(s.nodes[i])
    && match ev
       case BeginHeight(j, _, _) => j == i && s.nodes[i].phase.Ready?
       case FromStash(j) => j == i && Waiting(s.nodes[i]) && InStash(s.nodes[i])
       case Deliver(j, m) => Reads(s, ev, i) && Wanted(s.nodes[i], m)
       case FinishHeight(j) => j == i && s.nodes[i].phase.Tallying? && !Waiting(s.nodes[i])
       case _ => false
  }

  /** What each node has read, and that none of it is lost. */
  ghost predicate AllKept(s: System, read: seq<set<Message>>) {
    |read| == |s.nodes| && forall i | 0 <= i < |s.nodes| :: Kept(s.nodes[i], read[i])
  }

  /** Some node short of these heights gets on without reading a message again. */
  ghost predicate SomeoneMoves(s: System, read: seq<set<Message>>, heights: nat)
    requires |read| == |s.nodes|
  {
    exists ev: Event, i: nat ::
      GetsOn(s, ev, i) && |s.nodes[i].commits| < heights && (ev.Deliver? ==> ev.m !in read[i])
  }

  lemma MoveFound(s: System, read: seq<set<Message>>, heights: nat, ev: Event, i: nat)
    requires |read| == |s.nodes| && GetsOn(s, ev, i) && |s.nodes[i].commits| < heights
    requires ev.Deliver? ==> ev.m !in read[i]
    ensures SomeoneMoves(s, read, heights)
  {
  }

  lemma ReadyMoves(cfg: Config, s: System, read: seq<set<Message>>, i: nat, heights: nat)
    requires cfg.Valid() && SystemOk(cfg, s) && i < |s.nodes| && s.nodes[i].phase.Ready? && |read| == |s.nodes|
    requires |s.nodes[i].commits| < heights
    ensures SomeoneMoves(s, read, heights)
  {
    hide SystemOk;
    MemberSits(cfg, s, i);
    MoveFound(s, read, heights, BeginHeight(i, 0, []), i);
  }

  /** A waiting node whose message is on the bus gets on: it has it in its stash, or
      it has not read it yet. */
  lemma WaitMoves(cfg: Config, s: System, read: seq<set<Message>>, i: nat, m: Message, heights: nat)
    requires cfg.Valid() && SystemOk(cfg, s) && AllKept(s, read) && Genuine(cfg, s.bus)
    requires i < |s.nodes| && |s.nodes[i].commits| < heights
    requires Runnable(s.nodes[i]) && Waiting(s.nodes[i]) && m in s.bus && Wanted(s.nodes[i], m)
    ensures SomeoneMoves(s, read, heights)
  {
    hide SystemOk, QuorumReached, VerifyVote;
    MemberSits(cfg, s, i);
    if InStash(s.nodes[i]) {
      MoveFound(s, read, heights, FromStash(i), i);
    } else {
      assert Kept(s.nodes[i], read[i]);
      MoveFound(s, read, heights, Deliver(i, m), i);
    }
  }

  lemma ElectedMember(cfg: Config, s: System, i: nat, k: nat) returns (p: nat)
    requires cfg.Valid() && SystemOk(cfg, s) && i < |s.nodes| && k < |s.nodes[i].views|
    ensures p < |s.nodes| && s.nodes[i].views[k].elected == s.nodes[p].self.address
  {
    hide Enter, Next, CommitsBacked, TallyExact, StashSent, FirstElection, Acceptable;
    assert NodeOk(cfg, s.bus, i, s.nodes[i]);
    assert ViewOk(cfg, s.nodes[i], k);
    ElectionMembers(cfg, s.nodes[i], k);
    var before := ElectionAt(cfg, s.nodes[i], k);
    var v := s.nodes[i].views[k];
    var e := Enter(before, v.offenders, v.healed, LedgerAt(cfg, s.nodes[i], k).delegations);
    var w := Accumulator.Winner64(e.priorities, Weights(e));
    p := w;
    assert NodeOk(cfg, s.bus, p, s.nodes[p]);
  }

  /** Where node i waits for its proposal, and no node is behind it, someone moves:
      the proposer to enter the height, or node i to take what it proposed. */
  lemma ProposalMoves(cfg: Config, s: System, read: seq<set<Message>>, i: nat, heights: nat)
    requires cfg.Valid() && CalmSystem(cfg, s) && NoneCrashed(s, heights) && i < |s.nodes|
    requires s.nodes[i].phase.AwaitingProposal? && |s.nodes[i].commits| < heights
    requires AllKept(s, read) && forall j | 0 <= j < |s.nodes| :: |s.nodes[i].commits| <= |s.nodes[j].commits|
    ensures SomeoneMoves(s, read, heights)
  {
    hide SystemOk, SchedulesAgree, NoHalt.Owned, Quiet, ViewOk, Alike, LedgerAt, TipAt, ElectionAt, Stakes, Kept,
         Genuine;
    var n, k := s.nodes[i], |s.nodes[i].commits|;
    StandsOn(cfg, s, i);
    var p := ElectedMember(cfg, s, i, k);
    StandsOn(cfg, s, p);
    if |s.nodes[p].views| <= k {
      ReadyMoves(cfg, s, read, p, heights);
    } else {
      NoHalt.Lockstep(cfg, s, i, p, k);
      NoHalt.ElectedAlike(cfg, s, i, p, k);
      assert Posted(s.bus, s.nodes[p]);
      assert ViewPosted(s.bus, s.nodes[p].views[k], s.nodes[p].self.address);
      var b := s.nodes[p].views[k].proposal.value;
      assert NoHalt.Proposed(s, b, p, k);
      NoHalt.ProposalHeight(cfg, s, b, p, k);
      WaitMoves(cfg, s, read, i, ProposalMsg(b), heights);
    }
  }

  /** The election a node tallies with has nobody slashed and its ledger's bonds. */
  lemma TalliesPlain(cfg: Config, s: System, i: nat)
    requires cfg.Valid() && CalmSystem(cfg, s) && i < |s.nodes| && s.nodes[i].phase.Tallying?
    ensures
      var n := s.nodes[i];
      Plain(n.election, n.chain.state.delegations) && n.election.origStake == Stakes(cfg.validators)
  {
    hide SchedulesAgree, NoHalt.Owned, NoHalt.NoneHalted, AllPosted, ViewFrom, CommitsBacked, TallyExact, StashSent,
         Stakes;
    var n, k := s.nodes[i], |s.nodes[i].commits|;
    StandsOn(cfg, s, i);
    assert NodeOk(cfg, s.bus, i, n) && ViewOk(cfg, n, k);
    assert QuietNode(cfg, n);
    ElectionMembers(cfg, n, k);
    ViewFields(n.views[k], ElectionAt(cfg, n, k), TipAt(cfg, n, k), LedgerAt(cfg, n, k), n.self.address,
               FirstHeight(cfg) + k);
  }

  /** A node still waiting for votes has not counted everyone. */
  lemma SomeoneUncounted(cfg: Config, s: System, i: nat, heights: nat) returns (j: nat)
    requires cfg.Valid() && CalmSystem(cfg, s) && Sustains(cfg, heights) && i < |s.nodes|
    requires s.nodes[i].phase.Tallying? && |s.nodes[i].commits| < heights
    requires Runnable(s.nodes[i]) && Waiting(s.nodes[i])
    ensures j < |s.nodes| && s.nodes[j].self.address !in s.nodes[i].phase.counted
  {
    hide SystemOk, SchedulesAgree, NoHalt.Owned, NoHalt.NoneHalted, AllPosted, Quiet, Sustains, Stakes, Weights, Total,
         WeightOf, LedgerAt, TipAt, ElectionAt, Plain, Grown;
    var n, k := s.nodes[i], |s.nodes[i].commits|;
    StandsOn(cfg, s, i);
    TalliesPlain(cfg, s, i);
    LedgerGrown(cfg, s, i, k, heights);
    HeightCounts(cfg, n.election, n.chain.state, k, heights);
    TallyKnown(cfg, s, i);
    MemberSits(cfg, s, i);
    if forall q | 0 <= q < |cfg.validators| :: cfg.validators[q].address in n.phase.counted {
      EveryoneCounts(n.election);
      assert Elements(n.election.addresses) <= n.phase.counted;
      WeightMonotone(n.election, Elements(n.election.addresses), n.phase.counted);
      NodeLoop.EnoughIsQuorum(n.election, n.phase.counted);
    }
    var q :| 0 <= q < |cfg.validators| && cfg.validators[q].address !in n.phase.counted;
    MemberSits(cfg, s, q);
    j := q;
  }

  lemma TallyKnown(cfg: Config, s: System, i: nat)
    requires cfg.Valid() && SystemOk(cfg, s) && i < |s.nodes| && s.nodes[i].phase.Tallying?
    ensures s.nodes[i].election.Valid()
    ensures s.nodes[i].phase.accepted == Uint64(WeightOf(s.nodes[i].election, s.nodes[i].phase.counted))
    ensures s.nodes[i].phase.counted <= Elements(Addresses(cfg.validators))
  {
    hide ViewsFollow, CommitsBacked, StashSent, WeightOf, CheckCandidate, HasVote;
    assert NodeOk(cfg, s.bus, i, s.nodes[i]);
  }

  /** Node j's vote for the block node i is tallying is one node i still wants. */
  lemma VoteWanted(cfg: Config, s: System, i: nat, j: nat, b: Block)
    requires cfg.Valid() && CalmSystem(cfg, s) && i < |s.nodes| && j < |s.nodes|
    requires s.nodes[i].phase.Tallying? && s.nodes[j].self.address !in s.nodes[i].phase.counted
    requires NoHalt.HasProposer(s, b) && b.header.height == s.nodes[i].height
    ensures Wanted(s.nodes[i], VoteMsg(NewVote(b.header.height, b.Hash(), s.nodes[j].self)))
  {
    hide CalmSystem, NoHalt.HasProposer;
    CandidateOwned(cfg, s, i);
    OneProposal(cfg, s, b, s.nodes[i].phase.candidate);
  }

  lemma CommitOwned(cfg: Config, s: System, j: nat, k: nat)
    requires cfg.Valid() && CalmSystem(cfg, s) && j < |s.nodes| && k < |s.nodes[j].commits|
    ensures
      var b := s.nodes[j].commits[k].block;
      && NoHalt.HasProposer(s, b) && b.header.height == FirstHeight(cfg) + k
      && VoteMsg(NewVote(b.header.height, b.Hash(), s.nodes[j].self)) in s.bus
  {
    hide SystemOk, SchedulesAgree, NoHalt.Owned, NoHalt.NoneHalted, Quiet, NoHalt.HasProposer, NewVote;
    NoHalt.CommitOwned(s, j, k);
    HeightOf(cfg, s, j, k);
    assert Posted(s.bus, s.nodes[j]);
    assert s.nodes[j].commits[k] in s.nodes[j].commits;
  }

  /** Where node i tallies and no node is behind it, someone moves: node i to finish
      or to count a vote it lacks, or the node whose vote that is to cast it. */
  lemma TallyMoves(cfg: Config, s: System, read: seq<set<Message>>, i: nat, heights: nat)
    requires cfg.Valid() && CalmSystem(cfg, s) && NoneCrashed(s, heights) && Sustains(cfg, heights) && i < |s.nodes|
    requires s.nodes[i].phase.Tallying? && |s.nodes[i].commits| < heights
    requires AllKept(s, read) && forall j | 0 <= j < |s.nodes| :: |s.nodes[i].commits| <= |s.nodes[j].commits|
    ensures SomeoneMoves(s, read, heights)
  {
    hide SystemOk, SchedulesAgree, NoHalt.Owned, Quiet, Sustains, NewVote, Wanted, Posted, Genuine, LedgerAt, TipAt,
         ElectionAt, Stakes, NoHalt.HasProposer, Kept;
    var n, k := s.nodes[i], |s.nodes[i].commits|;
    MemberSits(cfg, s, i);
    StandsOn(cfg, s, i);
    if !Waiting(n) {
      MoveFound(s, read, heights, FinishHeight(i), i);
    } else {
      var j := SomeoneUncounted(cfg, s, i, heights);
      StandsOn(cfg, s, j);
      var r := s.nodes[j];
      if |r.commits| > k {
        var b := r.commits[k].block;
        CommitOwned(cfg, s, j, k);
        VoteWanted(cfg, s, i, j, b);
        WaitMoves(cfg, s, read, i, VoteMsg(NewVote(b.header.height, b.Hash(), r.self)), heights);
      } else if r.phase.Tallying? {
        var b := r.phase.candidate;
        CandidateOwned(cfg, s, j);
        VotePosted(s.bus, r);
        assert Posted(s.bus, r);
        VoteWanted(cfg, s, i, j, b);
        WaitMoves(cfg, s, read, i, VoteMsg(NewVote(b.header.height, b.Hash(), r.self)), heights);
      } else if r.phase.AwaitingProposal? {
        ProposalMoves(cfg, s, read, j, heights);
      } else {
        ReadyMoves(cfg, s, read, j, heights);
      }
    }
  }

  lemma VotePosted(bus: set<Message>, n: Node)
    ensures Posted(bus, n) && n.phase.Tallying? ==>
              n.phase.candidate.header.height == n.height
              && VoteMsg(NewVote(n.height, n.phase.candidate.Hash(), n.self)) in bus
  {
  }

  lemma {:induction false} Laggard(s: System, m: nat) returns (i: nat)
    requires 0 < m <= |s.nodes|
    ensures i < m && forall j | 0 <= j < m :: |s.nodes[i].commits| <= |s.nodes[j].commits|
  {
    i := 0;
    if m > 1 {
      i := Laggard(s, m - 1);
      if |s.nodes[m - 1].commits| < |s.nodes[i].commits| {
        i := m - 1;
      }
    }
  }

  /** What each node has read so far. */
  ghost function ReadAll(cfg: Config, events: seq<Event>): (read: seq<set<Message>>)
    requires cfg.Valid()
    ensures |read| == |cfg.validators| && forall i | 0 <= i < |read| :: read[i] == ReadBy(cfg, events, i)
  {
    seq(|cfg.validators|, i requires 0 <= i < |cfg.validators| => ReadBy(cfg, events, i))
  }

  lemma NothingLostAnywhere(cfg: Config, events: seq<Event>)
    requires cfg.Valid() && |Consensus.After(cfg, events).nodes| == |cfg.validators|
    ensures AllKept(Consensus.After(cfg, events), ReadAll(cfg, events))
  {
    hide Consensus.After, Kept, ReadBy;
    forall i | 0 <= i < |cfg.validators| ensures Kept(Consensus.After(cfg, events).nodes[i], ReadBy(cfg, events, i)) {
      AlwaysKept(cfg, events, i);
    }
  }

  /** Never stuck: in every run without faults, until every node has committed these
      heights, some node short of them gets on, and needs no message it has already
      read: what it waits for is in its stash or still to be read. */
  lemma NeverStuck(cfg: Config, events: seq<Event>, heights: nat)
    requires cfg.Valid() && Calm(events) && Sustains(cfg, heights)
    ensures |Consensus.After(cfg, events).nodes| == |cfg.validators|
    ensures
      var s := Consensus.After(cfg, events);
      || (forall i | 0 <= i < |s.nodes| :: |s.nodes[i].commits| >= heights)
      || SomeoneMoves(s, ReadAll(cfg, events), heights)
  {
    hide Consensus.After, SystemOk, SchedulesAgree, NoHalt.Owned, AllPosted, Quiet, Sustains, SomeoneMoves, AllKept;
    var s, read := Consensus.After(cfg, events), ReadAll(cfg, events);
    CalmHolds(cfg, events);
    CalmSane(cfg, s);
    AlwaysSafe(cfg, events, heights);
    NothingLostAnywhere(cfg, events);
    if i :| 0 <= i < |s.nodes| && |s.nodes[i].commits| < heights {
      var k := Laggard(s, |s.nodes|);
      match s.nodes[k].phase
      case Ready => ReadyMoves(cfg, s, read, k, heights);
      case AwaitingProposal => ProposalMoves(cfg, s, read, k, heights);
      case Tallying(_, _, _) => TallyMoves(cfg, s, read, k, heights);
      case Halted => assert false;
      case Crashed => assert false;
    }
  }

  // ----- every move counts -----

  /** How far a node has come, in a cluster of this size: moves are worth one or more. */
  ghost function Mark(n: Node, size: nat): nat {
    |n.commits| * (size + 3)
    + match n.phase
      case AwaitingProposal => 1
      case Tallying(_, counted, _) => 2 + |counted|
      case _ => 0
  }

  /** The same, stopping at the heights asked for. */
  ghost function Capped(n: Node, size: nat, heights: nat): nat {
    if |n.commits| >= heights then heights * (size + 3) else Mark(n, size)
  }

  ghost function TotalMark(s: System, m: nat, heights: nat): nat
    requires m <= |s.nodes|
  {
    if m == 0 then 0 else TotalMark(s, m - 1, heights) + Capped(s.nodes[m - 1], |s.nodes|, heights)
  }

  lemma {:induction false} CountMembers(voters: set<Address>, addresses: seq<Address>)
    requires voters <= Elements(addresses)
    ensures |voters| <= |addresses|
  {
    if addresses != [] {
      var a := addresses[|addresses| - 1];
      CountMembers(voters - {a}, addresses[..|addresses| - 1]);
      assert |voters| <= |voters - {a}| + 1;
    } else {
      assert voters == {};
    }
  }

  lemma TallySmall(cfg: Config, s: System, i: nat)
    requires cfg.Valid() && SystemOk(cfg, s) && i < |s.nodes|
    ensures |s.nodes| == |cfg.validators|
    ensures s.nodes[i].phase.Tallying? ==> |s.nodes[i].phase.counted| <= |s.nodes|
  {
    hide SystemOk;
    MemberSits(cfg, s, i);
    if s.nodes[i].phase.Tallying? {
      TallyKnown(cfg, s, i);
      CountMembers(s.nodes[i].phase.counted, Addresses(cfg.validators));
    }
  }

  lemma CappedBelow(n: Node, size: nat, heights: nat)
    requires n.phase.Tallying? ==> |n.phase.counted| <= size
    ensures Capped(n, size, heights) <= heights * (size + 3)
    ensures |n.commits| < heights ==> Mark(n, size) < (|n.commits| + 1) * (size + 3) <= heights * (size + 3)
  {
    if |n.commits| < heights {
      MulMono(size + 3, |n.commits| + 1, heights);
    }
  }

  lemma {:induction false} TotalBounded(cfg: Config, s: System, m: nat, heights: nat)
    requires cfg.Valid() && SystemOk(cfg, s) && m <= |s.nodes|
    ensures TotalMark(s, m, heights) <= m * (heights * (|s.nodes| + 3))
  {
    hide SystemOk, Capped;
    if m > 0 {
      TotalBounded(cfg, s, m - 1, heights);
      TallySmall(cfg, s, m - 1);
      CappedBelow(s.nodes[m - 1], |s.nodes|, heights);
      assert m * (heights * (|s.nodes| + 3)) == (m - 1) * (heights * (|s.nodes| + 3)) + heights * (|s.nodes| + 3);
    }
  }

  /** What a step of one node does to its mark. */
  ghost predicate GoesOn(n: Node, r: Node, size: nat, heights: nat, moved: bool) {
    && Capped(n, size, heights) <= Capped(r, size, heights)
    && (moved && |n.commits| < heights ==> Capped(n, size, heights) < Capped(r, size, heights))
  }

  lemma AcceptMoves(cfg: Config, bus: set<Message>, n: Node, m: Message)
    requires cfg.Valid() && Runnable(n) && Wanted(n, m) && Genuine(cfg, bus) && m in bus
    requires n.election.addresses == Addresses(cfg.validators)
    requires !Accept(n, m).0.phase.Halted? && !Accept(n, m).0.phase.Crashed?
    ensures Accept(n, m).0.commits == n.commits
    ensures n.phase.AwaitingProposal? ==> Accept(n, m).0.phase.Tallying?
    ensures n.phase.Tallying? ==>
              Accept(n, m).0.phase.Tallying? && |Accept(n, m).0.phase.counted| == |n.phase.counted| + 1
  {
    hide CheckCandidate, StakeOf, VerifyVote;
  }

  lemma AcceptGoesOn(cfg: Config, bus: set<Message>, n: Node, m: Message, size: nat, heights: nat)
    requires cfg.Valid() && Runnable(n) && Wanted(n, m) && Genuine(cfg, bus) && m in bus
    requires n.election.addresses == Addresses(cfg.validators)
    requires |n.commits| < heights ==> !Accept(n, m).0.phase.Halted? && !Accept(n, m).0.phase.Crashed?
    requires Accept(n, m).0.commits == n.commits && (n.phase.Tallying? ==> |n.phase.counted| <= size)
    ensures GoesOn(n, Accept(n, m).0, size, heights, true)
  {
    hide Accept, Genuine;
    if |n.commits| < heights {
      AcceptMoves(cfg, bus, n, m);
    }
  }

  lemma AcceptKeepsCommits(n: Node, m: Message)
    requires Runnable(n) && Wanted(n, m)
    ensures Accept(n, m).0.commits == n.commits
  {
    hide CheckCandidate, StakeOf, VerifyVote;
  }

  lemma FinishGoesOn(n: Node, paced: bool, size: nat, heights: nat)
    requires Runnable(n) && n.phase.Tallying? && |n.phase.counted| <= size
    requires |n.commits| < heights ==> !Finish(n, paced).phase.Halted? && !Finish(n, paced).phase.Crashed?
    ensures GoesOn(n, Finish(n, paced), size, heights, true)
  {
    hide CheckCandidate, Chains.Commit, Prune, PruneStash, Forget;
    var r := Finish(n, paced);
    CappedBelow(n, size, heights);
    CappedBelow(r, size, heights);
    assert (|n.commits| + 1) * (size + 3) == |n.commits| * (size + 3) + size + 3;
  }

  lemma BeginGoesOn(n: Node, now: int, drained: seq<Transaction>, size: nat, heights: nat)
    requires Runnable(n) && n.phase.Ready?
    requires |n.commits| < heights ==> !Begin(n, now, drained).0.phase.Crashed?
    ensures GoesOn(n, Begin(n, now, drained).0, size, heights, true)
  {
    hide Enter, Next, Elected, Propose, Fire;
  }

  lemma SameMark(n: Node, r: Node, size: nat, heights: nat)
    requires n.commits == r.commits && n.phase == r.phase
    ensures GoesOn(n, r, size, heights, false)
  {
  }

  lemma BeginCommits(n: Node, now: int, drained: seq<Transaction>)
    requires Runnable(n)
    ensures Begin(n, now, drained).0.commits == n.commits
  {
    hide Enter, Next, Elected, Propose, Fire;
  }

  lemma FinishCommits(n: Node, paced: bool)
    requires Runnable(n) && n.phase.Tallying?
    ensures Finish(n, paced).phase.Ready? || Finish(n, paced).commits == n.commits
  {
    hide CheckCandidate, Chains.Commit, Prune, PruneStash, Forget;
  }

  lemma SameStart(n: Node, q: Node, r: Node, size: nat, heights: nat, moved: bool)
    requires n.commits == q.commits && n.phase == q.phase && GoesOn(q, r, size, heights, true)
    ensures GoesOn(n, r, size, heights, moved)
  {
  }

  lemma StashedSent(cfg: Config, s: System, i: nat)
    requires cfg.Valid() && SystemOk(cfg, s) && i < |s.nodes|
    ensures forall m | m in s.nodes[i].pending :: m in s.bus
  {
    hide ViewsFollow, CommitsBacked, TallyExact;
    assert NodeOk(cfg, s.bus, i, s.nodes[i]);
  }

  /** The next state of a node has neither halted nor, short of the end, panicked. */
  ghost predicate Sane(r: Node, heights: nat) {
    |r.commits| < heights ==> !r.phase.Halted? && !r.phase.Crashed?
  }

  lemma UnstashGoesOn(cfg: Config, s: System, i: nat, heights: nat)
    requires cfg.Valid() && CalmSystem(cfg, s) && i < |s.nodes| && Runnable(s.nodes[i]) && InStash(s.nodes[i])
    requires Sane(Unstash(s.nodes[i]).0, heights)
    ensures GoesOn(s.nodes[i], Unstash(s.nodes[i]).0, |s.nodes|, heights, true)
  {
    hide SystemOk, SchedulesAgree, NoHalt.Owned, NoHalt.NoneHalted, Quiet, Accept, Genuine, GoesOn, Posted;
    var n := s.nodes[i];
    MemberSits(cfg, s, i);
    TallySmall(cfg, s, i);
    StashedSent(cfg, s, i);
    var k := FirstWanted(n, n.pending);
    var q := n.(pending := n.pending[..k] + n.pending[k + 1..]);
    AcceptKeepsCommits(q, n.pending[k]);
    AcceptGoesOn(cfg, s.bus, q, n.pending[k], |s.nodes|, heights);
    SameStart(n, q, Unstash(n).0, |s.nodes|, heights, true);
  }

  lemma ReceiveGoesOn(cfg: Config, s: System, i: nat, m: Message, heights: nat)
    requires cfg.Valid() && CalmSystem(cfg, s) && i < |s.nodes| && Runnable(s.nodes[i]) && m in s.bus
    requires Sane(Receive(s.nodes[i], cfg.healDelay, m).0, heights)
    ensures GoesOn(s.nodes[i], Receive(s.nodes[i], cfg.healDelay, m).0, |s.nodes|, heights, Wanted(s.nodes[i], m))
  {
    hide SystemOk, SchedulesAgree, NoHalt.Owned, NoHalt.NoneHalted, Quiet, Accept, Genuine, GoesOn, Posted, Observe;
    var n := s.nodes[i];
    MemberSits(cfg, s, i);
    TallySmall(cfg, s, i);
    var seen := n.(detector := Observe(n.detector, cfg.healDelay, m));
    if Wanted(n, m) {
      AcceptKeepsCommits(seen, m);
      AcceptGoesOn(cfg, s.bus, seen, m, |s.nodes|, heights);
      SameStart(n, seen, Receive(n, cfg.healDelay, m).0, |s.nodes|, heights, true);
    } else {
      SameMark(n, Receive(n, cfg.healDelay, m).0, |s.nodes|, heights);
    }
  }

  /** A step of the system, seen by each node. */
  lemma StepGoesOn(cfg: Config, s: System, ev: Event, i: nat, heights: nat)
    requires cfg.Valid() && CalmSystem(cfg, s) && i < |s.nodes| && !ev.Inject? && !ev.MakeFaulty?
    requires NoHalt.NoneHalted(Consensus.Step(cfg, s, ev)) && NoneCrashed(Consensus.Step(cfg, s, ev), heights)
    ensures i < |Consensus.Step(cfg, s, ev).nodes|
    ensures GoesOn(s.nodes[i], Consensus.Step(cfg, s, ev).nodes[i], |s.nodes|, heights, GetsOn(s, ev, i))
  {
    hide SystemOk, SchedulesAgree, NoHalt.Owned, Quiet, Begin, Unstash, Receive, Finish, Waiting, InStash, Genuine,
         GoesOn, Posted, Wanted, CalmSystem;
    CalmParts(cfg, s);
    var n, t, size := s.nodes[i], Consensus.Step(cfg, s, ev), |s.nodes|;
    MemberSits(cfg, s, i);
    TallySmall(cfg, s, i);
    SameMark(n, n, size, heights);
    assert Sane(t.nodes[i], heights);
    if ev.i == i {
      match ev
      case BeginHeight(_, now, drained) =>
        if Runnable(n) && n.phase.Ready? {
          assert t.nodes[i] == Begin(n, now, drained).0;
          BeginCommits(n, now, drained);
          BeginGoesOn(n, now, drained, size, heights);
        }
      case FromStash(_) =>
        if Runnable(n) && Waiting(n) && InStash(n) {
          assert t.nodes[i] == Unstash(n).0;
          UnstashGoesOn(cfg, s, i, heights);
        }
      case Deliver(_, m) =>
        if Runnable(n) && Waiting(n) && !InStash(n) && m in s.bus {
          assert t.nodes[i] == Receive(n, cfg.healDelay, m).0;
          ReceiveGoesOn(cfg, s, i, m, heights);
        }
      case FinishHeight(_) =>
        if Runnable(n) && n.phase.Tallying? && !Waiting(n) {
          FinishCommits(n, cfg.paced);
          FinishGoesOn(n, cfg.paced, size, heights);
        }
    }
  }

  /** Marks add up no lower than before, and higher where someone got on. */
  lemma {:induction false} TotalGoesOn(cfg: Config, s: System, ev: Event, m: nat, heights: nat)
    requires cfg.Valid() && CalmSystem(cfg, s) && m <= |s.nodes| && !ev.Inject? && !ev.MakeFaulty?
    requires NoHalt.NoneHalted(Consensus.Step(cfg, s, ev)) && NoneCrashed(Consensus.Step(cfg, s, ev), heights)
    ensures |Consensus.Step(cfg, s, ev).nodes| == |s.nodes|
    ensures
      var t := Consensus.Step(cfg, s, ev);
      TotalMark(t, m, heights)
        >= TotalMark(s, m, heights)
           + if ev.i < m && GetsOn(s, ev, ev.i) && |s.nodes[ev.i].commits| < heights then 1 else 0
  {
    hide CalmSystem, Consensus.Step, NoHalt.NoneHalted, NoneCrashed, Capped, GetsOn;
    SameSize(cfg, s, ev);
    if m > 0 {
      TotalGoesOn(cfg, s, ev, m - 1, heights);
      StepGoesOn(cfg, s, ev, m - 1, heights);
    }
  }

  lemma SameSize(cfg: Config, s: System, ev: Event)
    ensures |Consensus.Step(cfg, s, ev).nodes| == |s.nodes|
  {
    hide Begin, Unstash, Receive, Finish;
  }

  lemma CalmSane(cfg: Config, s: System)
    requires cfg.Valid() && CalmSystem(cfg, s)
    ensures NoHalt.NoneHalted(s) && |s.nodes| == |cfg.validators|
  {
    hide NodeOk;
  }

  // ----- runs that stop at a height -----

  /** The next turn of a run to these heights: a node that has not committed them
      enters one, finishes one, answers a wait from its stash, or reads a message it
      has not read before. */
  ghost predicate Turn(s: System, read: seq<set<Message>>, ev: Event, heights: nat) {
    && !ev.Inject? && !ev.MakeFaulty? && ev.i < |s.nodes| == |read| && Runnable(s.nodes[ev.i])
    && match ev
       case BeginHeight(i, _, _) => s.nodes[i].phase.Ready? && |s.nodes[i].commits| < heights
       case FromStash(i) => Waiting(s.nodes[i]) && InStash(s.nodes[i])
       case Deliver(i, m) => Reads(s, ev, i) && m !in read[i]
       case FinishHeight(i) => s.nodes[i].phase.Tallying? && !Waiting(s.nodes[i])
  }

  /** A run to these heights: any turns, in any order. */
  ghost predicate RunsTo(cfg: Config, events: seq<Event>, heights: nat)
    requires cfg.Valid()
  {
    events == []
    || var init := events[..|events| - 1];
       && RunsTo(cfg, init, heights)
       && Turn(Consensus.After(cfg, init), ReadAll(cfg, init), events[|events| - 1], heights)
  }

  lemma {:induction false} RunsCalmly(cfg: Config, events: seq<Event>, heights: nat)
    requires cfg.Valid() && RunsTo(cfg, events, heights)
    ensures Calm(events)
  {
    hide Consensus.After, ReadAll;
    if events != [] {
      RunsCalmly(cfg, events[..|events| - 1], heights);
    }
  }

  /** Nobody goes past the heights, and whoever is inside one is short of them. */
  ghost predicate Short(n: Node, heights: nat) {
    |n.commits| <= heights && (n.phase.Ready? || |n.commits| < heights)
  }

  lemma StepShort(cfg: Config, s: System, read: seq<set<Message>>, ev: Event, i: nat, heights: nat)
    requires Turn(s, read, ev, heights) && i < |s.nodes| && Short(s.nodes[i], heights)
    ensures i < |Consensus.Step(cfg, s, ev).nodes| && Short(Consensus.Step(cfg, s, ev).nodes[i], heights)
  {
    hide Enter, Next, Elected, Propose, CheckCandidate, Observe, Chains.Commit, Prune, PruneStash, Forget, Waiting,
         StakeOf, VerifyVote, Fire;
  }

  lemma {:induction false} AlwaysShort(cfg: Config, events: seq<Event>, i: nat, heights: nat)
    requires cfg.Valid() && RunsTo(cfg, events, heights) && i < |cfg.validators|
    ensures i < |Consensus.After(cfg, events).nodes| && Short(Consensus.After(cfg, events).nodes[i], heights)
  {
    hide Consensus.Step, ReadAll, Turn;
    if events != [] {
      var init := events[..|events| - 1];
      AlwaysShort(cfg, init, i, heights);
      StepShort(cfg, Consensus.After(cfg, init), ReadAll(cfg, init), events[|events| - 1], i, heights);
    }
  }

  // ----- there are only so many turns -----

  ghost function TotalRead(cfg: Config, events: seq<Event>, m: nat): nat
    requires cfg.Valid()
  {
    if m == 0 then 0 else TotalRead(cfg, events, m - 1) + |ReadBy(cfg, events, m - 1)|
  }

  /** A turn gets its node on, or it reads one more message, or both. */
  lemma TurnCounts(s: System, read: seq<set<Message>>, ev: Event, heights: nat)
    requires Turn(s, read, ev, heights) && Short(s.nodes[ev.i], heights)
    ensures ev.Deliver? || (GetsOn(s, ev, ev.i) && |s.nodes[ev.i].commits| < heights)
    ensures ev.Deliver? ==> |s.nodes[ev.i].commits| < heights
  {
    hide QuorumReached;
  }

  /** Event ev was a read, by its node, of a message new to it. */
  ghost predicate ReadsNew(cfg: Config, init: seq<Event>, ev: Event)
    requires cfg.Valid()
  {
    ev.Deliver? && Reads(Consensus.After(cfg, init), ev, ev.i) && ev.m !in ReadBy(cfg, init, ev.i)
  }

  lemma OneReads(cfg: Config, init: seq<Event>, ev: Event, i: nat)
    requires cfg.Valid()
    ensures |ReadBy(cfg, init + [ev], i)|
         >= |ReadBy(cfg, init, i)| + if ReadsNew(cfg, init, ev) && ev.i == i then 1 else 0
  {
    hide Consensus.After, Waiting, InStash;
    assert (init + [ev])[..|init|] == init;
    SetGrows(ReadBy(cfg, init, i), ReadBy(cfg, init + [ev], i));
  }

  lemma {:induction false} ReadsGrow(cfg: Config, init: seq<Event>, ev: Event, m: nat)
    requires cfg.Valid()
    ensures TotalRead(cfg, init + [ev], m)
         >= TotalRead(cfg, init, m) + if ReadsNew(cfg, init, ev) && ev.i < m then 1 else 0
  {
    hide ReadsNew, ReadBy;
    NewIsRead(cfg, init, ev);
    if m > 0 {
      ReadsGrow(cfg, init, ev, m - 1);
      OneReads(cfg, init, ev, m - 1);
    }
  }

  lemma NewIsRead(cfg: Config, init: seq<Event>, ev: Event)
    requires cfg.Valid()
    ensures ReadsNew(cfg, init, ev) ==> ev.Deliver?
  {
  }

  lemma SetGrows(a: set<Message>, b: set<Message>)
    requires a <= b
    ensures |a| <= |b| && (a != b ==> |a| < |b|)
  {
    assert b == a + (b - a);
  }

  lemma {:induction false} TotalReadBounded(cfg: Config, events: seq<Event>, m: nat)
    requires cfg.Valid()
    ensures TotalRead(cfg, events, m) <= m * |Consensus.After(cfg, events).bus|
  {
    hide Consensus.After, ReadBy;
    if m > 0 {
      var bus := Consensus.After(cfg, events).bus;
      TotalReadBounded(cfg, events, m - 1);
      ReadSent(cfg, events, m - 1);
      SetGrows(ReadBy(cfg, events, m - 1), bus);
      assert m * |bus| == (m - 1) * |bus| + |bus|;
    }
  }

  /** A step broadcasts at most one message, and only when its node gets on. */
  lemma StepSends(cfg: Config, s: System, ev: Event)
    requires !ev.Inject? && !ev.MakeFaulty? && forall i | 0 <= i < |s.nodes| :: !s.nodes[i].byzantine
    ensures |Consensus.Step(cfg, s, ev).bus| <= |s.bus| + if GetsOn(s, ev, ev.i) then 1 else 0
  {
    hide Begin, Unstash, Receive, Finish, Waiting, InStash, Wanted;
    var t := Consensus.Step(cfg, s, ev);
    if t != s {
      var n := s.nodes[ev.i];
      match ev
      case BeginHeight(i, now, drained) =>
        BeginSends(n, now, drained);
        OneMoreSent(s.bus, Begin(n, now, drained).1);
      case FromStash(i) =>
        UnstashSends(n);
        OneMoreSent(s.bus, Unstash(n).1);
      case Deliver(i, m) =>
        ReceiveSends(n, cfg.healDelay, m);
        OneMoreSent(s.bus, Receive(n, cfg.healDelay, m).1);
      case FinishHeight(i) =>
        OneMoreSent(s.bus, {});
    }
  }

  lemma OneMoreSent(bus: set<Message>, out: set<Message>)
    ensures |bus + out| <= |bus| + |out|
  {
  }

  lemma BeginSends(n: Node, now: int, drained: seq<Transaction>)
    requires Runnable(n)
    ensures |Begin(n, now, drained).1| <= 1
  {
    hide Enter, Next, Elected, Propose, Fire;
  }

  lemma AcceptSends(n: Node, m: Message)
    requires Runnable(n) && Wanted(n, m) && !n.byzantine
    ensures |Accept(n, m).1| <= 1
  {
    hide CheckCandidate, StakeOf, VerifyVote, NewVote;
    if n.phase.AwaitingProposal? {
      var vote := VoteMsg(NewVote(n.height, m.block.Hash(), n.self));
      assert {vote} + {} == {vote};
    }
  }

  lemma UnstashSends(n: Node)
    requires Runnable(n) && InStash(n) && !n.byzantine
    ensures |Unstash(n).1| <= 1
  {
    hide Accept;
    var k := FirstWanted(n, n.pending);
    AcceptSends(n.(pending := n.pending[..k] + n.pending[k + 1..]), n.pending[k]);
  }

  lemma ReceiveSends(n: Node, healDelay: int, m: Message)
    requires Runnable(n) && !n.byzantine
    ensures |Receive(n, healDelay, m).1| <= if Wanted(n, m) then 1 else 0
  {
    hide Accept, Observe;
    if Wanted(n, m) {
      AcceptSends(n.(detector := Observe(n.detector, healDelay, m)), m);
    }
  }

  /** Every turn was counted, and every broadcast came with one that got its node on. */
  lemma {:induction false} TurnsCounted(cfg: Config, events: seq<Event>, heights: nat)
    requires cfg.Valid() && RunsTo(cfg, events, heights) && Sustains(cfg, heights)
    ensures
      var s := Consensus.After(cfg, events);
      && |s.nodes| == |cfg.validators|
      && |events| <= TotalMark(s, |s.nodes|, heights) + TotalRead(cfg, events, |s.nodes|)
      && |s.bus| <= TotalMark(s, |s.nodes|, heights)
  {
    hide Consensus.Step, CalmSystem, Sustains, NoneCrashed, Capped, GetsOn, Turn, ReadBy, Short, Reads,
         NoHalt.NoneHalted;
    RunsCalmly(cfg, events, heights);
    CalmHolds(cfg, events);
    CalmSane(cfg, Consensus.After(cfg, events));
    if events != [] {
      var init, ev := events[..|events| - 1], events[|events| - 1];
      var s, read := Consensus.After(cfg, init), ReadAll(cfg, init);
      TurnsCounted(cfg, init, heights);
      RunsCalmly(cfg, init, heights);
      CalmHolds(cfg, init);
      AlwaysSafe(cfg, events, heights);
      TurnOf(s, read, ev, heights);
      AlwaysShort(cfg, init, ev.i, heights);
      TurnCounts(s, read, ev, heights);
      TotalGoesOn(cfg, s, ev, |s.nodes|, heights);
      assert events == init + [ev];
      ReadsGrow(cfg, init, ev, |s.nodes|);
      forall i | 0 <= i < |s.nodes| ensures !s.nodes[i].byzantine {
        NotFaulty(cfg, init, i);
      }
      StepSends(cfg, s, ev);
      TurnGetsOn(s, read, ev, heights);
    }
  }

  lemma TurnOf(s: System, read: seq<set<Message>>, ev: Event, heights: nat)
    requires Turn(s, read, ev, heights)
    ensures !ev.Inject? && !ev.MakeFaulty? && ev.i < |s.nodes| == |read|
    ensures ev.Deliver? ==> Reads(s, ev, ev.i) && ev.m !in read[ev.i]
  {
  }

  lemma TurnGetsOn(s: System, read: seq<set<Message>>, ev: Event, heights: nat)
    requires Turn(s, read, ev, heights) && Short(s.nodes[ev.i], heights)
    ensures GetsOn(s, ev, ev.i) ==> |s.nodes[ev.i].commits| < heights
  {
    hide QuorumReached;
  }

  /** At most this many turns: enter, vote, count and finish each height on each
      node, and let each node read each message broadcast on the way. */
  ghost function TurnLimit(n: nat, heights: nat): nat {
    (n + 1) * (n * (heights * (n + 3)))
  }

  lemma {:induction false} TurnsLimited(cfg: Config, events: seq<Event>, heights: nat)
    requires cfg.Valid() && RunsTo(cfg, events, heights) && Sustains(cfg, heights)
    ensures |events| <= TurnLimit(|cfg.validators|, heights)
  {
    hide Consensus.After, RunsTo, Sustains, TotalMark, TotalRead, SystemOk;
    var s, n := Consensus.After(cfg, events), |cfg.validators|;
    TurnsCounted(cfg, events, heights);
    AlwaysOk(cfg, events);
    TotalBounded(cfg, s, n, heights);
    TotalReadBounded(cfg, events, n);
    var most := n * (heights * (n + 3));
    MulMono(n, |s.bus|, most);
    assert (n + 1) * most == n * most + most;
  }

  lemma MoveIsTurn(s: System, read: seq<set<Message>>, heights: nat) returns (ev: Event)
    requires |read| == |s.nodes| && SomeoneMoves(s, read, heights)
    ensures Turn(s, read, ev, heights)
  {
    hide QuorumReached;
    var e: Event, i: nat :|
      GetsOn(s, e, i) && |s.nodes[i].commits| < heights && (e.Deliver? ==> e.m !in read[i]);
    ev := e;
  }

  /** When all are done nobody has a turn left. */
  lemma DoneIsDone(s: System, read: seq<set<Message>>, ev: Event, heights: nat)
    requires forall i | 0 <= i < |s.nodes| :: Short(s.nodes[i], heights) && |s.nodes[i].commits| == heights
    ensures !Turn(s, read, ev, heights)
  {
  }

  /** Every run completes. In a cluster without faults, where channels deliver each
      message once, in whatever order nodes take turns and read and whatever the
      mempool gives: a run to these heights has at most TurnLimit turns, and it can
      take no further turn exactly when every node has committed exactly these
      heights. */
  lemma ClusterCompletes(cfg: Config, events: seq<Event>, heights: nat)
    requires cfg.Valid() && Sustains(cfg, heights) && RunsTo(cfg, events, heights)
    ensures |events| <= TurnLimit(|cfg.validators|, heights)
    ensures
      var s, read := Consensus.After(cfg, events), ReadAll(cfg, events);
      && |s.nodes| == |cfg.validators|
      && ((forall i | 0 <= i < |s.nodes| :: |s.nodes[i].commits| == heights)
          <==> !exists ev :: Turn(s, read, ev, heights))
  {
    hide Consensus.After, CalmSystem, Sustains, Turn, RunsTo, SomeoneMoves, Short;
    var s, read := Consensus.After(cfg, events), ReadAll(cfg, events);
    TurnsLimited(cfg, events, heights);
    RunsCalmly(cfg, events, heights);
    NeverStuck(cfg, events, heights);
    forall i | 0 <= i < |s.nodes| ensures Short(s.nodes[i], heights) && |s.nodes[i].commits| <= heights {
      AlwaysShort(cfg, events, i, heights);
      AtMostHeights(s.nodes[i], heights);
    }
    if forall i | 0 <= i < |s.nodes| :: |s.nodes[i].commits| == heights {
      forall ev ensures !Turn(s, read, ev, heights) {
        DoneIsDone(s, read, ev, heights);
      }
    } else if SomeoneMoves(s, read, heights) {
      var ev := MoveIsTurn(s, read, heights);
    }
  }

  lemma AtMostHeights(n: Node, heights: nat)
    requires Short(n, heights)
    ensures |n.commits| <= heights
  {
  }

  /** And every such run, from wherever it is, can be taken to its end. */
  lemma {:induction false} RunReturns(cfg: Config, events: seq<Event>, heights: nat) returns (more: seq<Event>)
    requires cfg.Valid() && Sustains(cfg, heights) && RunsTo(cfg, events, heights)
    ensures RunsTo(cfg, events + more, heights)
    ensures |Consensus.After(cfg, events + more).nodes| == |cfg.validators|
    ensures forall i | 0 <= i < |cfg.validators| :: |Consensus.After(cfg, events + more).nodes[i].commits| == heights
    decreases TurnLimit(|cfg.validators|, heights) - |events|
  {
    hide Consensus.After, Sustains, Turn, TurnLimit;
    ClusterCompletes(cfg, events, heights);
    var s, read := Consensus.After(cfg, events), ReadAll(cfg, events);
    if ev :| Turn(s, read, ev, heights) {
      var longer := events + [ev];
      assert longer[..|events|] == events;
      TurnsLimited(cfg, longer, heights);
      more := RunReturns(cfg, longer, heights);
      assert longer + more == events + ([ev] + more);
      more := [ev] + more;
    } else {
      more := [];
      assert events + more == events;
    }
  }
}
