/** Where only elected, honest code proposes, no node ever reaches haltf. */
module NoHalt {
  import opened Wrappers
  import opened Sums
  import opened Types
  import opened Chains
  import opened Elections
  import opened Votes
  import opened Proposals
  import opened Consensus
  import opened Invariants
  import opened Convictions
  import opened Agreement
  import opened HonestRuns

  /** No proposal is injected: all come from a node that found itself elected. */
  ghost predicate OnlyNodesPropose(events: seq<Event>) {
    forall t | 0 <= t < |events| :: events[t].Inject? ==> events[t].m.VoteMsg?
  }

  /** Node p proposed b at its k-th height. */
  ghost predicate Proposed(s: System, b: Block, p: nat, k: nat) {
    p < |s.nodes| && k < |s.nodes[p].views| && s.nodes[p].views[k].proposal == Some(b)
  }

  ghost predicate HasProposer(s: System, b: Block) {
    exists p: nat, k: nat :: Proposed(s, b, p, k)
  }

  ghost predicate ProposalsOwned(s: System) {
    forall m | m in s.bus && m.ProposalMsg? :: HasProposer(s, m.block)
  }

  /** Candidates and committed blocks came off the bus. */
  ghost predicate FromBus(bus: set<Message>, n: Node) {
    && (n.phase.Tallying? ==> ProposalMsg(n.phase.candidate) in bus)
    && forall c | c in n.commits :: ProposalMsg(c.block) in bus
  }

  ghost predicate Owned(s: System) {
    ProposalsOwned(s) && forall i | 0 <= i < |s.nodes| :: FromBus(s.bus, s.nodes[i])
  }

  // ----- what holds later held before -----

  lemma SchedulesAgreeBefore(s: System, t: System)
    requires SystemExtends(s, t) && SchedulesAgree(t)
    ensures SchedulesAgree(s)
  {
    hide SameFirings;
    forall i, j, k | 0 <= i < |s.nodes| && 0 <= j < |s.nodes| && 0 <= k < |s.nodes[i].views| && k < |s.nodes[j].views|
      ensures SameFirings(s.nodes[i].views[k], s.nodes[j].views[k])
    {
      assert s.nodes[i].views[k] == t.nodes[i].views[k];
      assert s.nodes[j].views[k] == t.nodes[j].views[k];
      assert SameFirings(t.nodes[i].views[k], t.nodes[j].views[k]);
    }
  }

  lemma OwnerKept(s: System, t: System, b: Block)
    requires SystemExtends(s, t) && HasProposer(s, b)
    ensures HasProposer(t, b)
  {
    var p: nat, k: nat :| Proposed(s, b, p, k);
    assert Extends(s.nodes[p], t.nodes[p]);
    assert Proposed(t, b, p, k);
  }

  // ----- one proposal per height -----

  lemma ProposalHeight(cfg: Config, s: System, b: Block, p: nat, k: nat)
    requires cfg.Valid() && SystemOk(cfg, s) && Proposed(s, b, p, k)
    ensures k <= |s.nodes[p].commits| && ViewOk(cfg, s.nodes[p], k)
    ensures s.nodes[p].views[k].elected == s.nodes[p].self.address && b.header.height == FirstHeight(cfg) + k
    ensures Acceptable(TipAt(cfg, s.nodes[p], k), LedgerAt(cfg, s.nodes[p], k), b)
  {
    hide Enter, Next, Elected, Acceptable, CommitsBacked, TallyExact;
    assert NodeOk(cfg, s.bus, p, s.nodes[p]);
    assert ViewOk(cfg, s.nodes[p], k);
  }

  lemma SameProposer(cfg: Config, s: System, p: nat, q: nat)
    requires cfg.Valid() && SystemOk(cfg, s) && p < |s.nodes| && q < |s.nodes|
    requires s.nodes[p].self.address == s.nodes[q].self.address
    ensures p == q
  {
    hide ViewsFollow, CommitsBacked, TallyExact, StashSent;
    assert NodeOk(cfg, s.bus, p, s.nodes[p]) && NodeOk(cfg, s.bus, q, s.nodes[q]);
    var addresses := Addresses(cfg.validators);
    assert addresses[p] == addresses[q];
  }

  /** Who is elected at a height is the same for the node that proposed and any
      node that ran it alike. */
  lemma ProposerElected(cfg: Config, s: System, i: nat, p: nat, k: nat, b: Block)
    requires cfg.Valid() && SystemOk(cfg, s) && SchedulesAgree(s) && Proposed(s, b, p, k)
    requires i < |s.nodes| && k < |s.nodes[i].views| && k <= |s.nodes[i].commits| && k <= |s.nodes[p].commits|
    requires Alike(cfg, s.nodes[i], s.nodes[p], k)
    ensures s.nodes[i].views[k].elected == s.nodes[p].self.address
  {
    hide ViewOk, CommitsBacked, TallyExact, SameFirings;
    ProposalHeight(cfg, s, b, p, k);
    assert NodeOk(cfg, s.bus, i, s.nodes[i]);
    assert ViewOk(cfg, s.nodes[i], k);
    assert SameFirings(s.nodes[i].views[k], s.nodes[p].views[k]);
    SameView(cfg, s.nodes[i], s.nodes[p], k);
  }

  lemma EntryFacts(cfg: Config, s: System, i: nat, k: nat)
    requires cfg.Valid() && SystemOk(cfg, s) && i < |s.nodes| && k <= |s.nodes[i].commits|
    ensures k <= |s.nodes[i].views|
  {
    hide ViewsFollow, CommitsBacked, TallyExact, StashSent;
    assert NodeOk(cfg, s.bus, i, s.nodes[i]);
  }

  /** Two nodes that reached a height stand alike there: each height has one
      elected proposer, who proposed one block. */
  lemma {:induction false} Lockstep(cfg: Config, s: System, i: nat, j: nat, k: nat)
    requires cfg.Valid() && SystemOk(cfg, s) && SchedulesAgree(s) && Owned(s)
    requires i < |s.nodes| && j < |s.nodes| && k <= |s.nodes[i].commits| && k <= |s.nodes[j].commits|
    ensures k <= |s.nodes[i].views| && k <= |s.nodes[j].views| && Alike(cfg, s.nodes[i], s.nodes[j], k)
    decreases k, 0
  {
    hide SystemOk, SchedulesAgree, Owned, ViewOk, CommitOk, SameFirings;
    EntryFacts(cfg, s, i, k);
    EntryFacts(cfg, s, j, k);
    if k > 0 {
      Lockstep(cfg, s, i, j, k - 1);
      SameCommit(cfg, s, i, j, k - 1);
      HeightFacts(cfg, s, i, k - 1);
      HeightFacts(cfg, s, j, k - 1);
      ViewsAlike(cfg, s, i, j, k - 1);
      SameNext(cfg, s.bus, s.nodes[i], s.nodes[j], k - 1);
    }
  }

  lemma ViewsAlike(cfg: Config, s: System, i: nat, j: nat, k: nat)
    requires cfg.Valid() && SchedulesAgree(s) && i < |s.nodes| && j < |s.nodes|
    requires k < |s.nodes[i].views| && k < |s.nodes[j].views| && k <= |s.nodes[i].commits| && k <= |s.nodes[j].commits|
    requires ViewOk(cfg, s.nodes[i], k) && ViewOk(cfg, s.nodes[j], k) && Alike(cfg, s.nodes[i], s.nodes[j], k)
    ensures s.nodes[i].views[k].election == s.nodes[j].views[k].election
    ensures s.nodes[i].views[k].elected == s.nodes[j].views[k].elected
  {
    hide ViewOk, SameFirings, Alike;
    assert SameFirings(s.nodes[i].views[k], s.nodes[j].views[k]);
    SameView(cfg, s.nodes[i], s.nodes[j], k);
  }

  lemma ElectedAlike(cfg: Config, s: System, i: nat, j: nat, k: nat)
    requires cfg.Valid() && SystemOk(cfg, s) && SchedulesAgree(s) && i < |s.nodes| && j < |s.nodes|
    requires k < |s.nodes[i].views| && k < |s.nodes[j].views| && k <= |s.nodes[i].commits| && k <= |s.nodes[j].commits|
    requires Alike(cfg, s.nodes[i], s.nodes[j], k)
    ensures s.nodes[i].views[k].elected == s.nodes[j].views[k].elected
  {
    hide SchedulesAgree, ViewOk, CommitsBacked, TallyExact, StashSent, Alike;
    assert NodeOk(cfg, s.bus, i, s.nodes[i]) && NodeOk(cfg, s.bus, j, s.nodes[j]);
    ViewsAlike(cfg, s, i, j, k);
  }

  lemma SameNext(cfg: Config, bus: set<Message>, n: Node, r: Node, k: nat)
    requires cfg.Valid() && k < |n.commits| && k < |r.commits| && k < |n.views| && k < |r.views|
    requires CommitOk(cfg, bus, n, k) && CommitOk(cfg, bus, r, k) && Alike(cfg, n, r, k)
    requires n.commits[k].block == r.commits[k].block && n.views[k].election == r.views[k].election
    ensures Alike(cfg, n, r, k + 1)
  {
    hide CheckAgainst, Backed, QuorumReached;
  }

  lemma {:induction false} SameCommit(cfg: Config, s: System, i: nat, j: nat, k: nat)
    requires cfg.Valid() && SystemOk(cfg, s) && SchedulesAgree(s) && Owned(s)
    requires i < |s.nodes| && j < |s.nodes| && k < |s.nodes[i].commits| && k < |s.nodes[j].commits|
    requires k < |s.nodes[i].views| && k < |s.nodes[j].views| && Alike(cfg, s.nodes[i], s.nodes[j], k)
    ensures s.nodes[i].commits[k].block == s.nodes[j].commits[k].block
    decreases k, 2
  {
    hide ViewOk, CommitOk, Alike, SystemOk, SchedulesAgree, Owned;
    var b, c := s.nodes[i].commits[k].block, s.nodes[j].commits[k].block;
    var p := OwnerOf(cfg, s, i, k);
    var q := OwnerOf(cfg, s, j, k);
    ProposerElected(cfg, s, i, p, k, b);
    ProposerElected(cfg, s, j, q, k, c);
    HeightFacts(cfg, s, i, k);
    HeightFacts(cfg, s, j, k);
    ViewsAlike(cfg, s, i, j, k);
    SameProposer(cfg, s, p, q);
  }

  /** The node that proposed the block i committed at its k-th height. */
  lemma {:induction false} OwnerOf(cfg: Config, s: System, i: nat, k: nat) returns (p: nat)
    requires cfg.Valid() && SystemOk(cfg, s) && SchedulesAgree(s) && Owned(s)
    requires i < |s.nodes| && k < |s.nodes[i].commits|
    ensures Proposed(s, s.nodes[i].commits[k].block, p, k)
    ensures k < |s.nodes[i].views| && k <= |s.nodes[p].commits| && k <= |s.nodes[p].views|
    ensures Alike(cfg, s.nodes[i], s.nodes[p], k)
    decreases k, 1
  {
    hide SystemOk, SchedulesAgree, Owned, ViewOk, CommitOk, Alike;
    p := OwnerAt(cfg, s, i, k);
    HeightFacts(cfg, s, i, k);
    EntryFacts(cfg, s, p, k);
    Lockstep(cfg, s, i, p, k);
  }

  lemma OwnerAt(cfg: Config, s: System, i: nat, k: nat) returns (p: nat)
    requires cfg.Valid() && SystemOk(cfg, s) && Owned(s) && i < |s.nodes| && k < |s.nodes[i].commits|
    ensures Proposed(s, s.nodes[i].commits[k].block, p, k) && k <= |s.nodes[p].commits|
  {
    hide SystemOk, Owned, ViewOk, Acceptable;
    var b := s.nodes[i].commits[k].block;
    CommitOwned(s, i, k);
    var q: nat, h: nat :| Proposed(s, b, q, h);
    ProposalHeight(cfg, s, b, q, h);
    HeightOf(cfg, s, i, k);
    p := q;
  }

  lemma CommitOwned(s: System, i: nat, k: nat)
    requires Owned(s) && i < |s.nodes| && k < |s.nodes[i].commits|
    ensures HasProposer(s, s.nodes[i].commits[k].block)
  {
    hide HasProposer;
    assert FromBus(s.bus, s.nodes[i]);
    assert s.nodes[i].commits[k] in s.nodes[i].commits;
    assert ProposalMsg(s.nodes[i].commits[k].block) in s.bus;
  }

  // ----- no halt -----

  /** A proposal for the height a node is at passes that node's checks. */
  lemma ProposalFits(cfg: Config, s: System, i: nat, b: Block)
    requires cfg.Valid() && SystemOk(cfg, s) && AllAlike(cfg, s) && i < |s.nodes|
    requires HasProposer(s, b) && b.header.height == s.nodes[i].height
    ensures s.nodes[i].chain.blocks != []
    ensures Acceptable(s.nodes[i].chain.Tip().header, s.nodes[i].chain.state, b)
  {
    hide ViewOk, CommitOk, Acceptable, TallyExact, StashSent;
    var n := s.nodes[i];
    assert NodeOk(cfg, s.bus, i, n);
    var p: nat, k: nat :| Proposed(s, b, p, k);
    ProposalHeight(cfg, s, b, p, k);
    assert k == |n.commits|;
    assert StandAlike(cfg, n, s.nodes[p], k);
  }

  ghost predicate NoneHalted(s: System) {
    forall i | 0 <= i < |s.nodes| :: !s.nodes[i].phase.Halted?
  }

  lemma AcceptRuns(cfg: Config, s: System, i: nat, n: Node, m: Message)
    requires cfg.Valid() && SystemOk(cfg, s) && AllAlike(cfg, s) && Owned(s) && i < |s.nodes|
    requires Runnable(n) && Wanted(n, m) && m in s.bus && !n.phase.Halted?
    requires n.chain == s.nodes[i].chain && n.height == s.nodes[i].height
    ensures !Accept(n, m).0.phase.Halted?
    ensures FromBus(s.bus, n) ==> FromBus(s.bus, Accept(n, m).0)
    ensures forall x | x in Accept(n, m).1 :: x.VoteMsg?
  {
    hide CheckAgainst, SystemOk, AllAlike, StakeOf, VerifyVote;
    if n.phase.AwaitingProposal? {
      ProposalFits(cfg, s, i, m.block);
    }
  }

  lemma PutRuns(s: System, i: nat, r: (Node, set<Message>))
    requires i < |s.nodes| && Owned(s) && NoneHalted(s) && Extends(s.nodes[i], r.0)
    requires FromBus(s.bus, r.0) && !r.0.phase.Halted?
    requires forall m | m in r.1 && m.ProposalMsg? :: HasProposer(Put(s, i, r), m.block)
    ensures Owned(Put(s, i, r)) && NoneHalted(Put(s, i, r))
  {
    hide HasProposer;
    var t := Put(s, i, r);
    assert SystemExtends(s, t);
    forall m | m in t.bus && m.ProposalMsg? ensures HasProposer(t, m.block) {
      if m in s.bus {
        OwnerKept(s, t, m.block);
      }
    }
  }

  lemma StepRuns(cfg: Config, s: System, ev: Event)
    requires cfg.Valid() && SystemOk(cfg, s) && AllAlike(cfg, s) && Owned(s) && NoneHalted(s)
    requires ev.Inject? ==> ev.m.VoteMsg?
    ensures Owned(Consensus.Step(cfg, s, ev)) && NoneHalted(Consensus.Step(cfg, s, ev))
  {
    hide SystemOk, AllAlike, Owned, NoneHalted, Begin, Unstash, Receive, Finish;
    if Consensus.Step(cfg, s, ev) != s {
      match ev
      case BeginHeight(i, now, drained) => BeginRuns(cfg, s, i, now, drained);
      case FromStash(i) => UnstashRuns(cfg, s, i);
      case Deliver(i, m) => ReceiveRuns(cfg, s, i, m);
      case FinishHeight(i) => FinishRuns(cfg, s, i);
      case MakeFaulty(i) => FaultyRuns(s, i);
      case Inject(m) => InjectRuns(s, m);
    }
  }

  lemma FaultyRuns(s: System, i: nat)
    requires i < |s.nodes| && Owned(s) && NoneHalted(s)
    ensures
      var t := Put(s, i, (s.nodes[i].(byzantine := true), {}));
      Owned(t) && NoneHalted(t)
  {
    hide HasProposer;
    PutRuns(s, i, (s.nodes[i].(byzantine := true), {}));
  }

  lemma InjectRuns(s: System, m: Message)
    requires Owned(s) && NoneHalted(s) && m.VoteMsg?
    ensures Owned(s.(bus := s.bus + {m})) && NoneHalted(s.(bus := s.bus + {m}))
  {
    hide HasProposer;
    var t := s.(bus := s.bus + {m});
    assert SystemExtends(s, t);
    forall x | x in t.bus && x.ProposalMsg? ensures HasProposer(t, x.block) {
      OwnerKept(s, t, x.block);
    }
  }

  lemma BeginRuns(cfg: Config, s: System, i: nat, now: int, drained: seq<Transaction>)
    requires cfg.Valid() && i < |s.nodes| && Runnable(s.nodes[i]) && s.nodes[i].phase.Ready? && Owned(s)
             && NoneHalted(s)
    ensures
      var t := Put(s, i, Begin(s.nodes[i], now, drained));
      Owned(t) && NoneHalted(t)
  {
    hide Enter, Next, Elected, Propose, HasProposer;
    var n, r := s.nodes[i], Begin(s.nodes[i], now, drained);
    var t := Put(s, i, r);
    forall m | m in r.1 && m.ProposalMsg? ensures HasProposer(t, m.block) {
      OwnProposal(t, m.block, i, |n.views|);
    }
    PutRuns(s, i, r);
  }

  lemma OwnProposal(s: System, b: Block, p: nat, k: nat)
    requires Proposed(s, b, p, k)
    ensures HasProposer(s, b)
  {
  }

  lemma UnstashRuns(cfg: Config, s: System, i: nat)
    requires cfg.Valid() && SystemOk(cfg, s) && AllAlike(cfg, s) && Owned(s) && NoneHalted(s)
    requires i < |s.nodes| && Runnable(s.nodes[i]) && InStash(s.nodes[i])
    ensures
      var t := Put(s, i, Unstash(s.nodes[i]));
      Owned(t) && NoneHalted(t)
  {
    hide Accept, ViewsFollow, CommitsBacked, TallyExact, AllAlike, HasProposer;
    var n := s.nodes[i];
    assert NodeOk(cfg, s.bus, i, n);
    var k := FirstWanted(n, n.pending);
    var q := n.(pending := n.pending[..k] + n.pending[k + 1..]);
    assert n.pending[k] in n.pending;
    AcceptRuns(cfg, s, i, q, n.pending[k]);
    UnstashExtends(n);
    PutRuns(s, i, Unstash(n));
  }

  lemma ReceiveRuns(cfg: Config, s: System, i: nat, m: Message)
    requires cfg.Valid() && SystemOk(cfg, s) && AllAlike(cfg, s) && Owned(s) && NoneHalted(s)
    requires i < |s.nodes| && Runnable(s.nodes[i]) && m in s.bus
    ensures
      var t := Put(s, i, Receive(s.nodes[i], cfg.healDelay, m));
      Owned(t) && NoneHalted(t)
  {
    hide Accept, SystemOk, AllAlike, HasProposer, Observe;
    var n := s.nodes[i];
    var seen := n.(detector := Observe(n.detector, cfg.healDelay, m));
    if Wanted(n, m) {
      AcceptRuns(cfg, s, i, seen, m);
      AcceptExtends(seen, m);
    }
    PutRuns(s, i, Receive(n, cfg.healDelay, m));
  }

  lemma AcceptExtends(n: Node, m: Message)
    requires Runnable(n) && Wanted(n, m)
    ensures Extends(n, Accept(n, m).0)
  {
    hide CheckCandidate, StakeOf, VerifyVote;
  }

  lemma FinishRuns(cfg: Config, s: System, i: nat)
    requires cfg.Valid() && SystemOk(cfg, s) && Owned(s) && NoneHalted(s)
    requires i < |s.nodes| && Runnable(s.nodes[i]) && s.nodes[i].phase.Tallying?
    ensures
      var t := Put(s, i, (Finish(s.nodes[i], cfg.paced), {}));
      Owned(t) && NoneHalted(t)
  {
    hide CheckCandidate, ViewsFollow, CommitsBacked, HasProposer, Commit, Prune, PruneStash, Forget;
    assert NodeOk(cfg, s.bus, i, s.nodes[i]);
    PutRuns(s, i, (Finish(s.nodes[i], cfg.paced), {}));
  }

  // ----- every run -----

  lemma StartsWell(cfg: Config)
    requires cfg.Valid()
    ensures Owned(Start(cfg)) && NoneHalted(Start(cfg))
  {
  }

  /** A fault budget kept by a run was kept by everything before it. */
  lemma BudgetBefore(s: System, t: System)
    requires SystemExtends(s, t) && FaultsBudgeted(t, Equivocators(t.bus))
    ensures FaultsBudgeted(s, Equivocators(s.bus))
  {
    hide Equivocators, WeightOf, Weights, Total;
    EquivocatorsGrow(s.bus, t.bus);
    forall i, k | 0 <= i < |s.nodes| && 0 <= k < |s.nodes[i].views|
      ensures Budgeted(s.nodes[i].views[k].election, Equivocators(s.bus))
    {
      var e := t.nodes[i].views[k].election;
      assert s.nodes[i].views[k].election == e && Budgeted(e, Equivocators(t.bus));
      WeightMonotone(Full(e), Equivocators(s.bus), Equivocators(t.bus));
    }
  }

  lemma {:induction false} RunsOn(cfg: Config, events: seq<Event>)
    requires cfg.Valid() && OnlyNodesPropose(events)
    requires FaultsBudgeted(Consensus.After(cfg, events), Equivocators(Consensus.After(cfg, events).bus))
    ensures Owned(Consensus.After(cfg, events)) && NoneHalted(Consensus.After(cfg, events))
  {
    hide Consensus.Step, FaultsBudgeted, Equivocators, AllGrounded, Owned, NoneHalted, AllAlike;
    if events == [] {
      StartsWell(cfg);
    } else {
      var init, ev := events[..|events| - 1], events[|events| - 1];
      var s := Consensus.After(cfg, init);
      StepExtends(cfg, s, ev);
      BudgetBefore(s, Consensus.After(cfg, events));
      RunsOn(cfg, init);
      AlwaysOk(cfg, init);
      AlwaysGrounded(cfg, init);
      BudgetedAlike(cfg, s);
      StepRuns(cfg, s, ev);
    }
  }

  /** Neither haltf call is reachable in a run where only elected honest code
      proposes and equivocators hold at most a third of each height's weight,
      however votes are forged, delayed, repeated or reordered, and whenever each
      node notices an equivocation. */
  lemma NoNodeHalts(cfg: Config, events: seq<Event>)
    requires cfg.Valid() && OnlyNodesPropose(events)
    requires FaultsBudgeted(Consensus.After(cfg, events), Equivocators(Consensus.After(cfg, events).bus))
    ensures
      var s := Consensus.After(cfg, events);
      forall i | 0 <= i < |s.nodes| :: !s.nodes[i].phase.Halted?
  {
    hide Consensus.After, FaultsBudgeted, Equivocators, Owned;
    RunsOn(cfg, events);
  }

  /** The same by who misbehaves: validators outside `faulty` sign one vote per
      height, and the faulty hold at most a third of each height's weight. */
  lemma MinorityCannotHalt(cfg: Config, events: seq<Event>, faulty: set<Address>)
    requires cfg.Valid() && OnlyNodesPropose(events)
    requires AllHonestBut(cfg, events, faulty) && FaultsBudgeted(Consensus.After(cfg, events), faulty)
    ensures
      var s := Consensus.After(cfg, events);
      forall i | 0 <= i < |s.nodes| :: !s.nodes[i].phase.Halted?
  {
    hide Consensus.After, AllHonestBut, FaultsBudgeted, Equivocators;
    BudgetHolds(cfg, events, faulty);
    NoNodeHalts(cfg, events);
  }

  // ----- without a fault budget -----

  lemma ScheduledAlike(cfg: Config, s: System)
    requires cfg.Valid() && SystemOk(cfg, s) && SchedulesAgree(s) && Owned(s)
    ensures AllAlike(cfg, s)
  {
    hide SystemOk, SchedulesAgree, Owned;
    forall i, j, k | 0 <= i < |s.nodes| && 0 <= j < |s.nodes| && 0 <= k <= |s.nodes[i].commits|
        && k <= |s.nodes[j].commits|
      ensures StandAlike(cfg, s.nodes[i], s.nodes[j], k)
    {
      Lockstep(cfg, s, i, j, k);
    }
  }

  lemma {:induction false} ScheduledRunsOn(cfg: Config, events: seq<Event>)
    requires cfg.Valid() && OnlyNodesPropose(events) && SchedulesAgree(Consensus.After(cfg, events))
    ensures Owned(Consensus.After(cfg, events)) && NoneHalted(Consensus.After(cfg, events))
  {
    hide Consensus.Step, SchedulesAgree, Owned, NoneHalted, AllAlike;
    if events == [] {
      StartsWell(cfg);
    } else {
      var init, ev := events[..|events| - 1], events[|events| - 1];
      var s := Consensus.After(cfg, init);
      StepExtends(cfg, s, ev);
      SchedulesAgreeBefore(s, Consensus.After(cfg, events));
      ScheduledRunsOn(cfg, init);
      AlwaysOk(cfg, init);
      ScheduledAlike(cfg, s);
      StepRuns(cfg, s, ev);
    }
  }

  /** Where slash schedules agree no fault budget is needed: no node halts, and all
      commit the very same blocks, signatures included. */
  lemma ScheduledNoNodeHalts(cfg: Config, events: seq<Event>)
    requires cfg.Valid() && OnlyNodesPropose(events) && SchedulesAgree(Consensus.After(cfg, events))
    ensures
      var s := Consensus.After(cfg, events);
      && (forall i | 0 <= i < |s.nodes| :: !s.nodes[i].phase.Halted?)
      && forall i, j, k | 0 <= i < |s.nodes| && 0 <= j < |s.nodes|
             && 0 <= k < |s.nodes[i].commits| && k < |s.nodes[j].commits| ::
           s.nodes[i].commits[k].block == s.nodes[j].commits[k].block
  {
    hide Consensus.After, SchedulesAgree, Owned, SystemOk, ViewOk, CommitOk, Alike;
    var s := Consensus.After(cfg, events);
    ScheduledRunsOn(cfg, events);
    AlwaysOk(cfg, events);
    forall i, j, k | 0 <= i < |s.nodes| && 0 <= j < |s.nodes|
        && 0 <= k < |s.nodes[i].commits| && k < |s.nodes[j].commits|
      ensures s.nodes[i].commits[k].block == s.nodes[j].commits[k].block
    {
      HeightFacts(cfg, s, i, k);
      HeightFacts(cfg, s, j, k);
      Lockstep(cfg, s, i, j, k);
      SameCommit(cfg, s, i, j, k);
    }
  }
}
