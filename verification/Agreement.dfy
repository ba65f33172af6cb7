/** Safety over all runs: nodes agree on headers, bodies and ledgers. */
module Agreement {
  import opened Wrappers
  import opened Words
  import opened Sums
  import opened Types
  import opened Ledger
  import opened Chains
  import opened Elections
  import opened Votes
  import opened Consensus
  import opened Invariants
  import opened Convictions
  import Merkle
  import Nonces

  // ----- what is asked of a run -----

  /** The guilty hold at most a third of a height's weight, counting what slashed
      members would have, and three times its total fits a uint64. */
  ghost predicate Budgeted(e: ElectionView, guilty: set<Address>) {
    && e.Valid()
    && 3 * WeightOf(Full(e), guilty) <= Total(Weights(Full(e)))
    && 3 * Total(Weights(Full(e))) < TWO64
  }

  /** At every height any node ran. */
  ghost predicate FaultsBudgeted(s: System, guilty: set<Address>) {
    forall i, k | 0 <= i < |s.nodes| && 0 <= k < |s.nodes[i].views| :: Budgeted(s.nodes[i].views[k].election, guilty)
  }

  /** Any two nodes fired the same slashes and heals at every height both ran. */
  ghost predicate SchedulesAgree(s: System) {
    forall i, j, k | 0 <= i < |s.nodes| && 0 <= j < |s.nodes| && 0 <= k < |s.nodes[i].views|
      && k < |s.nodes[j].views| :: SameFirings(s.nodes[i].views[k], s.nodes[j].views[k])
  }

  ghost predicate SameFirings(v: View, w: View) {
    v.offenders == w.offenders && v.healed == w.healed
  }

  /** Signers of conflicting votes at this height hold at most a third of its
      weight, and three times its total fits a uint64. */
  ghost predicate HeightBudgeted(bus: set<Message>, e: ElectionView, height: int) {
    && e.Valid()
    && 3 * WeightOf(e, Conflicted(bus, height)) <= Total(Weights(e))
    && 3 * Total(Weights(e)) < TWO64
  }

  ghost predicate HeightsBudgeted(cfg: Config, s: System)
    requires cfg.Valid()
  {
    forall i, k | 0 <= i < |s.nodes| && 0 <= k < |s.nodes[i].views| ::
      HeightBudgeted(s.bus, s.nodes[i].views[k].election, FirstHeight(cfg) + k)
  }

  // ----- one height -----

  /** Two quorums over the same weights name the same block. */
  lemma QuorumsAgree(bus: set<Message>, e: ElectionView, height: int, a: set<Address>, b: set<Address>,
                     hashA: Digest, hashB: Digest)
    requires HeightBudgeted(bus, e, height)
    requires Backed(bus, e.addresses, a, height, hashA) && QuorumReached(e, Uint64(WeightOf(e, a)))
    requires Backed(bus, e.addresses, b, height, hashB) && QuorumReached(e, Uint64(WeightOf(e, b)))
    ensures hashA == hashB
  {
    if hashA != hashB {
      BothConflict(bus, e.addresses, height, a, b, hashA, hashB);
      QuorumWeight(e, a);
      QuorumWeight(e, b);
      QuorumsMeet(e, a, b);
      WeightMonotone(e, a * b, Conflicted(bus, height));
    }
  }

  /** Two quorums over one height's weights name the same block even where the two
      nodes have different members slashed. */
  lemma QuorumsAgreeAcross(bus: set<Message>, e: ElectionView, r: ElectionView, height: int, a: set<Address>,
                           b: set<Address>, hashA: Digest, hashB: Digest)
    requires Budgeted(e, Equivocators(bus)) && r.Valid()
    requires e.addresses == r.addresses && Weights(Full(e)) == Weights(Full(r))
    requires forall i | 0 <= i < |e.addresses| && (e.slashed[i] || r.slashed[i]) :: e.addresses[i] in Equivocators(bus)
    requires Backed(bus, e.addresses, a, height, hashA) && QuorumReached(e, Uint64(WeightOf(e, a)))
    requires Backed(bus, e.addresses, b, height, hashB) && QuorumReached(r, Uint64(WeightOf(r, b)))
    ensures hashA == hashB
  {
    hide Weights, Total, WeightOf, Equivocators, Conflicted, Backed;
    if hashA != hashB {
      FullAtLeast(e);
      FullAtLeast(r);
      QuorumWeight(e, a);
      QuorumWeight(r, b);
      QuorumsMeetAcross(e, r, Equivocators(bus), a, b);
      BothConflict(bus, e.addresses, height, a, b, hashA, hashB);
      ConflictedEquivocate(bus, height);
    }
  }

  lemma QuorumWeight(e: ElectionView, a: set<Address>)
    requires e.Valid() && 3 * Total(Weights(e)) < TWO64
    requires QuorumReached(e, Uint64(WeightOf(e, a)))
    ensures 3 * WeightOf(e, a) > 2 * Total(Weights(e))
  {
    hide WeightOf, Weights, Total;
    WeightMonotone(e, a, a);
  }

  lemma BothConflict(bus: set<Message>, members: seq<Address>, height: int, a: set<Address>, b: set<Address>,
                     hashA: Digest, hashB: Digest)
    requires Backed(bus, members, a, height, hashA) && Backed(bus, members, b, height, hashB) && hashA != hashB
    ensures a * b <= Conflicted(bus, height)
  {
    forall x | x in a * b ensures x in Conflicted(bus, height) {
      assert HasVote(bus, x, height, hashA) && HasVote(bus, x, height, hashB);
      var m :| m in bus && VotedFor(m, x, height, hashA);
      var n :| n in bus && VotedFor(n, x, height, hashB);
      assert Conflict(m, n, height);
    }
  }

  /** Same block apart from the proposer's signature bytes. */
  ghost predicate SameBlock(b: Block, c: Block) {
    b.header == c.header && b.transactions == c.transactions
  }

  /** From one ledger, one header admits one body and one next ledger. */
  lemma HeaderDecides(tip: Header, ledger: State, b: Block, c: Block)
    requires CheckAgainst(tip, ledger, b).Success? && CheckAgainst(tip, ledger, c).Success?
    requires b.Hash() == c.Hash()
    ensures SameBlock(b, c) && CheckAgainst(tip, ledger, b) == CheckAgainst(tip, ledger, c)
  {
    hide Merkle.Root, ApplyTxs, DistributeReward, VerifyFrom;
    Nonces.RootBindsBody(ledger, ledger, b.transactions, c.transactions);
  }

  // ----- all heights -----

  /** Two nodes stand alike before the k-th height. */
  ghost predicate Alike(cfg: Config, n: Node, r: Node, k: nat)
    requires cfg.Valid() && k <= |n.commits| && k <= |r.commits| && k <= |n.views| && k <= |r.views|
  {
    TipAt(cfg, n, k) == TipAt(cfg, r, k) && LedgerAt(cfg, n, k) == LedgerAt(cfg, r, k)
    && ElectionAt(cfg, n, k) == ElectionAt(cfg, r, k)
  }

  /** Nodes that entered a height alike, with the same firings, ran it alike. */
  lemma SameView(cfg: Config, n: Node, r: Node, k: nat)
    requires cfg.Valid() && k < |n.views| && k < |r.views| && k <= |n.commits| && k <= |r.commits|
    requires Alike(cfg, n, r, k) && ViewOk(cfg, n, k) && ViewOk(cfg, r, k) && SameFirings(n.views[k], r.views[k])
    ensures n.views[k].election == r.views[k].election && n.views[k].elected == r.views[k].elected
  {
    hide Enter, Next, Elected;
  }

  lemma OneHeightAgrees(cfg: Config, bus: set<Message>, n: Node, r: Node, k: nat)
    requires cfg.Valid() && k < |n.commits| && k < |r.commits| && k < |n.views| && k < |r.views|
    requires Alike(cfg, n, r, k) && ViewOk(cfg, n, k) && ViewOk(cfg, r, k) && SameFirings(n.views[k], r.views[k])
    requires CommitOk(cfg, bus, n, k) && CommitOk(cfg, bus, r, k)
    requires HeightBudgeted(bus, n.views[k].election, FirstHeight(cfg) + k)
    ensures SameBlock(n.commits[k].block, r.commits[k].block) && Alike(cfg, n, r, k + 1)
  {
    hide ViewOk, HeightBudgeted, Backed, QuorumReached, WeightOf, CheckAgainst;
    SameView(cfg, n, r, k);
    var b, c, e := n.commits[k], r.commits[k], n.views[k].election;
    QuorumsAgree(bus, e, FirstHeight(cfg) + k, b.voters, c.voters, b.block.Hash(), c.block.Hash());
    HeaderDecides(TipAt(cfg, n, k), LedgerAt(cfg, n, k), b.block, c.block);
  }

  lemma {:induction false} AlikeAt(cfg: Config, s: System, i: nat, j: nat, k: nat)
    requires cfg.Valid() && SystemOk(cfg, s) && SchedulesAgree(s) && HeightsBudgeted(cfg, s)
    requires i < |s.nodes| && j < |s.nodes| && k <= |s.nodes[i].commits| && k <= |s.nodes[j].commits|
    ensures k <= |s.nodes[i].views| && k <= |s.nodes[j].views|
    ensures Alike(cfg, s.nodes[i], s.nodes[j], k)
    ensures forall q | 0 <= q < k :: SameBlock(s.nodes[i].commits[q].block, s.nodes[j].commits[q].block)
  {
    hide ViewOk, CommitOk, HeightBudgeted, SameFirings;
    var n, r := s.nodes[i], s.nodes[j];
    assert NodeOk(cfg, s.bus, i, n) && NodeOk(cfg, s.bus, j, r);
    if k > 0 {
      AlikeAt(cfg, s, i, j, k - 1);
      assert SameFirings(n.views[k - 1], r.views[k - 1]);
      assert HeightBudgeted(s.bus, n.views[k - 1].election, FirstHeight(cfg) + (k - 1));
      OneHeightAgrees(cfg, s.bus, n, r, k - 1);
    }
  }

  /** Agreement by the height. Where slash schedules agree, the fault budget is
      each height's own: equivocators may hold more than a third over time, as
      long as those who equivocate at one height do not. */
  lemma ScheduledNodesAgree(cfg: Config, events: seq<Event>, i: nat, j: nat, k: nat)
    requires cfg.Valid()
    requires SchedulesAgree(After(cfg, events)) && HeightsBudgeted(cfg, After(cfg, events))
    requires i < |After(cfg, events).nodes| && j < |After(cfg, events).nodes|
    requires k < |After(cfg, events).nodes[i].commits| && k < |After(cfg, events).nodes[j].commits|
    ensures
      var c, d := After(cfg, events).nodes[i].commits[k], After(cfg, events).nodes[j].commits[k];
      && c.block.header.height == FirstHeight(cfg) + k
      && SameBlock(c.block, d.block) && c.ledger == d.ledger
  {
    hide After;
    AlwaysOk(cfg, events);
    var s := After(cfg, events);
    AlikeAt(cfg, s, i, j, k + 1);
    HeightOf(cfg, s, i, k);
  }

  lemma {:induction false} CommittedHeight(cfg: Config, bus: set<Message>, n: Node, k: nat)
    requires cfg.Valid() && |n.commits| <= |n.views| && CommitsBacked(cfg, bus, n) && k < |n.commits|
    ensures n.commits[k].block.header.height == FirstHeight(cfg) + k
  {
    hide Backed, QuorumReached, Apply;
    assert CommitOk(cfg, bus, n, k);
    if k > 0 {
      CommittedHeight(cfg, bus, n, k - 1);
    }
  }

  lemma HeightOf(cfg: Config, s: System, i: nat, k: nat)
    requires cfg.Valid() && SystemOk(cfg, s) && i < |s.nodes| && k < |s.nodes[i].commits|
    ensures s.nodes[i].commits[k].block.header.height == FirstHeight(cfg) + k
  {
    hide ViewsFollow, CommitsBacked, TallyExact, StashSent;
    assert NodeOk(cfg, s.bus, i, s.nodes[i]);
    CommittedHeight(cfg, s.bus, s.nodes[i], k);
  }

  lemma HeightFacts(cfg: Config, s: System, i: nat, k: nat)
    requires cfg.Valid() && SystemOk(cfg, s) && i < |s.nodes| && k < |s.nodes[i].commits|
    ensures k < |s.nodes[i].views| && ViewOk(cfg, s.nodes[i], k) && CommitOk(cfg, s.bus, s.nodes[i], k)
  {
    hide ViewOk, CommitOk, TallyExact, StashSent;
    assert NodeOk(cfg, s.bus, i, s.nodes[i]);
  }

  lemma CommitChecked(cfg: Config, s: System, i: nat, k: nat)
    requires cfg.Valid() && SystemOk(cfg, s) && i < |s.nodes| && k < |s.nodes[i].commits|
    ensures
      var n := s.nodes[i];
      CheckAgainst(TipAt(cfg, n, k), LedgerAt(cfg, n, k), n.commits[k].block) == Success(n.commits[k].ledger)
  {
    hide SystemOk, CheckAgainst, Backed, QuorumReached, ViewOk, TipAt, LedgerAt;
    HeightFacts(cfg, s, i, k);
  }

  // ----- agreement whatever the schedules -----

  /** Two nodes have the same tip and ledger before the k-th height, though perhaps
      not the same members slashed. */
  ghost predicate StandAlike(cfg: Config, n: Node, r: Node, k: nat)
    requires cfg.Valid()
  {
    && k <= |n.commits| && k <= |r.commits|
    && TipAt(cfg, n, k) == TipAt(cfg, r, k) && LedgerAt(cfg, n, k) == LedgerAt(cfg, r, k)
  }

  /** Any two nodes do, before every height both reached. */
  ghost predicate AllAlike(cfg: Config, s: System)
    requires cfg.Valid()
  {
    forall i, j, k | 0 <= i < |s.nodes| && 0 <= j < |s.nodes| && 0 <= k <= |s.nodes[i].commits|
      && k <= |s.nodes[j].commits| :: StandAlike(cfg, s.nodes[i], s.nodes[j], k)
  }

  /** The weights of a height, slashes apart, are those of its ledger. */
  lemma FullWeights(cfg: Config, s: System, i: nat, j: nat, k: nat)
    requires cfg.Valid() && SystemOk(cfg, s) && i < |s.nodes| && j < |s.nodes|
    requires k < |s.nodes[i].commits| && k < |s.nodes[j].commits| && StandAlike(cfg, s.nodes[i], s.nodes[j], k)
    ensures k < |s.nodes[i].views| && k < |s.nodes[j].views|
    ensures
      var e, r := s.nodes[i].views[k].election, s.nodes[j].views[k].election;
      e.Valid() && r.Valid() && e.addresses == r.addresses && Weights(Full(e)) == Weights(Full(r))
  {
    hide SystemOk, CommitOk, TipAt;
    ElectionFields(cfg, s, i, k);
    ElectionFields(cfg, s, j, k);
    var e, r := s.nodes[i].views[k].election, s.nodes[j].views[k].election;
    assert Weights(Full(e)) == Weights(Full(r));
  }

  lemma ElectionFields(cfg: Config, s: System, i: nat, k: nat)
    requires cfg.Valid() && SystemOk(cfg, s) && i < |s.nodes| && k < |s.nodes[i].commits|
    ensures k < |s.nodes[i].views|
    ensures
      var n := s.nodes[i];
      var e := n.views[k].election;
      && e.Valid() && e.addresses == Addresses(cfg.validators) && e.origStake == Stakes(cfg.validators)
      && e.delegated == Synced(LedgerAt(cfg, n, k).delegations, e.addresses)
  {
    hide ViewFrom, CommitOk, TallyExact, StashSent;
    var n := s.nodes[i];
    HeightFacts(cfg, s, i, k);
    assert NodeOk(cfg, s.bus, i, n);
    ElectionMembers(cfg, n, k);
    ElectionMembers(cfg, n, k + 1);
    ViewFields(n.views[k], ElectionAt(cfg, n, k), TipAt(cfg, n, k), LedgerAt(cfg, n, k), n.self.address,
               FirstHeight(cfg) + k);
  }

  lemma SlashedAreGuilty(cfg: Config, s: System, i: nat, k: nat)
    requires cfg.Valid() && SystemOk(cfg, s) && AllGrounded(s) && i < |s.nodes| && k < |s.nodes[i].commits|
    requires k < |s.nodes[i].views|
    ensures
      var e := s.nodes[i].views[k].election;
      && e.Valid()
      && forall q | 0 <= q < |e.addresses| && e.slashed[q] :: e.addresses[q] in Equivocators(s.bus)
  {
    hide SystemOk, AllGrounded, Equivocators;
    ElectionFields(cfg, s, i, k);
    var e := s.nodes[i].views[k].election;
    forall q | 0 <= q < |e.addresses| && e.slashed[q] ensures e.addresses[q] in Equivocators(s.bus) {
      assert IsSlashed(e, e.addresses[q]);
      SlashedEquivocated(cfg, s, i, k + 1, e.addresses[q]);
    }
  }

  lemma OneHeightStands(cfg: Config, s: System, i: nat, j: nat, k: nat)
    requires cfg.Valid() && SystemOk(cfg, s) && AllGrounded(s) && FaultsBudgeted(s, Equivocators(s.bus))
    requires i < |s.nodes| && j < |s.nodes| && k < |s.nodes[i].commits| && k < |s.nodes[j].commits|
    requires StandAlike(cfg, s.nodes[i], s.nodes[j], k)
    ensures SameBlock(s.nodes[i].commits[k].block, s.nodes[j].commits[k].block)
    ensures StandAlike(cfg, s.nodes[i], s.nodes[j], k + 1)
  {
    hide SystemOk, AllGrounded, Equivocators, Weights, Total, WeightOf, Full, Backed, QuorumReached, CheckAgainst,
         ViewOk;
    var n, r := s.nodes[i], s.nodes[j];
    HeightFacts(cfg, s, i, k);
    HeightFacts(cfg, s, j, k);
    FullWeights(cfg, s, i, j, k);
    SlashedAreGuilty(cfg, s, i, k);
    SlashedAreGuilty(cfg, s, j, k);
    var b, c := n.commits[k], r.commits[k];
    assert Budgeted(n.views[k].election, Equivocators(s.bus));
    QuorumsAgreeAcross(s.bus, n.views[k].election, r.views[k].election, FirstHeight(cfg) + k, b.voters, c.voters,
                       b.block.Hash(), c.block.Hash());
    HeaderDecides(TipAt(cfg, n, k), LedgerAt(cfg, n, k), b.block, c.block);
  }

  lemma {:induction false} StandsAt(cfg: Config, s: System, i: nat, j: nat, k: nat)
    requires cfg.Valid() && SystemOk(cfg, s) && AllGrounded(s) && FaultsBudgeted(s, Equivocators(s.bus))
    requires i < |s.nodes| && j < |s.nodes| && k <= |s.nodes[i].commits| && k <= |s.nodes[j].commits|
    ensures StandAlike(cfg, s.nodes[i], s.nodes[j], k)
  {
    hide SystemOk, AllGrounded, FaultsBudgeted, Equivocators;
    if k > 0 {
      StandsAt(cfg, s, i, j, k - 1);
      OneHeightStands(cfg, s, i, j, k - 1);
    }
  }

  /** Agreement. In every run, under any delivery order, whatever anyone injects
      and whenever each node notices an equivocation: if those who ever sign
      conflicting votes hold at most a third of each height's weight, slashed
      weight included, any two nodes have the same header, the same transactions
      and the same ledger at every height both committed. */
  lemma NodesAgree(cfg: Config, events: seq<Event>, i: nat, j: nat, k: nat)
    requires cfg.Valid() && FaultsBudgeted(After(cfg, events), Equivocators(After(cfg, events).bus))
    requires i < |After(cfg, events).nodes| && j < |After(cfg, events).nodes|
    requires k < |After(cfg, events).nodes[i].commits| && k < |After(cfg, events).nodes[j].commits|
    ensures
      var c, d := After(cfg, events).nodes[i].commits[k], After(cfg, events).nodes[j].commits[k];
      && c.block.header.height == FirstHeight(cfg) + k
      && SameBlock(c.block, d.block) && c.ledger == d.ledger
  {
    hide After, SystemOk, AllGrounded, FaultsBudgeted, Equivocators, SameBlock;
    AlwaysOk(cfg, events);
    AlwaysGrounded(cfg, events);
    var s := After(cfg, events);
    StandsAt(cfg, s, i, j, k);
    OneHeightStands(cfg, s, i, j, k);
    HeightOf(cfg, s, i, k);
  }

  lemma BudgetedAlike(cfg: Config, s: System)
    requires cfg.Valid() && SystemOk(cfg, s) && AllGrounded(s) && FaultsBudgeted(s, Equivocators(s.bus))
    ensures AllAlike(cfg, s)
  {
    hide SystemOk, AllGrounded, FaultsBudgeted, Equivocators, StandAlike;
    forall i, j, k | 0 <= i < |s.nodes| && 0 <= j < |s.nodes| && 0 <= k <= |s.nodes[i].commits|
        && k <= |s.nodes[j].commits|
      ensures StandAlike(cfg, s.nodes[i], s.nodes[j], k)
    {
      StandsAt(cfg, s, i, j, k);
    }
  }
}
