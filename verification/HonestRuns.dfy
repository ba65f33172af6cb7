/** Agreement for runs described by who misbehaves, not by what ends up on the bus. */
module HonestRuns {
  import opened Words
  import opened Sums
  import opened Types
  import opened Elections
  import opened Votes
  import opened Consensus
  import opened Invariants
  import opened Convictions
  import opened Agreement
  import opened Honesty

  /** Every validator outside `faulty` signs one vote per height. */
  ghost predicate AllHonestBut(cfg: Config, events: seq<Event>, faulty: set<Address>)
    requires cfg.Valid()
  {
    forall i | 0 <= i < |cfg.validators| && cfg.validators[i].address !in faulty :: Honest(cfg, events, i)
  }

  /** Only the faulty ever equivocate. */
  lemma OnlyFaultyEquivocate(cfg: Config, events: seq<Event>, faulty: set<Address>, e: ElectionView)
    requires cfg.Valid() && AllHonestBut(cfg, events, faulty)
    requires e.Valid() && e.addresses == Addresses(cfg.validators)
    ensures WeightOf(e, Equivocators(Consensus.After(cfg, events).bus)) <= WeightOf(e, faulty)
  {
    hide Consensus.After, Equivocators, Honest;
    var bus := Consensus.After(cfg, events).bus;
    var bad := Equivocators(bus);
    forall i | i in Members(e.addresses, bad) ensures i in Members(e.addresses, faulty) {
      if cfg.validators[i].address !in faulty {
        var height := EquivocatedAt(bus, cfg.validators[i].address);
        HonestNeverConflicts(cfg, events, i, height);
      }
    }
    PartialMonotone(Weights(e), |e.addresses|, Members(e.addresses, bad), Members(e.addresses, faulty));
  }

  lemma EquivocatedAt(bus: set<Message>, a: Address) returns (height: int)
    requires a in Equivocators(bus)
    ensures a in Conflicted(bus, height)
  {
    var m, n :| m in bus && n in bus && Conflict(m, n, MsgHeight(m)) && m.vote.voter == a;
    height := MsgHeight(m);
  }

  lemma BudgetHolds(cfg: Config, events: seq<Event>, faulty: set<Address>)
    requires cfg.Valid() && AllHonestBut(cfg, events, faulty) && FaultsBudgeted(Consensus.After(cfg, events), faulty)
    ensures FaultsBudgeted(Consensus.After(cfg, events), Equivocators(Consensus.After(cfg, events).bus))
  {
    hide Consensus.After, AllHonestBut, Equivocators, WeightOf, CommitsBacked, TallyExact, ViewsFollow;
    var s := Consensus.After(cfg, events);
    AlwaysOk(cfg, events);
    forall i, k | 0 <= i < |s.nodes| && 0 <= k < |s.nodes[i].views|
      ensures Budgeted(s.nodes[i].views[k].election, Equivocators(s.bus))
    {
      assert NodeOk(cfg, s.bus, i, s.nodes[i]);
      ElectionMembers(cfg, s.nodes[i], k + 1);
      assert Budgeted(s.nodes[i].views[k].election, faulty);
      OnlyFaultyEquivocate(cfg, events, faulty, Full(s.nodes[i].views[k].election));
    }
  }

  /** Agreement with a faulty minority: validators that may sign anything hold at
      most a third of each height's weight, everyone else signs one vote per
      height, proposals come from anywhere, and nodes may notice an equivocation
      at different heights. */
  lemma MinorityCannotSplit(cfg: Config, events: seq<Event>, faulty: set<Address>, i: nat, j: nat, k: nat)
    requires cfg.Valid() && AllHonestBut(cfg, events, faulty) && FaultsBudgeted(Consensus.After(cfg, events), faulty)
    requires i < |Consensus.After(cfg, events).nodes| && j < |Consensus.After(cfg, events).nodes|
    requires k < |Consensus.After(cfg, events).nodes[i].commits| && k < |Consensus.After(cfg, events).nodes[j].commits|
    ensures
      var c, d := Consensus.After(cfg, events).nodes[i].commits[k], Consensus.After(cfg, events).nodes[j].commits[k];
      SameBlock(c.block, d.block) && c.ledger == d.ledger
  {
    hide Consensus.After, AllHonestBut, FaultsBudgeted;
    BudgetHolds(cfg, events, faulty);
    NodesAgree(cfg, events, i, j, k);
  }

  /** Where nobody equivocates no schedule is ever written, so they agree. */
  lemma HonestSchedulesAgree(cfg: Config, events: seq<Event>)
    requires cfg.Valid() && AllHonestBut(cfg, events, {})
    ensures SchedulesAgree(Consensus.After(cfg, events))
  {
    hide Consensus.After, CommitsBacked, TallyExact, ViewsFollow, NodeOk;
    var s := Consensus.After(cfg, events);
    AlwaysOk(cfg, events);
    forall i, k | 0 <= i < |s.nodes| && 0 <= k < |s.nodes[i].views|
      ensures s.nodes[i].views[k].offenders == {} && s.nodes[i].views[k].healed == {}
    {
      NothingFired(cfg, events, i, k);
    }
  }

  lemma NothingFired(cfg: Config, events: seq<Event>, j: nat, k: nat)
    requires cfg.Valid() && AllHonestBut(cfg, events, {}) && SystemOk(cfg, Consensus.After(cfg, events))
    requires j < |Consensus.After(cfg, events).nodes| && k < |Consensus.After(cfg, events).nodes[j].views|
    ensures
      var v := Consensus.After(cfg, events).nodes[j].views[k];
      v.offenders == {} && v.healed == {}
  {
    hide Consensus.After, CommitsBacked, TallyExact, ViewFrom, Honest, VotesAreCast, SeenSent, Clear;
    var s := Consensus.After(cfg, events);
    var n := s.nodes[j];
    assert NodeOk(cfg, s.bus, j, n);
    ElectionMembers(cfg, n, k);
    assert ViewOk(cfg, n, k);
    ViewFields(n.views[k], ElectionAt(cfg, n, k), TipAt(cfg, n, k), LedgerAt(cfg, n, k), n.self.address,
               FirstHeight(cfg) + k);
    var v := n.views[k];
    forall a | a in Elements(Addresses(cfg.validators)) ensures a !in v.offenders && a !in v.healed {
      var i :| 0 <= i < |cfg.validators| && Addresses(cfg.validators)[i] == a;
      assert Honest(cfg, events, i);
      HonestAlwaysOk(cfg, events, i);
      assert Spared(n, a);
    }
  }

  /** In a cluster where every validator signs one vote per height, agreement asks
      only that weights fit. */
  lemma HonestClusterAgrees(cfg: Config, events: seq<Event>, i: nat, j: nat, k: nat)
    requires cfg.Valid() && AllHonestBut(cfg, events, {})
    requires forall q, h | 0 <= q < |Consensus.After(cfg, events).nodes|
                           && 0 <= h < |Consensus.After(cfg, events).nodes[q].views| ::
               WeightsFit(Consensus.After(cfg, events).nodes[q].views[h].election)
    requires i < |Consensus.After(cfg, events).nodes| && j < |Consensus.After(cfg, events).nodes|
    requires k < |Consensus.After(cfg, events).nodes[i].commits| && k < |Consensus.After(cfg, events).nodes[j].commits|
    ensures
      var c, d := Consensus.After(cfg, events).nodes[i].commits[k], Consensus.After(cfg, events).nodes[j].commits[k];
      SameBlock(c.block, d.block) && c.ledger == d.ledger
  {
    hide Consensus.After, AllHonestBut, WeightsFit, Budgeted;
    var s := Consensus.After(cfg, events);
    forall q, h | 0 <= q < |s.nodes| && 0 <= h < |s.nodes[q].views|
      ensures Budgeted(s.nodes[q].views[h].election, {})
    {
      NobodyFaulty(s.nodes[q].views[h].election);
    }
    MinorityCannotSplit(cfg, events, {}, i, j, k);
  }

  ghost predicate WeightsFit(e: ElectionView) {
    e.Valid() && 3 * Total(Weights(Full(e))) < TWO64
  }

  lemma NobodyFaulty(e: ElectionView)
    requires WeightsFit(e)
    ensures Budgeted(e, {})
  {
    hide Weights, Total, WeightOf;
    WeightEmpty(Full(e));
    WeightMonotone(Full(e), {}, {});
  }
}
