/** Slashes and heals on the nodes of a running system: every node's books are a
    run of Schedule, and its views show the sentence being served. */
module Sentences {
  import opened Types
  import opened Ledger
  import opened Elections
  import opened Votes
  import opened Schedule
  import opened Detection
  import opened Delivery
  import opened Proposals
  import opened Consensus
  import opened Invariants
  import opened Convictions
  import Chains

  /** A node's detector and election, at the last height it entered. */
  ghost function BooksOf(n: Node): Books {
    Books(n.detector, n.election, if n.phase.Ready? then n.height - 1 else n.height)
  }

  /** What a system step does to node i's books. */
  ghost function OpsOf(s: System, ev: Event, i: nat): seq<Op>
    requires i < |s.nodes|
  {
    var n := s.nodes[i];
    match ev
    case BeginHeight(j, _, _) =>
      if j == i && Runnable(n) && n.phase.Ready? then [EnterNext(n.chain.state.delegations)] else []
    case Deliver(j, m) =>
      if j == i && Runnable(n) && Waiting(n) && !InStash(n) && m in s.bus then [See(m)] else []
    case FinishHeight(j) =>
      if j == i && Runnable(n) && n.phase.Tallying? && !Waiting(n)
         && Chains.CheckCandidate(n.chain, n.phase.candidate).Success? then [ForgetVotes] else []
    case _ => []
  }

  lemma RunOne(b: Books, healDelay: int, op: Op)
    requires b.election.Valid()
    ensures Run(b, healDelay, [op]) == Perform(b, healDelay, op)
  {
    hide Perform;
    assert [op][..0] == [];
  }

  lemma BeginBooks(n: Node, healDelay: int, now: int, drained: seq<Transaction>)
    requires Runnable(n) && n.phase.Ready?
    ensures BooksOf(Begin(n, now, drained).0) == Perform(BooksOf(n), healDelay, EnterNext(n.chain.state.delegations))
  {
    hide Enter, Next, Elected, Propose, Fire;
    OnlyMembersMatter(n.election, Due(n.detector.pendingSlash, n.height), Due(n.detector.pendingHeal, n.height),
                      n.chain.state.delegations);
  }

  lemma AcceptBooks(n: Node, m: Message)
    requires Runnable(n) && Wanted(n, m)
    ensures BooksOf(Accept(n, m).0) == BooksOf(n)
  {
    hide Chains.CheckCandidate, VerifyVote, StakeOf;
  }

  lemma UnstashBooks(n: Node)
    requires Runnable(n) && InStash(n)
    ensures BooksOf(Unstash(n).0) == BooksOf(n)
  {
    hide Accept;
    var k := FirstWanted(n, n.pending);
    AcceptBooks(n.(pending := n.pending[..k] + n.pending[k + 1..]), n.pending[k]);
  }

  lemma ReceiveBooks(n: Node, healDelay: int, m: Message)
    requires Runnable(n)
    ensures BooksOf(Receive(n, healDelay, m).0) == Perform(BooksOf(n), healDelay, See(m))
  {
    hide Accept, Observe;
    if Wanted(n, m) {
      AcceptBooks(n.(detector := Observe(n.detector, healDelay, m)), m);
    }
  }

  lemma FinishBooks(n: Node, healDelay: int, paced: bool)
    requires Runnable(n) && n.phase.Tallying?
    ensures BooksOf(Finish(n, paced))
         == if Chains.CheckCandidate(n.chain, n.phase.candidate).Success? then Perform(BooksOf(n), healDelay,
                                                                                       ForgetVotes)
            else BooksOf(n)
  {
    hide Chains.CheckAgainst, Chains.Prune, PruneStash, Forget;
  }

  /** Every step of the system is the stated operation, or none, on the books. */
  lemma StepBooks(cfg: Config, s: System, ev: Event, i: nat)
    requires i < |s.nodes| && s.nodes[i].election.Valid()
    ensures
      var t := Consensus.Step(cfg, s, ev);
      |t.nodes| == |s.nodes| && BooksOf(t.nodes[i]) == Run(BooksOf(s.nodes[i]), cfg.healDelay, OpsOf(s, ev, i))
  {
    hide Begin, Unstash, Receive, Finish, Perform, Waiting, InStash, Chains.CheckCandidate;
    var n, b := s.nodes[i], BooksOf(s.nodes[i]);
    match ev
    case BeginHeight(j, now, drained) =>
      if j == i && Runnable(n) && n.phase.Ready? {
        BeginBooks(n, cfg.healDelay, now, drained);
        RunOne(b, cfg.healDelay, EnterNext(n.chain.state.delegations));
      }
    case FromStash(j) =>
      if j == i && Runnable(n) && InStash(n) {
        UnstashBooks(n);
      }
    case Deliver(j, m) =>
      if j == i && Runnable(n) {
        ReceiveBooks(n, cfg.healDelay, m);
        RunOne(b, cfg.healDelay, See(m));
      }
    case FinishHeight(j) =>
      if j == i && Runnable(n) && n.phase.Tallying? {
        FinishBooks(n, cfg.healDelay, cfg.paced);
        RunOne(b, cfg.healDelay, ForgetVotes);
      }
    case MakeFaulty(j) =>
    case Inject(m) =>
  }

  // ----- over whole runs -----

  lemma SystemSize(cfg: Config, events: seq<Event>, i: nat)
    requires cfg.Valid() && i < |cfg.validators|
    ensures i < |Consensus.After(cfg, events).nodes| && Consensus.After(cfg, events).nodes[i].election.Valid()
    ensures Consensus.After(cfg, events).nodes[i].election.addresses == Addresses(cfg.validators)
  {
    hide Consensus.After, ViewsFollow, CommitsBacked, TallyExact, StashSent;
    AlwaysOk(cfg, events);
    var s := Consensus.After(cfg, events);
    assert NodeOk(cfg, s.bus, i, s.nodes[i]);
  }

  /** What the run did to node i's books after its first m events. */
  ghost function OpsSince(cfg: Config, events: seq<Event>, m: nat, i: nat): seq<Op>
    requires cfg.Valid() && m <= |events|
    decreases |events|
  {
    if |events| == m then []
    else
      var init := events[..|events| - 1];
      var s := Consensus.After(cfg, init);
      OpsSince(cfg, init, m, i) + if i < |s.nodes| then OpsOf(s, events[|events| - 1], i) else []
  }

  /** Every node's books, at any point of any run of the system, are a run of the
      books it had at any earlier point. */
  lemma {:induction false} BooksRun(cfg: Config, events: seq<Event>, m: nat, i: nat)
    requires cfg.Valid() && m <= |events| && i < |cfg.validators|
    ensures i < |Consensus.After(cfg, events[..m]).nodes| && i < |Consensus.After(cfg, events).nodes|
    ensures Consensus.After(cfg, events[..m]).nodes[i].election.Valid()
    ensures BooksOf(Consensus.After(cfg, events).nodes[i])
         == Run(BooksOf(Consensus.After(cfg, events[..m]).nodes[i]), cfg.healDelay, OpsSince(cfg, events, m, i))
    decreases |events|
  {
    hide Consensus.Step, BooksOf, OpsOf, Perform;
    SystemSize(cfg, events[..m], i);
    if |events| == m {
      assert events[..m] == events;
    } else {
      var init, ev := events[..|events| - 1], events[|events| - 1];
      assert init[..m] == events[..m];
      SystemSize(cfg, init, i);
      BooksRun(cfg, init, m, i);
      StepBooks(cfg, Consensus.After(cfg, init), ev, i);
      AtMostOne(Consensus.After(cfg, init), ev, i);
      var b := BooksOf(Consensus.After(cfg, events[..m]).nodes[i]);
      BooksFields(Consensus.After(cfg, events[..m]).nodes[i]);
      RunJoin(b, cfg.healDelay, OpsSince(cfg, init, m, i), OpsOf(Consensus.After(cfg, init), ev, i));
    }
  }

  lemma AtMostOne(s: System, ev: Event, i: nat)
    requires i < |s.nodes|
    ensures |OpsOf(s, ev, i)| <= 1
  {
  }

  lemma RunJoin(b: Books, healDelay: int, ops: seq<Op>, more: seq<Op>)
    requires b.election.Valid() && |more| <= 1
    ensures Run(b, healDelay, ops + more) == Run(Run(b, healDelay, ops), healDelay, more)
  {
    hide Perform;
    if more == [] {
      assert ops + more == ops;
    } else {
      assert (ops + more)[..|ops|] == ops && more[..0] == [];
    }
  }

  lemma FirstBooks(cfg: Config, i: nat)
    requires cfg.Valid() && i < |cfg.validators|
    ensures BooksOf(FirstNode(cfg, i)).detector == FreshDetector
    ensures HealsCovered(BooksOf(FirstNode(cfg, i))) && SlashesKnown(BooksOf(FirstNode(cfg, i)))
  {
    forall a ensures !IsSlashed(FirstElection(cfg), a) {
      FirstUnslashed(cfg, a);
    }
  }

  /** On every node of every run: whoever awaits a heal is slashed or will be
      first, and whoever is slashed or will be has been detected. */
  lemma NodesCovered(cfg: Config, events: seq<Event>, i: nat)
    requires cfg.Valid() && i < |cfg.validators|
    ensures i < |Consensus.After(cfg, events).nodes|
    ensures
      var b := BooksOf(Consensus.After(cfg, events).nodes[i]);
      b.election.Valid() && HealsCovered(b) && SlashesKnown(b)
  {
    hide HealsCovered, SlashesKnown, OpsSince, FirstNode, Consensus.Step, BooksOf, Run;
    BooksRun(cfg, events, 0, i);
    FirstBooks(cfg, i);
    assert events[..0] == [];
    var b := BooksOf(FirstNode(cfg, i));
    CoveredAlways(b, cfg.healDelay, OpsSince(cfg, events, 0, i));
    KnownAlways(b, cfg.healDelay, OpsSince(cfg, events, 0, i));
  }

  /** On every node of every run, entering a height leaves the same election in
      whatever order the maps of due slashes and heals are ranged over. */
  lemma NodeEntersInAnyOrder(cfg: Config, events: seq<Event>, i: nat, now: int, drained: seq<Transaction>,
                             slashes: seq<Address>, heals: seq<Address>)
    requires cfg.Valid() && i < |cfg.validators| && i < |Consensus.After(cfg, events).nodes| && Distinct(heals)
    requires
      var n := Consensus.After(cfg, events).nodes[i];
      && Runnable(n) && n.phase.Ready?
      && Elements(slashes) == Due(n.detector.pendingSlash, n.height)
      && Elements(heals) == Due(n.detector.pendingHeal, n.height)
    ensures
      var n := Consensus.After(cfg, events).nodes[i];
      Next(Sync(RestoreEach(SlashEach(n.election, slashes), heals), n.chain.state.delegations))
        == Begin(n, now, drained).0.election
  {
    hide Consensus.After, HealsCovered, SlashesKnown, Begin, Next, Sync, SlashEach, RestoreEach, SlashAll, RestoreAll;
    var n := Consensus.After(cfg, events).nodes[i];
    NodesCovered(cfg, events, i);
    InAnyOrder(BooksOf(n), slashes, heals);
    BeginBooks(n, cfg.healDelay, now, drained);
  }

  lemma ReadObserves(cfg: Config, events: seq<Event>, i: nat, m: Message)
    requires cfg.Valid() && i < |cfg.validators| && Reads(Consensus.After(cfg, events), Deliver(i, m), i)
    ensures i < |Consensus.After(cfg, events + [Deliver(i, m)]).nodes|
    ensures
      var n, r := Consensus.After(cfg, events).nodes[i], Consensus.After(cfg, events + [Deliver(i, m)]).nodes[i];
      BooksOf(n).election.Valid() && BooksOf(r) == Perform(BooksOf(n), cfg.healDelay, See(m))
  {
    hide Consensus.Step, BooksOf, Waiting, InStash, Perform;
    var s := Consensus.After(cfg, events);
    var more := events + [Deliver(i, m)];
    assert more[..|events|] == events;
    SystemSize(cfg, events, i);
    SystemSize(cfg, more, i);
    StepBooks(cfg, s, Deliver(i, m), i);
    BooksFields(s.nodes[i]);
    RunOne(BooksOf(s.nodes[i]), cfg.healDelay, See(m));
  }

  /** A node that reads a vote convicts exactly when it remembers a verified vote of
      the same voter at that height for another hash, this one verifies too, and
      the voter stands convicted of nothing; a member convicted is caught. */
  lemma DeliveryCatches(cfg: Config, events: seq<Event>, i: nat, m: Message)
    requires cfg.Valid() && i < |cfg.validators| && Reads(Consensus.After(cfg, events), Deliver(i, m), i) && m.VoteMsg?
    ensures i < |Consensus.After(cfg, events + [Deliver(i, m)]).nodes|
    ensures
      var n, r := Consensus.After(cfg, events).nodes[i], Consensus.After(cfg, events + [Deliver(i, m)]).nodes[i];
      && (r.detector.evidence != n.detector.evidence <==> Convicts(n.detector, m.vote))
      && BooksOf(r).election.Valid()
      && (Convicts(n.detector, m.vote) && m.vote.voter in Addresses(cfg.validators) ==>
            Caught(BooksOf(r), cfg.healDelay, m.vote.voter, m.vote.height))
  {
    hide Consensus.After, HealsCovered, SlashesKnown, Caught, Observe, Convicts, Reads, Filed;
    ReadObserves(cfg, events, i, m);
    NodesCovered(cfg, events, i);
    NodesFiled(cfg, events, i);
    SystemSize(cfg, events, i);
    var b := BooksOf(Consensus.After(cfg, events).nodes[i]);
    ObserveConvicts(b.detector, cfg.healDelay, m);
    if Convicts(b.detector, m.vote) && m.vote.voter in Addresses(cfg.validators) {
      ConvictionCatches(b, cfg.healDelay, m);
    }
  }

  lemma NodesFiled(cfg: Config, events: seq<Event>, i: nat)
    requires cfg.Valid() && i < |cfg.validators|
    ensures i < |Consensus.After(cfg, events).nodes| && Filed(Consensus.After(cfg, events).nodes[i].detector)
  {
    hide OpsSince, FirstNode, Consensus.Step, Run, Filed;
    BooksRun(cfg, events, 0, i);
    FirstBooks(cfg, i);
    FreshFiled();
    assert events[..0] == [];
    AlwaysFiled(BooksOf(FirstNode(cfg, i)), cfg.healDelay, OpsSince(cfg, events, 0, i));
  }

  /** In terms of the run alone: reading a vote convicts exactly when its voter
      stands convicted of nothing there, it verifies, and so does the first vote
      the node read in that voter's name at that height, outside earlier
      convictions and not forgotten since, which names another hash. */
  lemma ConvictedByReads(cfg: Config, events: seq<Event>, i: nat, m: Message)
    requires cfg.Valid() && i < |cfg.validators| && Reads(Consensus.After(cfg, events), Deliver(i, m), i) && m.VoteMsg?
    ensures i < |Consensus.After(cfg, events + [Deliver(i, m)]).nodes|
    ensures
      var n, r := Consensus.After(cfg, events).nodes[i], Consensus.After(cfg, events + [Deliver(i, m)]).nodes[i];
      var b, ops := BooksOf(FirstNode(cfg, i)), OpsSince(cfg, events, 0, i);
      r.detector.evidence != n.detector.evidence <==>
        && m.vote.voter !in n.detector.slashed && VerifyVote(m.vote)
        && exists t: nat :: t < |ops| && FirstHeard(b, cfg.healDelay, ops, t, m.vote.height, m.vote.voter)
                            && VerifyVote(ops[t].m.vote) && ops[t].m.vote.hash != m.vote.hash
  {
    hide OpsSince, FirstNode, Consensus.Step, Run, Observe, FirstHeard, VerifyVote, Reads;
    ReadObserves(cfg, events, i, m);
    BooksRun(cfg, events, 0, i);
    FirstBooks(cfg, i);
    assert events[..0] == [];
    ConvictedExactly(BooksOf(FirstNode(cfg, i)), cfg.healDelay, OpsSince(cfg, events, 0, i), m.vote);
  }

  lemma BooksFields(n: Node)
    ensures BooksOf(n).detector == n.detector && BooksOf(n).election == n.election
  {
  }

  // ----- what the views show -----

  /** Event p made node i enter its k-th height. */
  ghost predicate Enters(cfg: Config, events: seq<Event>, i: nat, k: nat, p: nat)
    requires cfg.Valid() && p < |events|
  {
    var s := Consensus.After(cfg, events[..p]);
    && i < |s.nodes| && Runnable(s.nodes[i]) && s.nodes[i].phase.Ready? && |s.nodes[i].views| == k
    && events[p].BeginHeight? && events[p].i == i
  }

  /** A view appears only by entering a height, and stays. */
  lemma {:induction false} ViewEntered(cfg: Config, events: seq<Event>, m: nat, i: nat, k: nat) returns (p: nat)
    requires cfg.Valid() && m <= |events| && i < |cfg.validators|
    requires i < |Consensus.After(cfg, events[..m]).nodes| && i < |Consensus.After(cfg, events).nodes|
    requires |Consensus.After(cfg, events[..m]).nodes[i].views| <= k < |Consensus.After(cfg, events).nodes[i].views|
    ensures m <= p < |events| && Enters(cfg, events, i, k, p)
    ensures i < |Consensus.After(cfg, events[..p + 1]).nodes|
    ensures |Consensus.After(cfg, events[..p + 1]).nodes[i].views| == k + 1
    ensures Consensus.After(cfg, events[..p + 1]).nodes[i].views[k] == Consensus.After(cfg, events).nodes[i].views[k]
    decreases |events|
  {
    hide Consensus.Step;
    AllOf(events, m);
    var init, ev := events[..|events| - 1], events[|events| - 1];
    var s := Consensus.After(cfg, init);
    assert init[..m] == events[..m];
    SystemSize(cfg, init, i);
    StepExtends(cfg, s, ev);
    assert Extends(s.nodes[i], Consensus.After(cfg, events).nodes[i]);
    if k < |s.nodes[i].views| {
      p := ViewEntered(cfg, init, m, i, k);
      assert init[..p] == events[..p] && init[..p + 1] == events[..p + 1];
    } else {
      OneView(cfg, s, ev, i);
      p := |events| - 1;
      assert events[..p] == init && events[..p + 1] == events;
    }
  }

  lemma AllOf(events: seq<Event>, m: nat)
    requires m <= |events|
    ensures m == |events| ==> events[..m] == events
  {
  }

  lemma OneView(cfg: Config, s: System, ev: Event, i: nat)
    requires i < |s.nodes|
    requires
      var t := Consensus.Step(cfg, s, ev);
      |t.nodes| == |s.nodes| && |s.nodes[i].views| < |t.nodes[i].views|
    ensures ev.BeginHeight? && ev.i == i && Runnable(s.nodes[i]) && s.nodes[i].phase.Ready?
    ensures |Consensus.Step(cfg, s, ev).nodes[i].views| == |s.nodes[i].views| + 1
  {
    hide Enter, Next, Elected, Propose, Chains.CheckCandidate, Observe, Chains.Commit, Chains.Prune, QuorumReached,
         StakeOf, VerifyVote, PruneStash;
  }

  /** The k-th view's election is the books' just after entering that height. */
  lemma ViewBooks(cfg: Config, events: seq<Event>, i: nat, k: nat, p: nat)
    requires cfg.Valid() && i < |cfg.validators| && p < |events| && Enters(cfg, events, i, k, p)
    requires i < |Consensus.After(cfg, events[..p + 1]).nodes|
    requires |Consensus.After(cfg, events[..p + 1]).nodes[i].views| == k + 1
    ensures
      var n := Consensus.After(cfg, events[..p]).nodes[i];
      var v := Consensus.After(cfg, events[..p + 1]).nodes[i].views[k];
      var b := BooksOf(n);
      && b.election.Valid() && b.height + 1 == FirstHeight(cfg) + k
      && v.election == Perform(b, cfg.healDelay, EnterNext(n.chain.state.delegations)).election
  {
    hide Enter, Next, Elected, Propose, Fire, SystemOk;
    var s := Consensus.After(cfg, events[..p]);
    assert events[..p + 1][..p] == events[..p];
    AlwaysOk(cfg, events[..p]);
    ReadyHeight(cfg, s, i);
    var ev := events[p];
    BeginBooks(s.nodes[i], cfg.healDelay, ev.now, ev.drained);
  }

  lemma ReadyHeight(cfg: Config, s: System, i: nat)
    requires cfg.Valid() && SystemOk(cfg, s) && i < |s.nodes| && s.nodes[i].phase.Ready?
    ensures s.nodes[i].height == FirstHeight(cfg) + |s.nodes[i].views| && s.nodes[i].election.Valid()
  {
    hide ViewsFollow, CommitsBacked, TallyExact, StashSent;
    assert NodeOk(cfg, s.bus, i, s.nodes[i]);
  }

  /** The slash window on a running node. Once a node has caught a member for height
      e, whenever that was and whatever happens next, the member is without weight
      at exactly the heights the node enters from e + 2 up to but excluding
      e + 2 + healDelay; with no heal delay, for ever. */
  lemma SentenceInViews(cfg: Config, events: seq<Event>, m: nat, i: nat, a: Address, e: int, k: nat)
    requires cfg.Valid() && m <= |events| && i < |cfg.validators|
    requires i < |Consensus.After(cfg, events[..m]).nodes| && i < |Consensus.After(cfg, events).nodes|
    requires
      var b := BooksOf(Consensus.After(cfg, events[..m]).nodes[i]);
      b.election.Valid() && Caught(b, cfg.healDelay, a, e)
    requires |Consensus.After(cfg, events[..m]).nodes[i].views| <= k < |Consensus.After(cfg, events).nodes[i].views|
    requires cfg.healDelay > 0 ==> FirstHeight(cfg) + k < e + SLASH_DELAY + cfg.healDelay
    ensures
      var v := Consensus.After(cfg, events).nodes[i].views[k];
      && v.election.Valid()
      && (IsSlashed(v.election, a) <==> e + SLASH_DELAY <= FirstHeight(cfg) + k)
      && StakeOf(v.election, a) == if e + SLASH_DELAY <= FirstHeight(cfg) + k then 0 else FullStake(v.election, a)
  {
    hide Consensus.After, OpsSince, Enters, BooksOf, IsSlashed, Perform, StakeOf, FullStake;
    var p := ViewEntered(cfg, events, m, i, k);
    ViewBooks(cfg, events, i, k, p);
    var d := EnteringBonds(cfg, events, i, k, p);
    assert events[..p][..m] == events[..m];
    BooksRun(cfg, events[..p], m, i);
    var b := BooksOf(Consensus.After(cfg, events[..m]).nodes[i]);
    var ops := OpsSince(cfg, events[..p], m, i);
    RunJoin(b, cfg.healDelay, ops, [EnterNext(d)]);
    RunOne(Run(b, cfg.healDelay, ops), cfg.healDelay, EnterNext(d));
    HeightAfter(b, cfg.healDelay, ops);
    EnteredMore(ops, d);
    SlashWindow(b, cfg.healDelay, a, e, ops + [EnterNext(d)]);
    StakeWhileSlashed(Consensus.After(cfg, events).nodes[i].views[k].election, a);
  }

  lemma EnteringBonds(cfg: Config, events: seq<Event>, i: nat, k: nat, p: nat) returns (d: Bonds)
    requires cfg.Valid() && p < |events| && Enters(cfg, events, i, k, p)
    ensures i < |Consensus.After(cfg, events[..p]).nodes|
    ensures d == Consensus.After(cfg, events[..p]).nodes[i].chain.state.delegations
  {
    hide Consensus.After;
    d := Consensus.After(cfg, events[..p]).nodes[i].chain.state.delegations;
  }

  lemma EnteredMore(ops: seq<Op>, d: Bonds)
    ensures Entered(ops + [EnterNext(d)]) == Entered(ops) + 1
  {
    assert (ops + [EnterNext(d)])[..|ops|] == ops;
  }

  /** And entering e + 2 + healDelay, or the first height after a conviction that
      came later still, the member has its full weight and nothing held against it. */
  lemma SentenceEndsInViews(cfg: Config, events: seq<Event>, m: nat, i: nat, a: Address, e: int, k: nat)
    requires cfg.Valid() && m <= |events| && i < |cfg.validators| && 0 < cfg.healDelay
    requires i < |Consensus.After(cfg, events[..m]).nodes| && i < |Consensus.After(cfg, events).nodes|
    requires
      var b := BooksOf(Consensus.After(cfg, events[..m]).nodes[i]);
      b.election.Valid() && Caught(b, cfg.healDelay, a, e)
    requires |Consensus.After(cfg, events[..m]).nodes[i].views| <= k < |Consensus.After(cfg, events).nodes[i].views|
    requires e + SLASH_DELAY + cfg.healDelay <= FirstHeight(cfg) + k
    requires BooksOf(Consensus.After(cfg, events[..m]).nodes[i]).height + 1 == FirstHeight(cfg) + k
             || FirstHeight(cfg) + k == e + SLASH_DELAY + cfg.healDelay
    ensures
      var v := Consensus.After(cfg, events).nodes[i].views[k];
      v.election.Valid() && !IsSlashed(v.election, a) && StakeOf(v.election, a) == FullStake(v.election, a)
  {
    hide Consensus.After, OpsSince, Enters, BooksOf, IsSlashed, EnterBooks, StakeOf, FullStake, Serving;
    var p := ViewEntered(cfg, events, m, i, k);
    ViewBooks(cfg, events, i, k, p);
    var d := EnteringBonds(cfg, events, i, k, p);
    assert events[..p][..m] == events[..m];
    BooksRun(cfg, events[..p], m, i);
    var b := BooksOf(Consensus.After(cfg, events[..m]).nodes[i]);
    var ops := OpsSince(cfg, events[..p], m, i);
    HeightAfter(b, cfg.healDelay, ops);
    SlashWindow(b, cfg.healDelay, a, e, ops);
    SentenceEnds(Run(b, cfg.healDelay, ops), cfg.healDelay, a, e, d);
    StakeWhileSlashed(Consensus.After(cfg, events).nodes[i].views[k].election, a);
  }

  // ----- evidence -----

  /** Every piece of evidence verifies, and both its votes were broadcast. */
  ghost predicate EvidenceStands(bus: set<Message>, d: Detector) {
    forall e | e in d.evidence :: EvidenceSound(bus, e)
  }

  /** Two votes of the offender's, at the evidence's height, for different hashes, each
      signed by the offender and each broadcast. */
  ghost predicate EvidenceSound(bus: set<Message>, e: Evidence) {
    && VoteMsg(e.voteA) in bus && VoteMsg(e.voteB) in bus
    && Conflict(VoteMsg(e.voteA), VoteMsg(e.voteB), e.height) && e.voteA.voter == e.offender
  }

  lemma ObserveStands(bus: set<Message>, d: Detector, healDelay: int, m: Message)
    requires SeenSent(bus, d) && EvidenceStands(bus, d) && m in bus
    ensures EvidenceStands(bus, Observe(d, healDelay, m))
  {
    hide VerifyVote;
  }

  lemma PerformStands(bus: set<Message>, b: Books, healDelay: int, op: Op)
    requires b.election.Valid() && SeenSent(bus, b.detector) && EvidenceStands(bus, b.detector)
    requires op.See? ==> op.m in bus
    ensures EvidenceStands(bus, Perform(b, healDelay, op).detector)
  {
    hide Observe, Enter, Next, EvidenceSound;
    if op.See? {
      ObserveStands(bus, b.detector, healDelay, op.m);
    }
  }

  lemma StandsLonger(bus: set<Message>, more: set<Message>, d: Detector)
    requires bus <= more && EvidenceStands(bus, d)
    ensures EvidenceStands(more, d)
  {
    hide Conflict;
    forall e | e in d.evidence ensures EvidenceSound(more, e) {
      assert EvidenceSound(bus, e);
    }
  }

  lemma OpsSent(s: System, ev: Event, i: nat)
    requires i < |s.nodes|
    ensures forall op | op in OpsOf(s, ev, i) && op.See? :: op.m in s.bus
  {
  }

  /** In every run, all evidence on every node proves what it says: two conflicting votes,
      both broadcast, both signed by the offender. */
  lemma {:induction false} EvidenceAlwaysStands(cfg: Config, events: seq<Event>, i: nat)
    requires cfg.Valid() && i < |cfg.validators|
    ensures i < |Consensus.After(cfg, events).nodes|
    ensures EvidenceStands(Consensus.After(cfg, events).bus, Consensus.After(cfg, events).nodes[i].detector)
  {
    hide Consensus.Step, EvidenceStands, OpsOf, Perform, DetectorGrounded, ViewsGrounded, SeenSent;
    SystemSize(cfg, events, i);
    if events == [] {
      NoEvidence(cfg, i);
    } else {
      var init, ev := events[..|events| - 1], events[|events| - 1];
      var s := Consensus.After(cfg, init);
      EvidenceAlwaysStands(cfg, init, i);
      SystemSize(cfg, init, i);
      AlwaysGrounded(cfg, init);
      assert Grounded(s.bus, s.nodes[i]);
      StepBooks(cfg, s, ev, i);
      AtMostOne(s, ev, i);
      OpsSent(s, ev, i);
      StepExtends(cfg, s, ev);
      var ops := OpsOf(s, ev, i);
      if ops != [] {
        assert ops == [ops[0]] && ops[0] in ops;
        RunOne(BooksOf(s.nodes[i]), cfg.healDelay, ops[0]);
        PerformStands(s.bus, BooksOf(s.nodes[i]), cfg.healDelay, ops[0]);
      }
      StandsLonger(s.bus, Consensus.After(cfg, events).bus, Consensus.After(cfg, events).nodes[i].detector);
    }
  }

  lemma NoEvidence(cfg: Config, i: nat)
    requires cfg.Valid() && i < |cfg.validators|
    ensures EvidenceStands({}, FirstNode(cfg, i).detector)
  {
  }
}
