/** A cluster of honest nodes can always go on: for any number of heights there is
    a run in which every node commits them all. */
module Progress {
  import opened Wrappers
  import opened Words
  import opened Sums
  import opened Types
  import opened Ledger
  import opened Supply
  import opened Chains
  import opened Elections
  import opened Votes
  import opened Proposals
  import opened Consensus
  import opened Invariants
  import opened Agreement
  import opened Convictions
  import opened Honesty
  import opened HonestRuns
  import opened NodeLoop
  import opened Delivery
  import Accumulator
  import NoHalt
  import SlashFree

  /** No node is made faulty and nothing is put on the bus from outside. */
  ghost predicate Calm(events: seq<Event>) {
    forall t | 0 <= t < |events| :: !events[t].Inject? && !events[t].MakeFaulty?
  }

  /** Someone has weight, three times the total fits a word, and so does what
      stands behind each validator. */
  ghost predicate Able(cfg: Config)
    requires cfg.Valid()
  {
    && 0 < Total(Weights(FirstElection(cfg))) && 3 * Total(Weights(FirstElection(cfg))) < TWO64
    && forall v | v in cfg.validators :: RewardFits(cfg.base.state, v.address)
  }

  ghost predicate RewardFits(s: State, a: Address) {
    Get(s.validatorBase, a) + Sum(BackersOf(s.delegations, a)) < TWO64
  }

  // ----- where every node stands between heights -----

  /** What all nodes have in common between two heights. */
  datatype Common = Common(tip: Header, ledger: State, election: ElectionView, height: int) {
    ghost predicate Ok(cfg: Config)
      requires cfg.Valid()
    {
      && height == tip.height + 1
      && election.Valid() && election.addresses == Addresses(cfg.validators)
      && election.origStake == Stakes(cfg.validators) && SlashFree.Unslashed(election)
      && SameBonds(ledger, cfg.base.state)
    }
  }

  ghost predicate SameBonds(s: State, t: State) {
    s.delegations == t.delegations && s.validatorBase == t.validatorBase
  }

  ghost predicate Poised(n: Node, v: Validator, c: Common) {
    && n.self == v && n.phase.Ready? && n.pending == [] && !n.byzantine
    && n.chain.blocks != [] && n.chain.Tip().header == c.tip && n.chain.state == c.ledger
    && n.election == c.election && n.height == c.height
    && NothingDue(n, c.election.addresses)
  }

  ghost predicate NothingDue(n: Node, members: seq<Address>) {
    forall a | a in members :: a !in n.detector.pendingSlash && a !in n.detector.pendingHeal
  }

  ghost predicate AllPoised(cfg: Config, s: System, c: Common)
    requires cfg.Valid()
  {
    && c.Ok(cfg) && |s.nodes| == |cfg.validators|
    && forall i | 0 <= i < |s.nodes| :: Poised(s.nodes[i], cfg.validators[i], c)
  }

  // ----- sweeping over the nodes -----

  type Turn = (Node, set<Message>)

  /** The system after its first nodes have each taken a turn. */
  ghost function Swept(s: System, turns: seq<Turn>): (t: System)
    requires |turns| <= |s.nodes|
    ensures |t.nodes| == |s.nodes| && s.bus <= t.bus
    ensures forall i | 0 <= i < |turns| :: t.nodes[i] == turns[i].0 && turns[i].1 <= t.bus
    ensures forall i | |turns| <= i < |s.nodes| :: t.nodes[i] == s.nodes[i]
  {
    if turns == [] then s
    else Put(Swept(s, turns[..|turns| - 1]), |turns| - 1, turns[|turns| - 1])
  }

  ghost function Flat(lists: seq<seq<Event>>): seq<Event> {
    if lists == [] then [] else Flat(lists[..|lists| - 1]) + lists[|lists| - 1]
  }

  /** These events, at any state where the earlier nodes have had theirs, are the
      i-th node's turn. */
  ghost predicate TakesTurn(cfg: Config, s: System, turns: seq<Turn>, i: nat, events: seq<Event>)
    requires i < |turns| <= |s.nodes|
  {
    Calm(events) && Resume(cfg, Swept(s, turns[..i]), events) == Put(Swept(s, turns[..i]), i, turns[i])
  }

  lemma {:induction false} SweepIsRun(cfg: Config, s: System, turns: seq<Turn>, lists: seq<seq<Event>>, m: nat)
    requires |lists| == |turns| <= |s.nodes| && m <= |turns|
    requires forall i | 0 <= i < |turns| :: TakesTurn(cfg, s, turns, i, lists[i])
    ensures Calm(Flat(lists[..m])) && Resume(cfg, s, Flat(lists[..m])) == Swept(s, turns[..m])
  {
    hide Put, Consensus.Step;
    if m > 0 {
      SweepIsRun(cfg, s, turns, lists, m - 1);
      assert TakesTurn(cfg, s, turns, m - 1, lists[m - 1]);
      assert lists[..m][..m - 1] == lists[..m - 1] && turns[..m][..m - 1] == turns[..m - 1];
      ResumeTwice(cfg, s, Flat(lists[..m - 1]), lists[m - 1]);
    }
  }

  lemma OneEvent(cfg: Config, s: System, ev: Event)
    ensures Resume(cfg, s, [ev]) == Consensus.Step(cfg, s, ev)
  {
    hide Consensus.Step;
    assert [ev][1..] == [];
  }

  // ----- no delivery twice -----

  /** All deliveries are of this height's messages, proposals or votes. */
  ghost predicate DeliversAt(events: seq<Event>, h: int, proposals: bool) {
    forall t | 0 <= t < |events| && events[t].Deliver? ::
      MsgHeight(events[t].m) == h && events[t].m.ProposalMsg? == proposals
  }

  ghost predicate DeliversTo(events: seq<Event>, i: nat) {
    forall t | 0 <= t < |events| && events[t].Deliver? :: events[t].i == i
  }

  /** One node's part of a phase. */
  ghost predicate OwnReads(events: seq<Event>, i: nat, h: int, proposals: bool) {
    DeliversOnce(events) && DeliversAt(events, h, proposals) && DeliversTo(events, i)
  }

  lemma JoinOnce(a: seq<Event>, b: seq<Event>)
    requires DeliversOnce(a) && DeliversOnce(b)
    requires forall t, u | 0 <= t < |a| && 0 <= u < |b| && a[t].Deliver? :: a[t] != b[u]
    ensures DeliversOnce(a + b)
  {
  }

  /** The nodes' parts together deliver nothing twice either. */
  lemma {:induction false} FlatOnce(lists: seq<seq<Event>>, h: int, proposals: bool)
    requires forall i | 0 <= i < |lists| :: OwnReads(lists[i], i, h, proposals)
    ensures DeliversOnce(Flat(lists)) && DeliversAt(Flat(lists), h, proposals)
    ensures forall t | 0 <= t < |Flat(lists)| && Flat(lists)[t].Deliver? :: Flat(lists)[t].i < |lists|
  {
    if lists != [] {
      var init, last := lists[..|lists| - 1], lists[|lists| - 1];
      FlatOnce(init, h, proposals);
      assert OwnReads(last, |lists| - 1, h, proposals);
      JoinOnce(Flat(init), last);
    }
  }

  /** The waits on an inbox without repeats deliver its messages, each once. */
  lemma {:induction false} DriveReads(i: nat, n: Node, healDelay: int, inbox: seq<Message>)
    requires Runnable(n) && forall j, k | 0 <= j < k < |inbox| :: inbox[j] != inbox[k]
    ensures
      var events := DriveEvents(i, n, healDelay, inbox);
      && DeliversOnce(events) && DeliversTo(events, i)
      && forall t | 0 <= t < |events| && events[t].Deliver? :: events[t].m in inbox
    decreases |n.pending| + 2 * |inbox|
  {
    hide Unstash, Receive, Waiting, InStash, Wanted, Runnable;
    if Waiting(n) && InStash(n) {
      UnstashShrinks(n);
      DriveReads(i, Unstash(n).0, healDelay, inbox);
    } else if Waiting(n) && inbox != [] {
      ReceiveGrows(n, healDelay, inbox[0]);
      DriveReads(i, Receive(n, healDelay, inbox[0]).0, healDelay, inbox[1..]);
    }
  }

  // ----- entering and proposing -----

  ghost function Entered(c: Common): (e: ElectionView)
    requires c.election.Valid()
    ensures e.Valid()
  {
    Enter(c.election, {}, {}, c.ledger.delegations)
  }

  lemma WeightsHold(cfg: Config, c: Common)
    requires cfg.Valid() && c.Ok(cfg)
    ensures Weights(Entered(c)) == Weights(FirstElection(cfg)) == Weights(Next(Entered(c)))
    ensures Entered(c).addresses == c.election.addresses
  {
    hide Accumulator.Step64, DelegatedTo, Uint64;
    SlashFree.EnterQuietly(c.election, c.ledger.delegations);
  }

  lemma SomeoneElected(cfg: Config, c: Common) returns (p: nat)
    requires cfg.Valid() && Able(cfg) && c.Ok(cfg)
    ensures p < |cfg.validators| && Elected(Entered(c)) == Some(cfg.validators[p].address)
  {
    hide Enter, Accumulator.Raise64;
    WeightsHold(cfg, c);
    var e := Entered(c);
    var k := Accumulator.Winner64(e.priorities, Weights(e));
    PositiveTotal(Weights(e), |Weights(e)|);
    p := k;
  }

  lemma {:induction false} PositiveTotal(w: seq<nat>, n: nat)
    requires n <= |w| && 0 < TotalTo(w, n)
    ensures exists i :: 0 <= i < n && 0 < w[i]
  {
    if n > 0 && w[n - 1] == 0 {
      PositiveTotal(w, n - 1);
    }
  }

  /** The block the elected validator builds with nothing in the mempool. */
  ghost function Proposal(c: Common, v: Validator): Block {
    Propose(c.tip, c.ledger, c.height, v, 0, [])
  }

  ghost predicate Awaits(n: Node, v: Validator, c: Common)
    requires c.election.Valid()
  {
    && n.self == v && n.phase.AwaitingProposal? && n.pending == [] && !n.byzantine
    && n.chain.blocks != [] && n.chain.Tip().header == c.tip && n.chain.state == c.ledger
    && n.election == Next(Entered(c)) && n.height == c.height
  }

  lemma BeginsAlike(n: Node, v: Validator, c: Common, el: Address)
    requires c.election.Valid() && Poised(n, v, c) && Elected(Entered(c)) == Some(el)
    ensures
      var (r, out) := Begin(n, 0, []);
      && Awaits(r, v, c) && r.commits == n.commits
      && (el == v.address ==> ProposalMsg(Proposal(c, v)) in out)
  {
    hide Enter, Next, Elected, Propose, Fire;
    var members := Elements(n.election.addresses);
    assert Due(n.detector.pendingSlash, n.height) * members == {};
    assert Due(n.detector.pendingHeal, n.height) * members == {};
  }

  lemma BeginPhase(cfg: Config, s: System, c: Common, p: nat) returns (t: System, events: seq<Event>)
    requires cfg.Valid() && AllPoised(cfg, s, c) && p < |cfg.validators|
    requires Elected(Entered(c)) == Some(cfg.validators[p].address)
    ensures Calm(events) && t == Resume(cfg, s, events) && |t.nodes| == |s.nodes|
    ensures forall i | 0 <= i < |t.nodes| ::
              Awaits(t.nodes[i], cfg.validators[i], c) && t.nodes[i].commits == s.nodes[i].commits
    ensures ProposalMsg(Proposal(c, cfg.validators[p])) in t.bus
    ensures DeliversOnce(events) && forall ev | ev in events :: !ev.Deliver?
  {
    hide Begin, Awaits, Poised, Elected, Swept, Flat;
    var n := |s.nodes|;
    forall i | 0 <= i < n ensures Runnable(s.nodes[i]) && s.nodes[i].phase.Ready? {
      PoisedRunnable(s.nodes[i], cfg.validators[i], c);
    }
    var turns := seq(n, i requires 0 <= i < n => Begin(s.nodes[i], 0, []));
    var lists := seq(n, i requires 0 <= i < n => [BeginHeight(i, 0, [])]);
    forall i | 0 <= i < n ensures TakesTurn(cfg, s, turns, i, lists[i]) {
      OneEvent(cfg, Swept(s, turns[..i]), BeginHeight(i, 0, []));
    }
    SweepIsRun(cfg, s, turns, lists, n);
    assert turns[..n] == turns && lists[..n] == lists;
    events := Flat(lists);
    t := Swept(s, turns);
    forall i | 0 <= i < n
      ensures Awaits(turns[i].0, cfg.validators[i], c) && turns[i].0.commits == s.nodes[i].commits
    {
      BeginsAlike(s.nodes[i], cfg.validators[i], c, cfg.validators[p].address);
    }
    BeginsAlike(s.nodes[p], cfg.validators[p], c, cfg.validators[p].address);
    assert turns[p].1 <= t.bus;
    NoneRead(lists);
  }

  lemma {:induction false} NoneRead(lists: seq<seq<Event>>)
    requires forall i | 0 <= i < |lists| :: |lists[i]| == 1 && lists[i][0].BeginHeight?
    ensures DeliversOnce(Flat(lists)) && forall ev | ev in Flat(lists) :: !ev.Deliver?
  {
    if lists != [] {
      NoneRead(lists[..|lists| - 1]);
    }
  }

  lemma PoisedRunnable(n: Node, v: Validator, c: Common)
    requires Poised(n, v, c) && c.election.Valid()
    ensures Runnable(n) && n.phase.Ready?
  {
  }

  // ----- voting -----

  lemma ProposalPasses(cfg: Config, c: Common, v: Validator)
    requires cfg.Valid() && Able(cfg) && c.Ok(cfg) && v in cfg.validators
    ensures
      var b := Proposal(c, v);
      && b.header.height == c.height
      && var r := CheckAgainst(c.tip, c.ledger, b);
         r.Success? && SameBonds(r.value, cfg.base.state)
  {
    hide CheckAgainst, DistributeReward, RewardFits, Propose, SameBonds, Acceptable;
    ProposalAcceptable(c.tip, c.ledger, v, 0, []);
    RewardPays(cfg, c, v);
    EmptyBlockKeepsBonds(c, v);
    BondsStaySame(cfg, c, v);
  }

  lemma BondsStaySame(cfg: Config, c: Common, v: Validator)
    requires cfg.Valid() && c.Ok(cfg) && CheckAgainst(c.tip, c.ledger, Proposal(c, v)).Success?
    requires SameBonds(CheckAgainst(c.tip, c.ledger, Proposal(c, v)).value, c.ledger)
    ensures SameBonds(CheckAgainst(c.tip, c.ledger, Proposal(c, v)).value, cfg.base.state)
  {
    hide CheckAgainst, Propose;
  }

  lemma RewardPays(cfg: Config, c: Common, v: Validator)
    requires cfg.Valid() && Able(cfg) && c.Ok(cfg) && v in cfg.validators
    ensures Filtered(c.ledger, []).1 == c.ledger && DistributeReward(c.ledger, v.address).Some?
  {
    hide Sum, BackersOf, FirstElection, DistributeReward;
    assert RewardFits(cfg.base.state, v.address);
    RewardSplit(c.ledger, v.address);
  }

  lemma EmptyBlockKeepsBonds(c: Common, v: Validator)
    requires CheckAgainst(c.tip, c.ledger, Proposal(c, v)).Success?
    ensures SameBonds(CheckAgainst(c.tip, c.ledger, Proposal(c, v)).value, c.ledger)
  {
    hide VerifyFrom, Credit, Shares, SharesDefined;
    assert Proposal(c, v).transactions == [];
  }

  ghost predicate Tallies(n: Node, v: Validator, c: Common, b: Block)
    requires c.election.Valid()
  {
    && n.self == v && n.phase == Tallying(b, {}, 0) && n.pending == []
    && n.chain.blocks != [] && n.chain.Tip().header == c.tip && n.chain.state == c.ledger
    && n.election == Next(Entered(c)) && n.height == c.height
  }

  lemma VotesAlike(n: Node, v: Validator, c: Common, b: Block, healDelay: int)
    requires c.election.Valid() && Awaits(n, v, c) && b.header.height == c.height
    requires CheckAgainst(c.tip, c.ledger, b).Success?
    ensures
      var (r, out) := Receive(n, healDelay, ProposalMsg(b));
      && Tallies(r, v, c, b) && r.commits == n.commits
      && VoteMsg(NewVote(c.height, b.Hash(), v)) in out
  {
    hide CheckAgainst, Next, Enter;
  }

  lemma DeliverIsStep(cfg: Config, s: System, i: nat, m: Message)
    requires i < |s.nodes| && m in s.bus
    requires Runnable(s.nodes[i]) && s.nodes[i].phase.AwaitingProposal? && s.nodes[i].pending == []
    ensures Resume(cfg, s, [Deliver(i, m)]) == Put(s, i, Receive(s.nodes[i], cfg.healDelay, m))
  {
    hide Receive, Put;
    OneEvent(cfg, s, Deliver(i, m));
  }

  lemma AwaitsRunnable(n: Node, v: Validator, c: Common)
    requires c.election.Valid() && Awaits(n, v, c)
    ensures Runnable(n) && n.phase.AwaitingProposal? && n.pending == []
  {
    hide Enter;
  }

  lemma VotePhase(cfg: Config, s: System, c: Common, b: Block) returns (t: System, events: seq<Event>)
    requires cfg.Valid() && c.Ok(cfg) && |s.nodes| == |cfg.validators|
    requires forall i | 0 <= i < |s.nodes| :: Awaits(s.nodes[i], cfg.validators[i], c)
    requires ProposalMsg(b) in s.bus && b.header.height == c.height && CheckAgainst(c.tip, c.ledger, b).Success?
    ensures Calm(events) && t == Resume(cfg, s, events) && |t.nodes| == |s.nodes|
    ensures forall i | 0 <= i < |t.nodes| ::
              && Tallies(t.nodes[i], cfg.validators[i], c, b) && t.nodes[i].commits == s.nodes[i].commits
              && VoteMsg(NewVote(c.height, b.Hash(), cfg.validators[i])) in t.bus
    ensures DeliversOnce(events) && DeliversAt(events, c.height, true)
  {
    hide Receive, Awaits, Tallies, Swept, Flat, NewVote, CheckAgainst;
    var n, m := |s.nodes|, ProposalMsg(b);
    forall i | 0 <= i < n
      ensures Runnable(s.nodes[i]) && s.nodes[i].phase.AwaitingProposal? && s.nodes[i].pending == []
    {
      AwaitsRunnable(s.nodes[i], cfg.validators[i], c);
    }
    var turns := seq(n, i requires 0 <= i < n => Receive(s.nodes[i], cfg.healDelay, m));
    var lists := seq(n, i requires 0 <= i < n => [Deliver(i, m)]);
    forall i | 0 <= i < n ensures TakesTurn(cfg, s, turns, i, lists[i]) {
      DeliverIsStep(cfg, Swept(s, turns[..i]), i, m);
    }
    SweepIsRun(cfg, s, turns, lists, n);
    assert turns[..n] == turns && lists[..n] == lists;
    events := Flat(lists);
    t := Swept(s, turns);
    forall i | 0 <= i < n
      ensures Tallies(turns[i].0, cfg.validators[i], c, b) && turns[i].0.commits == s.nodes[i].commits
      ensures VoteMsg(NewVote(c.height, b.Hash(), cfg.validators[i])) in t.bus
    {
      VotesAlike(s.nodes[i], cfg.validators[i], c, b, cfg.healDelay);
      assert turns[i].1 <= t.bus;
    }
    FlatOnce(lists, c.height, true);
  }

  // ----- tallying and committing -----

  ghost function Ballots(cfg: Config, height: int, hash: Digest): (ms: seq<Message>)
    ensures |ms| == |cfg.validators|
    ensures forall i | 0 <= i < |ms| :: ms[i] == VoteMsg(NewVote(height, hash, cfg.validators[i]))
  {
    seq(|cfg.validators|, i requires 0 <= i < |cfg.validators| => VoteMsg(NewVote(height, hash, cfg.validators[i])))
  }

  /** The waits change neither chain nor history. */
  lemma {:induction false} DriveKeeps(n: Node, healDelay: int, inbox: seq<Message>)
    requires Runnable(n)
    ensures SameHistory(n, Drive(n, healDelay, inbox).0)
    decreases |n.pending| + 2 * |inbox|
  {
    hide Drive, Unstash, Receive, Waiting, InStash, Wanted, Runnable;
    if Waiting(n) && InStash(n) {
      StashStep(n, healDelay, inbox);
      UnstashKeeps(n);
      DriveKeeps(Unstash(n).0, healDelay, inbox);
    } else if Waiting(n) && inbox != [] {
      InboxStep(n, healDelay, inbox);
      ReceiveKeeps(n, healDelay, inbox[0]);
      DriveKeeps(Receive(n, healDelay, inbox[0]).0, healDelay, inbox[1..]);
    } else {
      DriveStops(n, healDelay, inbox);
    }
  }

  lemma UnstashKeeps(n: Node)
    requires Runnable(n) && InStash(n)
    ensures SameHistory(n, Unstash(n).0)
  {
    hide CheckCandidate, StakeOf, VerifyVote;
  }

  lemma ReceiveKeeps(n: Node, healDelay: int, m: Message)
    requires Runnable(n)
    ensures SameHistory(n, Receive(n, healDelay, m).0)
  {
    hide CheckCandidate, StakeOf, VerifyVote, Observe;
  }

  lemma {:induction false} AllDelivered(bus: set<Message>, n: Node, healDelay: int, inbox: seq<Message>)
    requires Runnable(n) && forall m | m in inbox :: m in bus
    ensures Delivered(bus, n, healDelay, inbox)
    decreases |n.pending| + 2 * |inbox|
  {
    hide Unstash, Receive, Waiting, InStash, Wanted, Runnable;
    if Waiting(n) && InStash(n) {
      UnstashShrinks(n);
      AllDelivered(bus + Unstash(n).1, Unstash(n).0, healDelay, inbox);
    } else if Waiting(n) && inbox != [] {
      ReceiveGrows(n, healDelay, inbox[0]);
      AllDelivered(bus + Receive(n, healDelay, inbox[0]).1, Receive(n, healDelay, inbox[0]).0, healDelay, inbox[1..]);
    }
  }

  lemma {:induction false} DriveIsCalm(i: nat, n: Node, healDelay: int, inbox: seq<Message>)
    requires Runnable(n)
    ensures Calm(DriveEvents(i, n, healDelay, inbox))
    decreases |n.pending| + 2 * |inbox|
  {
    hide Unstash, Receive, Waiting, InStash, Wanted, Runnable;
    if Waiting(n) && InStash(n) {
      UnstashShrinks(n);
      DriveIsCalm(i, Unstash(n).0, healDelay, inbox);
    } else if Waiting(n) && inbox != [] {
      ReceiveGrows(n, healDelay, inbox[0]);
      DriveIsCalm(i, Receive(n, healDelay, inbox[0]).0, healDelay, inbox[1..]);
    }
  }

  lemma BallotsSuffice(cfg: Config, n: Node, v: Validator, c: Common, b: Block)
    requires cfg.Valid() && Able(cfg) && c.Ok(cfg) && Tallies(n, v, c, b)
    ensures QuorumAtHand(n, Ballots(cfg, c.height, b.Hash()), Elements(n.election.addresses))
  {
    hide Enter, Next, Weights, Total, WeightOf, FirstElection, Uint64;
    WeightsHold(cfg, c);
    EveryoneCounts(n.election);
    WeightEmpty(n.election);
    NothingCounted();
    forall a | a in Elements(n.election.addresses)
      ensures HasVoteIn(n.pending + Ballots(cfg, c.height, b.Hash()), a, n.height, b.Hash())
    {
      var k := IndexOf(n.election.addresses, a);
      BallotCounts(cfg, k, c.height, b.Hash());
      assert (n.pending + Ballots(cfg, c.height, b.Hash()))[k] == Ballots(cfg, c.height, b.Hash())[k];
    }
  }

  lemma NothingCounted()
    ensures Uint64(0) == 0
  {
  }

  lemma BallotCounts(cfg: Config, k: nat, height: int, hash: Digest)
    requires cfg.Valid() && k < |cfg.validators|
    ensures VotedFor(Ballots(cfg, height, hash)[k], Addresses(cfg.validators)[k], height, hash)
  {
    assert cfg.validators[k] in cfg.validators;
    NewVoteVerifies(height, hash, cfg.validators[k], height, hash);
  }

  lemma EveryoneCounts(e: ElectionView)
    requires e.Valid()
    ensures WeightOf(e, Elements(e.addresses)) == Total(Weights(e))
  {
    hide Weights;
    PartialAll(Weights(e), |e.addresses|, Members(e.addresses, Elements(e.addresses)));
  }

  /** Every ballot read and the quorum reached, this node commits. */
  ghost function Committing(n: Node, healDelay: int, paced: bool, ballots: seq<Message>): Turn
    requires Runnable(n)
  {
    var (r, _, sent) := Drive(n, healDelay, ballots);
    (Settled(r, paced), sent)
  }

  lemma CommitsAlike(cfg: Config, n: Node, v: Validator, c: Common, b: Block)
    requires cfg.Valid() && Able(cfg) && c.Ok(cfg) && Tallies(n, v, c, b) && b.header.height == c.height
    requires CheckAgainst(c.tip, c.ledger, b).Success?
    requires SameBonds(CheckAgainst(c.tip, c.ledger, b).value, cfg.base.state)
    ensures Runnable(n)
    ensures
      var ballots := Ballots(cfg, c.height, b.Hash());
      var r := Drive(n, cfg.healDelay, ballots).0;
      && r.phase.Tallying? && !Waiting(r)
      && Between(cfg, Committing(n, cfg.healDelay, cfg.paced, ballots).0, |n.commits| + 1)
  {
    hide CheckAgainst, Drive, Taken, Counting, Waiting, Enter, Next, Prune, Forget, SameBonds, QuorumAtHand;
    var ballots := Ballots(cfg, c.height, b.Hash());
    BallotsSuffice(cfg, n, v, c, b);
    QuorumNeverStarves(n, cfg.healDelay, ballots, Elements(n.election.addresses));
    TakenAreCounted(n, cfg.healDelay, ballots);
    DriveKeeps(n, cfg.healDelay, ballots);
    var r := Drive(n, cfg.healDelay, ballots).0;
    StashIsBallots(cfg, n, ballots, c.height);
    assert r.chain == n.chain && r.phase.candidate == b && r.height == c.height;
    FinishesBetween(cfg, r);
  }

  lemma StashIsBallots(cfg: Config, n: Node, ballots: seq<Message>, height: int)
    requires Runnable(n) && n.pending == [] && forall m | m in ballots :: MsgHeight(m) == height
    ensures PruneStash(Drive(n, cfg.healDelay, ballots).0.pending, height) == []
  {
    hide Drive, Taken, PruneStash;
    var (r, unread, _) := Drive(n, cfg.healDelay, ballots);
    NothingLost(n, cfg.healDelay, ballots);
    PruneKeepsLater(r.pending, height);
    forall m | m in r.pending ensures m in ballots {
      assert m in multiset(r.pending);
      assert m in multiset(n.pending) + multiset(ballots);
    }
    SomethingOrNothing(PruneStash(r.pending, height));
  }

  lemma SomethingOrNothing(ms: seq<Message>)
    ensures ms == [] || exists m :: m in ms
  {
    if ms != [] {
      assert ms[0] in ms;
    }
  }

  /** Idle with k heights committed, nothing stashed and the bonds it began with. */
  ghost predicate Between(cfg: Config, n: Node, k: nat) {
    n.phase.Ready? && |n.commits| == k && n.pending == [] && SameBonds(n.chain.state, cfg.base.state)
  }

  lemma FinishesBetween(cfg: Config, r: Node)
    requires Runnable(r) && r.phase.Tallying? && !Waiting(r) && CheckCandidate(r.chain, r.phase.candidate).Success?
    requires SameBonds(CheckCandidate(r.chain, r.phase.candidate).value, cfg.base.state)
    requires PruneStash(r.pending, r.height) == []
    ensures Between(cfg, Settled(r, cfg.paced), |r.commits| + 1)
  {
    hide CheckAgainst, Forget, PruneStash, Waiting, SameBonds;
  }

  lemma TurnIsRun(cfg: Config, s: System, i: nat, ballots: seq<Message>)
    requires i < |s.nodes| && Runnable(s.nodes[i]) && forall m | m in ballots :: m in s.bus
    requires
      var r := Drive(s.nodes[i], cfg.healDelay, ballots).0;
      r.phase.Tallying? && !Waiting(r)
    ensures
      var events := DriveEvents(i, s.nodes[i], cfg.healDelay, ballots) + [FinishHeight(i)];
      && Calm(events)
      && Resume(cfg, s, events) == Put(s, i, Committing(s.nodes[i], cfg.healDelay, cfg.paced, ballots))
  {
    hide Drive, DriveEvents, Waiting, Finish, Put, Runnable, Resume;
    var n := s.nodes[i];
    var driven := DriveEvents(i, n, cfg.healDelay, ballots);
    AllDelivered(s.bus, n, cfg.healDelay, ballots);
    DriveIsRun(cfg, s, i, ballots);
    DriveIsCalm(i, n, cfg.healDelay, ballots);
    var (r, _, sent) := Drive(n, cfg.healDelay, ballots);
    ResumeTwice(cfg, s, driven, [FinishHeight(i)]);
    LastStep(cfg, s, i, r, sent);
  }

  lemma CommitPhase(cfg: Config, s: System, c: Common, b: Block) returns (t: System, events: seq<Event>)
    requires cfg.Valid() && Able(cfg) && c.Ok(cfg) && |s.nodes| == |cfg.validators| && b.header.height == c.height
    requires forall i | 0 <= i < |s.nodes| ::
               && Tallies(s.nodes[i], cfg.validators[i], c, b)
               && VoteMsg(NewVote(c.height, b.Hash(), cfg.validators[i])) in s.bus
    requires CheckAgainst(c.tip, c.ledger, b).Success?
    requires SameBonds(CheckAgainst(c.tip, c.ledger, b).value, cfg.base.state)
    ensures Calm(events) && t == Resume(cfg, s, events) && |t.nodes| == |s.nodes|
    ensures forall i | 0 <= i < |t.nodes| :: Between(cfg, t.nodes[i], |s.nodes[i].commits| + 1)
    ensures DeliversOnce(events) && DeliversAt(events, c.height, false)
  {
    hide Committing, Tallies, Swept, Flat, NewVote, CheckAgainst, Able, Common.Ok, Drive, Between, Resume, SameBonds,
         Runnable;
    var n, ballots := |s.nodes|, Ballots(cfg, c.height, b.Hash());
    forall i | 0 <= i < n
      ensures Runnable(s.nodes[i])
      ensures
        var r := Drive(s.nodes[i], cfg.healDelay, ballots).0;
        && r.phase.Tallying? && !Waiting(r)
        && Between(cfg, Committing(s.nodes[i], cfg.healDelay, cfg.paced, ballots).0, |s.nodes[i].commits| + 1)
    {
      CommitsAlike(cfg, s.nodes[i], cfg.validators[i], c, b);
    }
    var turns := seq(n, i requires 0 <= i < n => Committing(s.nodes[i], cfg.healDelay, cfg.paced, ballots));
    var lists := seq(n, i requires 0 <= i < n =>
                        DriveEvents(i, s.nodes[i], cfg.healDelay, ballots) + [FinishHeight(i)]);
    forall i | 0 <= i < n ensures TakesTurn(cfg, s, turns, i, lists[i]) {
      TurnIsRun(cfg, Swept(s, turns[..i]), i, ballots);
    }
    SweepIsRun(cfg, s, turns, lists, n);
    assert turns[..n] == turns && lists[..n] == lists;
    events := Flat(lists);
    t := Swept(s, turns);
    forall i | 0 <= i < n ensures OwnReads(lists[i], i, c.height, false) {
      TurnReads(cfg, i, s.nodes[i], c.height, b.Hash());
    }
    FlatOnce(lists, c.height, false);
  }

  /** A node's turn in the tally reads each ballot at most once. */
  lemma TurnReads(cfg: Config, i: nat, n: Node, height: int, hash: Digest)
    requires cfg.Valid() && Runnable(n)
    ensures
      var events := DriveEvents(i, n, cfg.healDelay, Ballots(cfg, height, hash)) + [FinishHeight(i)];
      OwnReads(events, i, height, false)
  {
    hide Runnable, DriveEvents;
    var ballots := Ballots(cfg, height, hash);
    forall j, k | 0 <= j < k < |ballots| ensures ballots[j] != ballots[k] {
      assert Addresses(cfg.validators)[j] != Addresses(cfg.validators)[k];
    }
    DriveReads(i, n, cfg.healDelay, ballots);
    var driven := DriveEvents(i, n, cfg.healDelay, ballots);
    JoinOnce(driven, [FinishHeight(i)]);
  }

  // ----- one height, and every height -----

  lemma CalmIsHonest(cfg: Config, events: seq<Event>)
    requires cfg.Valid() && Calm(events)
    ensures AllHonestBut(cfg, events, {}) && NoHalt.OnlyNodesPropose(events)
  {
    hide Consensus.After;
  }

  lemma CalmJoins(a: seq<Event>, b: seq<Event>)
    requires Calm(a) && Calm(b)
    ensures Calm(a + b)
  {
  }

  ghost predicate AllBetween(cfg: Config, s: System, k: nat) {
    |s.nodes| == |cfg.validators| && forall i | 0 <= i < |s.nodes| :: Between(cfg, s.nodes[i], k)
  }

  /** What node 0 carries into the next height. */
  ghost function Shared(cfg: Config, s: System): Common
    requires 0 < |s.nodes| && s.nodes[0].chain.blocks != []
  {
    var n := s.nodes[0];
    Common(n.chain.Tip().header, n.chain.state, n.election, n.height)
  }

  lemma SitsBetween(cfg: Config, s: System, i: nat, k: nat)
    requires cfg.Valid() && SystemOk(cfg, s) && AllBetween(cfg, s, k) && i < |s.nodes|
    ensures
      var n := s.nodes[i];
      && |n.commits| == |n.views| == k && n.chain.blocks != [] && n.self == cfg.validators[i]
      && n.chain.Tip().header == TipAt(cfg, n, k) && n.chain.state == LedgerAt(cfg, n, k)
      && n.height == FirstHeight(cfg) + k == n.chain.Tip().header.height + 1
      && n.election.Valid() && n.election.addresses == Addresses(cfg.validators) && n.election == ElectionAt(cfg, n, k)
      && ViewsFollow(cfg, n)
  {
    hide ViewsFollow, CommitsBacked, TallyExact, StashSent, SameBonds;
    assert NodeOk(cfg, s.bus, i, s.nodes[i]);
    assert Between(cfg, s.nodes[i], k);
  }

  /** Between heights nothing is due and nobody is slashed. */
  lemma NothingPending(cfg: Config, events: seq<Event>, j: nat)
    requires cfg.Valid() && Calm(events) && j < |Consensus.After(cfg, events).nodes|
    requires
      var n := Consensus.After(cfg, events).nodes[j];
      n.election.Valid() && n.election.addresses == Addresses(cfg.validators)
    ensures
      var n := Consensus.After(cfg, events).nodes[j];
      NothingDue(n, n.election.addresses) && SlashFree.Unslashed(n.election)
  {
    hide Consensus.After, VotesAreCast, SeenSent;
    CalmIsHonest(cfg, events);
    var n := Consensus.After(cfg, events).nodes[j];
    forall i | 0 <= i < |cfg.validators|
      ensures cfg.validators[i].address !in n.detector.pendingSlash
              && cfg.validators[i].address !in n.detector.pendingHeal
      ensures !IsSlashed(n.election, cfg.validators[i].address)
    {
      assert Honest(cfg, events, i);
      HonestAlwaysOk(cfg, events, i);
    }
    forall i | 0 <= i < |n.election.addresses| ensures !n.election.slashed[i] {
      assert n.election.addresses[i] == cfg.validators[i].address;
    }
  }

  lemma {:induction false} StakesStay(cfg: Config, n: Node, k: nat)
    requires cfg.Valid() && k <= |n.views| <= |n.commits| + 1 && ViewsFollow(cfg, n)
    ensures ElectionAt(cfg, n, k).Valid() && ElectionAt(cfg, n, k).origStake == Stakes(cfg.validators)
  {
    hide Enter, Next, Elected, ViewOk;
    if k > 0 {
      StakesStay(cfg, n, k - 1);
      assert ViewOk(cfg, n, k - 1);
      SlashFree.ViewElection(cfg, n, k - 1);
    }
  }

  lemma NotFaulty(cfg: Config, events: seq<Event>, i: nat)
    requires cfg.Valid() && Calm(events) && i < |cfg.validators|
    ensures i < |Consensus.After(cfg, events).nodes| && !Consensus.After(cfg, events).nodes[i].byzantine
  {
    hide Consensus.After, VotesAreCast, SeenSent, Clear, Spared;
    CalmIsHonest(cfg, events);
    assert Honest(cfg, events, i);
    HonestAlwaysOk(cfg, events, i);
  }

  /** In a calm run nodes between the same heights stand alike. */
  lemma AlikeBetween(cfg: Config, events: seq<Event>, i: nat, k: nat)
    requires cfg.Valid() && Calm(events) && AllBetween(cfg, Consensus.After(cfg, events), k)
    requires SystemOk(cfg, Consensus.After(cfg, events)) && i < |Consensus.After(cfg, events).nodes|
    ensures
      var n, r := Consensus.After(cfg, events).nodes[0], Consensus.After(cfg, events).nodes[i];
      && n.chain.blocks != [] && r.chain.blocks != [] && n.chain.Tip().header == r.chain.Tip().header
      && n.chain.state == r.chain.state && n.election == r.election && n.height == r.height
  {
    hide Consensus.After, SystemOk, SchedulesAgree, NoHalt.Owned, NoHalt.NoneHalted, AllBetween, AllHonestBut,
         ViewsFollow;
    var s := Consensus.After(cfg, events);
    CalmIsHonest(cfg, events);
    HonestSchedulesAgree(cfg, events);
    NoHalt.ScheduledRunsOn(cfg, events);
    SitsBetween(cfg, s, 0, k);
    SitsBetween(cfg, s, i, k);
    NoHalt.Lockstep(cfg, s, 0, i, k);
  }

  lemma Gather(cfg: Config, events: seq<Event>, k: nat) returns (c: Common)
    requires cfg.Valid() && Able(cfg) && Calm(events) && AllBetween(cfg, Consensus.After(cfg, events), k)
             && 0 < |cfg.validators|
    ensures AllPoised(cfg, Consensus.After(cfg, events), c) && c.height == FirstHeight(cfg) + k
  {
    hide Consensus.After, SystemOk, Able, SameBonds, NothingDue, SlashFree.Unslashed, ElectionAt, TipAt, LedgerAt,
         ViewsFollow;
    var s := Consensus.After(cfg, events);
    AlwaysOk(cfg, events);
    SitsBetween(cfg, s, 0, k);
    StakesStay(cfg, s.nodes[0], k);
    NothingPending(cfg, events, 0);
    c := Shared(cfg, s);
    assert Between(cfg, s.nodes[0], k);
    forall i | 0 <= i < |s.nodes| ensures Poised(s.nodes[i], cfg.validators[i], c) {
      SitsBetween(cfg, s, i, k);
      AlikeBetween(cfg, events, i, k);
      NothingPending(cfg, events, i);
      NotFaulty(cfg, events, i);
      assert Between(cfg, s.nodes[i], k);
    }
  }

  lemma SomeValidator(cfg: Config)
    requires cfg.Valid() && Able(cfg)
    ensures 0 < |cfg.validators|
  {
    PositiveTotal(Weights(FirstElection(cfg)), |cfg.validators|);
  }

  /** From between any two heights of a calm run, every node can commit one more. */
  lemma OneMoreHeight(cfg: Config, events: seq<Event>, k: nat) returns (more: seq<Event>)
    requires cfg.Valid() && Able(cfg) && Calm(events) && AllBetween(cfg, Consensus.After(cfg, events), k)
    ensures Calm(events + more) && AllBetween(cfg, Consensus.After(cfg, events + more), k + 1)
    ensures DeliversOnce(more) && forall ev | ev in more && ev.Deliver? :: MsgHeight(ev.m) == FirstHeight(cfg) + k
  {
    hide Consensus.After, Able, Awaits, Tallies, CheckAgainst, Propose, Resume, Elected, NewVote, Poised, SameBonds,
         Calm;
    var s := Consensus.After(cfg, events);
    SomeValidator(cfg);
    var c := Gather(cfg, events, k);
    var p := SomeoneElected(cfg, c);
    var v := cfg.validators[p];
    var b := Proposal(c, v);
    ProposalPasses(cfg, c, v);
    var begun, first := BeginPhase(cfg, s, c, p);
    var voted, second := VotePhase(cfg, begun, c, b);
    var done, third := CommitPhase(cfg, voted, c, b);
    forall i | 0 <= i < |done.nodes| ensures Between(cfg, done.nodes[i], k + 1) {
      assert Between(cfg, s.nodes[i], k);
    }
    more := first + second + third;
    ResumeTwice(cfg, s, first, second);
    ResumeTwice(cfg, s, first + second, third);
    AfterResumed(cfg, events, more);
    CalmJoins(first, second);
    CalmJoins(first + second, third);
    CalmJoins(events, more);
    PhasesOnce(first, second, third, c.height);
  }

  lemma PhasesOnce(first: seq<Event>, second: seq<Event>, third: seq<Event>, h: int)
    requires DeliversOnce(first) && DeliversOnce(second) && DeliversOnce(third)
    requires DeliversAt(second, h, true) && DeliversAt(third, h, false) && forall ev | ev in first :: !ev.Deliver?
    ensures
      var more := first + second + third;
      DeliversOnce(more) && forall ev | ev in more && ev.Deliver? :: MsgHeight(ev.m) == h
  {
    JoinOnce(first, second);
    JoinOnce(first + second, third);
  }

  /** Deliveries so far are all of earlier heights. */
  ghost predicate DeliversBelow(events: seq<Event>, h: int) {
    forall ev | ev in events && ev.Deliver? :: MsgHeight(ev.m) < h
  }

  lemma LaterOnce(events: seq<Event>, more: seq<Event>, h: int)
    requires DeliversOnce(events) && DeliversBelow(events, h)
    requires DeliversOnce(more) && forall ev | ev in more && ev.Deliver? :: MsgHeight(ev.m) == h
    ensures DeliversOnce(events + more) && DeliversBelow(events + more, h + 1)
  {
    JoinOnce(events, more);
  }

  /** Progress: with nobody faulty, every message delivered and none of them twice,
      an honest cluster commits as many heights as asked, on every node. */
  lemma {:induction false} ClusterProgresses(cfg: Config, heights: nat) returns (events: seq<Event>)
    requires cfg.Valid() && Able(cfg)
    ensures Calm(events) && |Consensus.After(cfg, events).nodes| == |cfg.validators|
    ensures forall i | 0 <= i < |cfg.validators| ::
              var n := Consensus.After(cfg, events).nodes[i];
              n.phase.Ready? && |n.commits| == heights && n.height == FirstHeight(cfg) + heights
    ensures AllBetween(cfg, Consensus.After(cfg, events), heights)
    ensures DeliversOnce(events) && DeliversBelow(events, FirstHeight(cfg) + heights)
    decreases heights
  {
    hide Consensus.After, Able, Calm;
    if heights == 0 {
      events := [];
      StartsBetween(cfg);
    } else {
      var init := ClusterProgresses(cfg, heights - 1);
      var more := OneMoreHeight(cfg, init, heights - 1);
      LaterOnce(init, more, FirstHeight(cfg) + heights - 1);
      events := init + more;
    }
    AlwaysOk(cfg, events);
    forall i | 0 <= i < |cfg.validators|
      ensures
        var n := Consensus.After(cfg, events).nodes[i];
        n.phase.Ready? && |n.commits| == heights && n.height == FirstHeight(cfg) + heights
    {
      SitsBetween(cfg, Consensus.After(cfg, events), i, heights);
      assert Between(cfg, Consensus.After(cfg, events).nodes[i], heights);
    }
  }

  lemma StartsBetween(cfg: Config)
    requires cfg.Valid()
    ensures Calm([]) && AllBetween(cfg, Consensus.After(cfg, []), 0)
  {
  }
}
