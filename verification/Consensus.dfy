/** One-step-vote consensus as a step system: every node's loop, cut at each
    point where it touches its inbox, over a bus that may deliver any message
    ever sent, to anyone, any number of times, in any order. */
module Consensus {
  import opened Wrappers
  import opened Words
  import opened Sums
  import opened Types
  import opened Ledger
  import opened Chains
  import opened Elections
  import opened Accumulator
  import opened Votes
  import opened Proposals

  /** The cluster: who validates, the chain all start from, and its settings. */
  datatype Config = Config(validators: seq<Validator>, base: ChainView, healDelay: int, paced: bool) {
    ghost predicate Valid() {
      && base.blocks != []
      && Distinct(Addresses(validators))
      && forall v | v in validators :: v.WellFormed()
    }
  }

  function Addresses(validators: seq<Validator>): (r: seq<Address>)
    ensures |r| == |validators| && forall i | 0 <= i < |r| :: r[i] == validators[i].address
  {
    seq(|validators|, i requires 0 <= i < |validators| => validators[i].address)
  }

  function Stakes(validators: seq<Validator>): (r: seq<nat>)
    ensures |r| == |validators| && forall i | 0 <= i < |r| :: r[i] == validators[i].stake
  {
    seq(|validators|, i requires 0 <= i < |validators| => validators[i].stake)
  }

  ghost function FirstElection(cfg: Config): (e: ElectionView)
    requires cfg.Valid()
    ensures e.Valid()
  {
    var n := |cfg.validators|;
    var blank := ElectionView(Addresses(cfg.validators), Stakes(cfg.validators), seq(n, _ => 0), seq(n, _ => false),
                              Zeros(n));
    Sync(blank, cfg.base.state.delegations)
  }

  // ----- a node -----

  datatype Phase =
    | Ready                                                           // between heights
    | AwaitingProposal
    | Tallying(candidate: Block, counted: set<Address>, accepted: nat)
    | Halted                                                          // haltf
    | Crashed                                                         // any other panic

  /** What a node ran one height with. A history variable. */
  datatype View = View(offenders: set<Address>, healed: set<Address>, tip: Header, ledger: State,
                       election: ElectionView, elected: Address, proposal: Option<Block>)

  /** A committed block, the voters counted for it, and the ledger after it. A
      history variable, kept when the chain itself is pruned. */
  datatype Commitment = Commitment(block: Block, voters: set<Address>, ledger: State)

  datatype Node = Node(self: Validator, chain: ChainView, pending: seq<Message>, detector: Detector,
                       election: ElectionView, byzantine: bool, height: int, phase: Phase,
                       views: seq<View>, commits: seq<Commitment>)

  function FirstHeight(cfg: Config): int
    requires cfg.base.blocks != []
  {
    cfg.base.Tip().header.height + 1
  }

  ghost function FirstNode(cfg: Config, i: nat): Node
    requires cfg.Valid() && i < |cfg.validators|
  {
    Node(cfg.validators[i], cfg.base, [], FreshDetector, FirstElection(cfg), false, FirstHeight(cfg), Ready, [], [])
  }

  /** The running code's own invariant, enough for every step to be defined. */
  ghost predicate Runnable(n: Node) {
    n.chain.blocks != [] && n.election.Valid()
  }

  /** Fires this height's slashes and heals, re-reads delegations, advances the
      election once, and proposes if elected. Offenders and healed addresses
      that are no members change nothing, so only members are recorded. */
  ghost function Begin(n: Node, now: int, drained: seq<Transaction>): (Node, set<Message>)
    requires Runnable(n)
  {
    var members := Elements(n.election.addresses);
    var offenders := Due(n.detector.pendingSlash, n.height) * members;
    var healed := Due(n.detector.pendingHeal, n.height) * members;
    var entered := Enter(n.election, offenders, healed, n.chain.state.delegations);
    var next := n.(detector := Fire(n.detector, n.height), election := Next(entered),
                   byzantine := n.byzantine && n.self.address !in offenders);
    match Elected(entered)
    case None => (next.(phase := Crashed), {})
    case Some(elected) =>
      var tip := n.chain.Tip().header;
      var proposal := if elected == n.self.address
                      then Some(Propose(tip, n.chain.state, n.height, n.self, now, drained)) else None;
      (next.(phase := AwaitingProposal,
             views := n.views + [View(offenders, healed, tip, n.chain.state, Next(entered), elected, proposal)]),
       if proposal.Some? then {ProposalMsg(proposal.value)} else {})
  }

  /** The message the node is blocked on right now. */
  predicate Wanted(n: Node, m: Message) {
    match n.phase
    case AwaitingProposal => m.ProposalMsg? && m.block.header.height == n.height
    case Tallying(candidate, counted, _) =>
      m.VoteMsg? && m.vote.height == n.height && m.vote.hash == candidate.Hash() && m.vote.voter !in counted
    case _ => false
  }

  ghost function TotalStake(e: ElectionView): nat
    requires e.Valid()
  {
    Uint64(Total(Weights(e)))
  }

  /** Strictly more than two thirds, in uint64 arithmetic. */
  ghost predicate QuorumReached(e: ElectionView, accepted: nat)
    requires e.Valid()
  {
    Uint64(3 * accepted) > Uint64(2 * TotalStake(e))
  }

  ghost predicate Waiting(n: Node)
    requires Runnable(n)
  {
    n.phase.AwaitingProposal? || (n.phase.Tallying? && !QuorumReached(n.election, n.phase.accepted))
  }

  /** The second vote a faulty node signs at a height. */
  const EQUIVOCATION := Raw("equivocation")

  /** What the node does with the message it was waiting for. */
  ghost function Accept(n: Node, m: Message): (Node, set<Message>)
    requires Runnable(n) && Wanted(n, m)
  {
    if n.phase.AwaitingProposal? then
      match CheckCandidate(n.chain, m.block)
      case Success(_) =>
        var hash := m.block.Hash();
        (n.(phase := Tallying(m.block, {}, 0)),
         {VoteMsg(NewVote(n.height, hash, n.self))}
         + if n.byzantine then {VoteMsg(NewVote(n.height, EQUIVOCATION, n.self))} else {})
      case Failure(e) => (n.(phase := if e == CannotApply(RewardPanic) then Crashed else Halted), {})
    else
      var v := m.vote;
      if v.voter !in n.election.addresses || !VerifyVote(v) then (n, {})
      else
        var accepted := Uint64(n.phase.accepted + StakeOf(n.election, v.voter));
        (n.(phase := n.phase.(counted := n.phase.counted + {v.voter}, accepted := accepted)), {})
  }

  predicate InStash(n: Node) {
    exists m :: m in n.pending && Wanted(n, m)
  }

  /** The position of the first wanted message in the stash. */
  function FirstWanted(n: Node, pending: seq<Message>): (k: nat)
    requires exists m :: m in pending && Wanted(n, m)
    ensures k < |pending| && Wanted(n, pending[k]) && forall j | 0 <= j < k :: !Wanted(n, pending[j])
  {
    if Wanted(n, pending[0]) then 0 else 1 + FirstWanted(n, pending[1..])
  }

  /** A wait answered from the stash. */
  ghost function Unstash(n: Node): (Node, set<Message>)
    requires Runnable(n) && InStash(n)
  {
    var k := FirstWanted(n, n.pending);
    Accept(n.(pending := n.pending[..k] + n.pending[k + 1..]), n.pending[k])
  }

  /** A message pulled off the inbox: observed, then used or stashed. */
  ghost function Receive(n: Node, healDelay: int, m: Message): (Node, set<Message>)
    requires Runnable(n)
  {
    var seen := n.(detector := Observe(n.detector, healDelay, m));
    if Wanted(n, m) then Accept(seen, m) else (seen.(pending := n.pending + [m]), {})
  }

  /** Commits the candidate and moves to the next height. */
  ghost function Finish(n: Node, paced: bool): Node
    requires Runnable(n) && n.phase.Tallying?
  {
    var b := n.phase.candidate;
    match CheckCandidate(n.chain, b)
    case Success(next) =>
      n.(chain := Prune(Commit(n.chain, b), paced), pending := PruneStash(n.pending, n.height),
         detector := Forget(n.detector, n.height), height := n.height + 1, phase := Ready,
         commits := n.commits + [Commitment(b, n.phase.counted, next)])
    case Failure(e) => n.(phase := if e == CannotApply(RewardPanic) then Crashed else Halted)
  }

  // ----- the system -----

  datatype System = System(nodes: seq<Node>, bus: set<Message>)

  datatype Event =
    | BeginHeight(i: nat, now: int, drained: seq<Transaction>)
    | FromStash(i: nat)
    | Deliver(i: nat, m: Message)
    | FinishHeight(i: nat)
    | MakeFaulty(i: nat)
    | Inject(m: Message)      // anything anyone else puts on the bus

  ghost function Put(s: System, i: nat, r: (Node, set<Message>)): System
    requires i < |s.nodes|
  {
    System(s.nodes[i := r.0], s.bus + r.1)
  }

  /** One event; an event that is not enabled changes nothing. */
  ghost function Step(cfg: Config, s: System, ev: Event): System {
    match ev
    case BeginHeight(i, now, drained) =>
      if i < |s.nodes| && Runnable(s.nodes[i]) && s.nodes[i].phase == Ready
      then Put(s, i, Begin(s.nodes[i], now, drained)) else s
    case FromStash(i) =>
      if i < |s.nodes| && Runnable(s.nodes[i]) && Waiting(s.nodes[i]) && InStash(s.nodes[i])
      then Put(s, i, Unstash(s.nodes[i])) else s
    case Deliver(i, m) =>
      if i < |s.nodes| && Runnable(s.nodes[i]) && Waiting(s.nodes[i]) && !InStash(s.nodes[i]) && m in s.bus
      then Put(s, i, Receive(s.nodes[i], cfg.healDelay, m)) else s
    case FinishHeight(i) =>
      if i < |s.nodes| && Runnable(s.nodes[i]) && s.nodes[i].phase.Tallying? && !Waiting(s.nodes[i])
      then Put(s, i, (Finish(s.nodes[i], cfg.paced), {})) else s
    case MakeFaulty(i) =>
      if i < |s.nodes| then Put(s, i, (s.nodes[i].(byzantine := true), {})) else s
    case Inject(m) => s.(bus := s.bus + {m})
  }

  ghost function Start(cfg: Config): System
    requires cfg.Valid()
  {
    System(seq(|cfg.validators|, i requires 0 <= i < |cfg.validators| => FirstNode(cfg, i)), {})
  }

  /** The system after any list of events. */
  ghost function After(cfg: Config, events: seq<Event>): System
    requires cfg.Valid()
  {
    if events == [] then Start(cfg) else Step(cfg, After(cfg, events[..|events| - 1]), events[|events| - 1])
  }

  // ----- reading the history -----

  ghost function TipAt(cfg: Config, n: Node, k: nat): Header
    requires cfg.base.blocks != [] && k <= |n.commits|
  {
    if k == 0 then cfg.base.Tip().header else n.commits[k - 1].block.header
  }

  ghost function LedgerAt(cfg: Config, n: Node, k: nat): State
    requires k <= |n.commits|
  {
    if k == 0 then cfg.base.state else n.commits[k - 1].ledger
  }

  /** The election carried into the k-th height run. */
  ghost function ElectionAt(cfg: Config, n: Node, k: nat): ElectionView
    requires cfg.Valid() && k <= |n.views|
  {
    if k == 0 then FirstElection(cfg) else n.views[k - 1].election
  }

  /** Someone's verified vote for a block is on the bus. */
  ghost predicate HasVote(bus: set<Message>, a: Address, height: int, hash: Digest) {
    exists m :: m in bus && VotedFor(m, a, height, hash)
  }

  predicate VotedFor(m: Message, a: Address, height: int, hash: Digest) {
    m.VoteMsg? && m.vote.voter == a && m.vote.height == height && m.vote.hash == hash && VerifyVote(m.vote)
  }
}
