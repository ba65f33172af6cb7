/** Slashing is sound: a validator whose own node signs one vote per height is
    never convicted anywhere, whatever else is put on the bus. */
module Honesty {
  import opened Types
  import opened Chains
  import opened Elections
  import opened Votes
  import opened Proposals
  import opened Consensus
  import opened Invariants
  import opened Convictions

  /** An injected vote in someone's name is one they already signed. */
  ghost predicate NotForged(bus: set<Message>, a: Address, m: Message) {
    m.VoteMsg? && m.vote.voter == a && VerifyVote(m.vote) ==> HasVote(bus, a, m.vote.height, m.vote.hash)
  }

  /** Validator i's node is never made faulty and its signature never forged. */
  ghost predicate Honest(cfg: Config, events: seq<Event>, i: nat)
    requires cfg.Valid() && i < |cfg.validators|
  {
    forall t | 0 <= t < |events| ::
      && events[t] != MakeFaulty(i)
      && (events[t].Inject? ==>
            NotForged(Consensus.After(cfg, events[..t]).bus, cfg.validators[i].address, events[t].m))
  }

  /** The votes an honest node has cast: one for each block it committed, and one
      for the candidate it is tallying. */
  ghost predicate Cast(cfg: Config, n: Node, height: int, hash: Digest)
    requires cfg.Valid()
  {
    || (exists k :: 0 <= k < |n.commits| && height == FirstHeight(cfg) + k && hash == n.commits[k].block.Hash())
    || (n.phase.Tallying? && height == FirstHeight(cfg) + |n.commits| && hash == n.phase.candidate.Hash())
  }

  lemma CastOnce(cfg: Config, n: Node, height: int, a: Digest, b: Digest)
    requires cfg.Valid() && Cast(cfg, n, height, a) && Cast(cfg, n, height, b)
    ensures a == b
  {
  }

  /** Every verified vote in n's name on the bus is one n cast. */
  ghost predicate VotesAreCast(cfg: Config, bus: set<Message>, n: Node)
    requires cfg.Valid()
  {
    forall m | m in bus && m.VoteMsg? && m.vote.voter == n.self.address && VerifyVote(m.vote) ::
      Cast(cfg, n, m.vote.height, m.vote.hash)
  }

  /** No trace of a conviction of a. */
  ghost predicate Clear(d: Detector, a: Address) {
    && a !in d.slashed && a !in d.pendingSlash && a !in d.pendingHeal
    && forall e | e in d.evidence :: e.offender != a
  }

  ghost predicate Spared(n: Node, a: Address) {
    && n.election.Valid() && !IsSlashed(n.election, a)
    && forall v | v in n.views :: a !in v.offenders && a !in v.healed
  }

  ghost predicate HonestOk(cfg: Config, s: System, i: nat)
    requires cfg.Valid() && i < |s.nodes|
  {
    && !s.nodes[i].byzantine
    && VotesAreCast(cfg, s.bus, s.nodes[i])
    && forall j | 0 <= j < |s.nodes| ::
         SeenSent(s.bus, s.nodes[j].detector)
         && Clear(s.nodes[j].detector, s.nodes[i].self.address)
         && Spared(s.nodes[j], s.nodes[i].self.address)
  }

  // ----- the detector -----

  lemma ObserveClear(cfg: Config, bus: set<Message>, n: Node, d: Detector, healDelay: int, m: Message)
    requires cfg.Valid() && VotesAreCast(cfg, bus, n) && m in bus
    requires SeenSent(bus, d) && Clear(d, n.self.address)
    ensures SeenSent(bus, Observe(d, healDelay, m)) && Clear(Observe(d, healDelay, m), n.self.address)
  {
    hide Cast, VerifyVote;
    if m.VoteMsg? && m.vote.voter == n.self.address && m.vote.voter in SeenAt(d, m.vote.height) {
      var prev := SeenAt(d, m.vote.height)[m.vote.voter];
      assert VoteMsg(prev) in bus;
      if VerifyVote(prev) && VerifyVote(m.vote) {
        CastOnce(cfg, n, m.vote.height, prev.hash, m.vote.hash);
      }
    }
  }

  // ----- one step of one node -----

  /** What a step of node j must keep for the sake of honest address a. */
  ghost predicate NodeSpares(bus: set<Message>, n: Node, a: Address) {
    SeenSent(bus, n.detector) && Clear(n.detector, a) && Spared(n, a)
  }

  lemma BeginSpares(bus: set<Message>, n: Node, a: Address, now: int, drained: seq<Transaction>)
    requires Runnable(n) && NodeSpares(bus, n, a)
    ensures NodeSpares(bus, Begin(n, now, drained).0, a)
  {
    hide Next, Enter, Elected, Propose;
    var members := Elements(n.election.addresses);
    var offenders := Due(n.detector.pendingSlash, n.height) * members;
    var healed := Due(n.detector.pendingHeal, n.height) * members;
    SlashedAfterEnter(n.election, offenders, healed, n.chain.state.delegations, a);
  }

  lemma AcceptSpares(bus: set<Message>, n: Node, a: Address, m: Message)
    requires Runnable(n) && Wanted(n, m) && NodeSpares(bus, n, a)
    ensures NodeSpares(bus, Accept(n, m).0, a)
  {
  }

  lemma FinishSpares(bus: set<Message>, n: Node, a: Address, paced: bool)
    requires Runnable(n) && n.phase.Tallying? && NodeSpares(bus, n, a)
    ensures NodeSpares(bus, Finish(n, paced), a)
  {
    hide CheckCandidate, Commit, Prune, PruneStash;
  }

  /** What a step of node n puts on the bus in its own name, it has cast. */
  ghost predicate OwnVotesOnly(out: set<Message>, n: Node) {
    forall m | m in out && m.VoteMsg? :: m.vote.voter == n.self.address
  }

  lemma AcceptCasts(cfg: Config, bus: set<Message>, n: Node, m: Message)
    requires cfg.Valid() && Runnable(n) && Wanted(n, m) && n.height == FirstHeight(cfg) + |n.commits|
    ensures
      var (r, out) := Accept(n, m);
      && r.self == n.self && OwnVotesOnly(out, n)
      && (!n.byzantine && VotesAreCast(cfg, bus, n) ==> !r.byzantine && VotesAreCast(cfg, bus + out, r))
  {
    hide CheckCandidate, VerifyVote, StakeOf;
  }

  lemma FinishCasts(cfg: Config, bus: set<Message>, i: nat, n: Node)
    requires cfg.Valid() && i < |cfg.validators| && NodeOk(cfg, bus, i, n) && n.phase.Tallying?
    requires VotesAreCast(cfg, bus, n)
    ensures VotesAreCast(cfg, bus, Finish(n, cfg.paced))
  {
    hide CheckCandidate, VerifyVote, Commit, Prune, PruneStash, ViewsFollow, CommitsBacked, Forget;
    var r := Finish(n, cfg.paced);
    forall h, hash | Cast(cfg, n, h, hash) ensures Cast(cfg, r, h, hash) {
      if k :| 0 <= k < |n.commits| && h == FirstHeight(cfg) + k && hash == n.commits[k].block.Hash() {
        assert r.commits[k] == n.commits[k];
      } else {
        assert r.commits[|n.commits|].block == n.phase.candidate;
      }
    }
  }

  lemma SameCasts(cfg: Config, bus: set<Message>, out: set<Message>, n: Node, r: Node)
    requires cfg.Valid() && VotesAreCast(cfg, bus, n) && n.self == r.self && n.commits == r.commits
             && n.phase == r.phase
    requires forall m | m in out && m.VoteMsg? :: m.vote.voter != n.self.address
    ensures VotesAreCast(cfg, bus + out, r)
  {
    hide VerifyVote;
    forall h, hash | Cast(cfg, n, h, hash) ensures Cast(cfg, r, h, hash) {
    }
  }

  // ----- one step of the system -----

  /** A step of node j with result r keeps everything asked about honest node i. */
  lemma PutHonest(cfg: Config, s: System, i: nat, j: nat, r: (Node, set<Message>))
    requires cfg.Valid() && SystemOk(cfg, s) && i < |s.nodes| && j < |s.nodes| && HonestOk(cfg, s, i)
    requires r.0.self == s.nodes[j].self && OwnVotesOnly(r.1, s.nodes[j])
    requires NodeSpares(s.bus, r.0, s.nodes[i].self.address)
    requires i == j ==> !r.0.byzantine && VotesAreCast(cfg, s.bus + r.1, r.0)
    ensures HonestOk(cfg, Put(s, j, r), i)
  {
    hide SeenSent, Clear, Spared, VotesAreCast, Cast, NodeOk;
    var t := Put(s, j, r);
    var a := s.nodes[i].self.address;
    if i != j {
      DifferentAddresses(cfg, s, i, j);
      SameCasts(cfg, s.bus, r.1, s.nodes[i], t.nodes[i]);
    }
    forall q | 0 <= q < |t.nodes|
      ensures SeenSent(t.bus, t.nodes[q].detector) && Clear(t.nodes[q].detector, a) && Spared(t.nodes[q], a)
    {
      SeenGrows(s.bus, t.bus, t.nodes[q].detector);
    }
  }

  lemma DifferentAddresses(cfg: Config, s: System, i: nat, j: nat)
    requires cfg.Valid() && SystemOk(cfg, s) && i < |s.nodes| && j < |s.nodes| && i != j
    ensures s.nodes[i].self.address != s.nodes[j].self.address
  {
    hide ViewsFollow, CommitsBacked, TallyExact, StashSent;
    assert NodeOk(cfg, s.bus, i, s.nodes[i]) && NodeOk(cfg, s.bus, j, s.nodes[j]);
    assert Addresses(cfg.validators)[i] != Addresses(cfg.validators)[j];
  }

  lemma StepHonest(cfg: Config, s: System, ev: Event, i: nat)
    requires cfg.Valid() && SystemOk(cfg, s) && i < |s.nodes| && HonestOk(cfg, s, i)
    requires ev != MakeFaulty(i) && (ev.Inject? ==> NotForged(s.bus, s.nodes[i].self.address, ev.m))
    ensures HonestOk(cfg, Consensus.Step(cfg, s, ev), i)
  {
    hide SeenSent, Clear, Spared, VotesAreCast, Begin, Accept, Finish, Observe, ViewsFollow, CommitsBacked, TallyExact,
         StashSent;
    var a := s.nodes[i].self.address;
    if Consensus.Step(cfg, s, ev) != s {
      match ev
      case BeginHeight(j, now, drained) =>
        BeginSpares(s.bus, s.nodes[j], a, now, drained);
        BeginCasts(cfg, s.bus, s.nodes[j], now, drained);
        PutHonest(cfg, s, i, j, Begin(s.nodes[j], now, drained));
      case FromStash(j) =>
        assert NodeOk(cfg, s.bus, j, s.nodes[j]);
        UnstashHonest(cfg, s, i, j);
      case Deliver(j, m) =>
        assert NodeOk(cfg, s.bus, j, s.nodes[j]);
        ReceiveHonest(cfg, s, i, j, m);
      case FinishHeight(j) =>
        assert NodeOk(cfg, s.bus, j, s.nodes[j]);
        FinishSpares(s.bus, s.nodes[j], a, cfg.paced);
        if i == j {
          FinishCasts(cfg, s.bus, i, s.nodes[i]);
        }
        assert s.bus + {} == s.bus;
        FinishSelf(s.nodes[j], cfg.paced);
        PutHonest(cfg, s, i, j, (Finish(s.nodes[j], cfg.paced), {}));
      case MakeFaulty(j) =>
        FaultySpares(s.bus, s.nodes[j], a);
        PutHonest(cfg, s, i, j, (s.nodes[j].(byzantine := true), {}));
      case Inject(m) =>
        InjectHonest(cfg, s, i, m);
    }
  }

  lemma FaultySpares(bus: set<Message>, n: Node, a: Address)
    requires NodeSpares(bus, n, a)
    ensures NodeSpares(bus, n.(byzantine := true), a)
  {
  }

  lemma FinishSelf(n: Node, paced: bool)
    requires Runnable(n) && n.phase.Tallying?
    ensures Finish(n, paced).self == n.self && Finish(n, paced).byzantine == n.byzantine
  {
    hide CheckCandidate, Commit, Prune;
  }

  lemma BeginCasts(cfg: Config, bus: set<Message>, n: Node, now: int, drained: seq<Transaction>)
    requires cfg.Valid() && Runnable(n) && n.phase.Ready?
    ensures
      var (r, out) := Begin(n, now, drained);
      && r.self == n.self && OwnVotesOnly(out, n)
      && (!n.byzantine && VotesAreCast(cfg, bus, n) ==> !r.byzantine && VotesAreCast(cfg, bus + out, r))
  {
    hide Enter, Next, Elected, Propose, VerifyVote;
  }

  lemma UnstashHonest(cfg: Config, s: System, i: nat, j: nat)
    requires cfg.Valid() && SystemOk(cfg, s) && i < |s.nodes| && j < |s.nodes| && HonestOk(cfg, s, i)
    requires Runnable(s.nodes[j]) && InStash(s.nodes[j]) && NodeOk(cfg, s.bus, j, s.nodes[j])
    ensures HonestOk(cfg, Put(s, j, Unstash(s.nodes[j])), i)
  {
    hide SeenSent, Clear, Accept, ViewsFollow, CommitsBacked, TallyExact, SystemOk, Cast, VerifyVote;
    var n := s.nodes[j];
    var k := FirstWanted(n, n.pending);
    var q, m := n.(pending := n.pending[..k] + n.pending[k + 1..]), n.pending[k];
    if i == j {
      SameCasts(cfg, s.bus, {}, n, q);
      assert s.bus + {} == s.bus;
    }
    AcceptSpares(s.bus, q, s.nodes[i].self.address, m);
    AcceptCasts(cfg, s.bus, q, m);
    PutHonest(cfg, s, i, j, Unstash(n));
  }

  lemma ReceiveHonest(cfg: Config, s: System, i: nat, j: nat, m: Message)
    requires cfg.Valid() && SystemOk(cfg, s) && i < |s.nodes| && j < |s.nodes| && HonestOk(cfg, s, i)
    requires Runnable(s.nodes[j]) && m in s.bus && NodeOk(cfg, s.bus, j, s.nodes[j])
    ensures HonestOk(cfg, Put(s, j, Receive(s.nodes[j], cfg.healDelay, m)), i)
  {
    hide SeenSent, Clear, Accept, Observe, ViewsFollow, CommitsBacked, TallyExact, SystemOk, Cast, VerifyVote;
    var n := s.nodes[j];
    var seen := n.(detector := Observe(n.detector, cfg.healDelay, m));
    ObserveClear(cfg, s.bus, s.nodes[i], n.detector, cfg.healDelay, m);
    var kept := seen.(pending := n.pending + [m]);
    assert s.bus + {} == s.bus;
    if i == j {
      SameCasts(cfg, s.bus, {}, n, seen);
      SameCasts(cfg, s.bus, {}, n, kept);
    }
    if Wanted(n, m) {
      AcceptSpares(s.bus, seen, s.nodes[i].self.address, m);
      AcceptCasts(cfg, s.bus, seen, m);
    }
    PutHonest(cfg, s, i, j, Receive(n, cfg.healDelay, m));
  }

  lemma InjectHonest(cfg: Config, s: System, i: nat, m: Message)
    requires cfg.Valid() && i < |s.nodes| && HonestOk(cfg, s, i)
    requires NotForged(s.bus, s.nodes[i].self.address, m)
    ensures HonestOk(cfg, s.(bus := s.bus + {m}), i)
  {
    hide SeenSent, Clear, Spared, Cast, VerifyVote;
    var more := s.bus + {m};
    forall j | 0 <= j < |s.nodes| ensures SeenSent(more, s.nodes[j].detector) {
      SeenGrows(s.bus, more, s.nodes[j].detector);
    }
    var n := s.nodes[i];
    if m.VoteMsg? && m.vote.voter == n.self.address && VerifyVote(m.vote) {
      var first :| first in s.bus && VotedFor(first, n.self.address, m.vote.height, m.vote.hash);
    }
  }

  // ----- every run -----

  lemma {:induction false} HonestAlwaysOk(cfg: Config, events: seq<Event>, i: nat)
    requires cfg.Valid() && i < |cfg.validators| && Honest(cfg, events, i)
    ensures
      var s := Consensus.After(cfg, events);
      i < |s.nodes| && s.nodes[i].self == cfg.validators[i] && HonestOk(cfg, s, i)
  {
    hide Consensus.Step, HonestOk, NodeOk;
    if events == [] {
      FirstHonest(cfg, i);
    } else {
      var init, ev := events[..|events| - 1], events[|events| - 1];
      HonestPrefix(cfg, events, i);
      HonestAlwaysOk(cfg, init, i);
      AlwaysOk(cfg, init);
      StepHonest(cfg, Consensus.After(cfg, init), ev, i);
    }
    AlwaysOk(cfg, events);
    WhoSits(cfg, Consensus.After(cfg, events), i);
  }

  lemma WhoSits(cfg: Config, s: System, i: nat)
    requires cfg.Valid() && SystemOk(cfg, s) && i < |cfg.validators|
    ensures i < |s.nodes| && s.nodes[i].self == cfg.validators[i]
  {
    assert NodeOk(cfg, s.bus, i, s.nodes[i]);
  }

  lemma HonestPrefix(cfg: Config, events: seq<Event>, i: nat)
    requires cfg.Valid() && i < |cfg.validators| && Honest(cfg, events, i) && events != []
    ensures Honest(cfg, events[..|events| - 1], i)
    ensures
      var ev := events[|events| - 1];
      && ev != MakeFaulty(i)
      && (ev.Inject? ==> NotForged(Consensus.After(cfg, events[..|events| - 1]).bus, cfg.validators[i].address, ev.m))
  {
    hide Consensus.After, NotForged;
    var init := events[..|events| - 1];
    forall t | 0 <= t < |init|
      ensures init[t] != MakeFaulty(i)
      ensures init[t].Inject? ==> NotForged(Consensus.After(cfg, init[..t]).bus, cfg.validators[i].address, init[t].m)
    {
      assert init[..t] == events[..t] && init[t] == events[t];
    }
  }

  lemma FirstHonest(cfg: Config, i: nat)
    requires cfg.Valid() && i < |cfg.validators|
    ensures HonestOk(cfg, Start(cfg), i)
  {
  }

  /** A validator whose node signs one vote per height is never in any node's
      evidence, pending slashes or slashed election entries. */
  lemma HonestNeverConvicted(cfg: Config, events: seq<Event>, i: nat, j: nat)
    requires cfg.Valid() && i < |cfg.validators| && j < |cfg.validators| && Honest(cfg, events, i)
    ensures
      var s := Consensus.After(cfg, events);
      var a := cfg.validators[i].address;
      && j < |s.nodes| && s.nodes[j].election.Valid()
      && (forall e | e in s.nodes[j].detector.evidence :: e.offender != a)
      && a !in s.nodes[j].detector.pendingSlash && a !in s.nodes[j].detector.slashed
      && !IsSlashed(s.nodes[j].election, a)
  {
    hide Consensus.After;
    HonestAlwaysOk(cfg, events, i);
    AlwaysOk(cfg, events);
  }

  /** Nor does it ever count against the fault budget. */
  lemma HonestNeverConflicts(cfg: Config, events: seq<Event>, i: nat, height: int)
    requires cfg.Valid() && i < |cfg.validators| && Honest(cfg, events, i)
    ensures cfg.validators[i].address !in Conflicted(Consensus.After(cfg, events).bus, height)
  {
    hide Consensus.After, VerifyVote;
    HonestAlwaysOk(cfg, events, i);
    var s := Consensus.After(cfg, events);
    var a := cfg.validators[i].address;
    forall m, n | m in s.bus && n in s.bus && Conflict(m, n, height) ensures m.vote.voter != a {
      if m.vote.voter == a {
        CastOnce(cfg, s.nodes[i], height, m.vote.hash, n.vote.hash);
      }
    }
  }
}
