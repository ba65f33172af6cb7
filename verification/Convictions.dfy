/** Every slash is grounded: whoever any node detects, schedules or slashes has
    two conflicting verified votes on the bus. */
module Convictions {
  import opened Types
  import opened Ledger
  import opened Chains
  import opened Elections
  import opened Votes
  import opened Proposals
  import opened Consensus
  import opened Invariants

  // ----- equivocation on the bus -----

  predicate Conflict(m: Message, n: Message, height: int) {
    && m.VoteMsg? && n.VoteMsg? && VerifyVote(m.vote) && VerifyVote(n.vote)
    && m.vote.voter == n.vote.voter && m.vote.height == height == n.vote.height && m.vote.hash != n.vote.hash
  }

  /** Everyone with two conflicting verified votes at a height on the bus. */
  ghost function Conflicted(bus: set<Message>, height: int): set<Address> {
    set m, n | m in bus && n in bus && Conflict(m, n, height) :: m.vote.voter
  }

  /** Everyone with two conflicting verified votes at any height on the bus. */
  ghost function Equivocators(bus: set<Message>): set<Address> {
    set m, n | m in bus && n in bus && Conflict(m, n, MsgHeight(m)) :: m.vote.voter
  }

  lemma EquivocatorsGrow(bus: set<Message>, more: set<Message>)
    requires bus <= more
    ensures Equivocators(bus) <= Equivocators(more)
  {
  }

  lemma ConflictedEquivocate(bus: set<Message>, height: int)
    ensures Conflicted(bus, height) <= Equivocators(bus)
  {
    forall m, n | m in bus && n in bus && Conflict(m, n, height) ensures m.vote.voter in Equivocators(bus) {
      assert Conflict(m, n, MsgHeight(m));
    }
  }

  // ----- what every node keeps -----

  /** First votes remembered were sent. */
  ghost predicate SeenSent(bus: set<Message>, d: Detector) {
    forall h, v | h in d.seenVotes && v in d.seenVotes[h] ::
      var vote := d.seenVotes[h][v];
      VoteMsg(vote) in bus && vote.height == h && vote.voter == v
  }

  /** Everyone a detector names equivocated. */
  ghost predicate DetectorGrounded(d: Detector, guilty: set<Address>) {
    && d.slashed <= guilty && d.pendingSlash.Keys <= guilty && d.pendingHeal.Keys <= guilty
    && forall e | e in d.evidence :: e.offender in guilty
  }

  ghost predicate ViewsGrounded(n: Node, guilty: set<Address>) {
    forall v | v in n.views :: v.offenders <= guilty
  }

  ghost predicate Grounded(bus: set<Message>, n: Node) {
    && SeenSent(bus, n.detector)
    && DetectorGrounded(n.detector, Equivocators(bus))
    && ViewsGrounded(n, Equivocators(bus))
  }

  ghost predicate AllGrounded(s: System) {
    forall i | 0 <= i < |s.nodes| :: Grounded(s.bus, s.nodes[i])
  }

  lemma GroundedGrows(bus: set<Message>, more: set<Message>, n: Node)
    requires bus <= more && Grounded(bus, n)
    ensures Grounded(more, n)
  {
    hide Equivocators;
    EquivocatorsGrow(bus, more);
  }

  lemma SeenGrows(bus: set<Message>, more: set<Message>, d: Detector)
    requires bus <= more && SeenSent(bus, d)
    ensures SeenSent(more, d)
  {
  }

  /** A node that changed neither detector nor views stays grounded. */
  lemma SameGrounds(bus: set<Message>, n: Node, r: Node)
    requires Grounded(bus, n) && r.detector == n.detector && r.views == n.views
    ensures Grounded(bus, r)
  {
    hide Equivocators;
  }

  // ----- one step of one node -----

  lemma ObserveGrounded(bus: set<Message>, n: Node, healDelay: int, m: Message)
    requires Grounded(bus, n) && m in bus
    ensures Grounded(bus, n.(detector := Observe(n.detector, healDelay, m)))
  {
    hide VerifyVote, Equivocators;
    var d := n.detector;
    var r := Observe(d, healDelay, m);
    if r.evidence != d.evidence {
      var first := VoteMsg(SeenAt(d, m.vote.height)[m.vote.voter]);
      assert first in bus;
      ConflictCounts(bus, first, m, m.vote.height);
    }
  }

  lemma ConflictCounts(bus: set<Message>, m: Message, n: Message, height: int)
    requires m in bus && n in bus && Conflict(m, n, height)
    ensures n.vote.voter in Equivocators(bus)
  {
    assert Conflict(m, n, MsgHeight(m));
  }

  lemma BeginGrounded(bus: set<Message>, n: Node, now: int, drained: seq<Transaction>)
    requires Runnable(n) && Grounded(bus, n)
    ensures Grounded(bus, Begin(n, now, drained).0)
  {
    hide Next, Enter, Elected, Propose, Equivocators;
  }

  lemma AcceptGrounded(bus: set<Message>, n: Node, m: Message)
    requires Runnable(n) && Wanted(n, m) && Grounded(bus, n)
    ensures Grounded(bus, Accept(n, m).0)
  {
    hide CheckCandidate, VerifyVote, StakeOf, Equivocators;
    SameGrounds(bus, n, Accept(n, m).0);
  }

  lemma FinishGrounded(bus: set<Message>, n: Node, paced: bool)
    requires Runnable(n) && n.phase.Tallying? && Grounded(bus, n)
    ensures Grounded(bus, Finish(n, paced))
  {
    hide CheckCandidate, Commit, Prune, PruneStash, Equivocators;
  }

  lemma UnstashGrounded(bus: set<Message>, n: Node)
    requires Runnable(n) && InStash(n) && Grounded(bus, n)
    ensures Grounded(bus, Unstash(n).0)
  {
    hide Accept, Grounded;
    var k := FirstWanted(n, n.pending);
    var q := n.(pending := n.pending[..k] + n.pending[k + 1..]);
    SameGrounds(bus, n, q);
    AcceptGrounded(bus, q, n.pending[k]);
  }

  lemma ReceiveGrounded(bus: set<Message>, n: Node, healDelay: int, m: Message)
    requires Runnable(n) && m in bus && Grounded(bus, n)
    ensures Grounded(bus, Receive(n, healDelay, m).0)
  {
    hide Accept, Grounded, Observe;
    var seen := n.(detector := Observe(n.detector, healDelay, m));
    ObserveGrounded(bus, n, healDelay, m);
    if Wanted(n, m) {
      AcceptGrounded(bus, seen, m);
    } else {
      SameGrounds(bus, seen, seen.(pending := n.pending + [m]));
    }
  }

  // ----- every run -----

  lemma PutGrounded(s: System, i: nat, r: (Node, set<Message>))
    requires i < |s.nodes| && AllGrounded(s) && Grounded(s.bus, r.0)
    ensures AllGrounded(Put(s, i, r))
  {
    hide Grounded;
    var t := Put(s, i, r);
    forall j | 0 <= j < |t.nodes| ensures Grounded(t.bus, t.nodes[j]) {
      GroundedGrows(s.bus, t.bus, t.nodes[j]);
    }
  }

  lemma StepGrounded(cfg: Config, s: System, ev: Event)
    requires AllGrounded(s)
    ensures AllGrounded(Consensus.Step(cfg, s, ev))
  {
    hide Grounded, Begin, Unstash, Receive, Finish, Put;
    if Consensus.Step(cfg, s, ev) != s {
      match ev
      case BeginHeight(i, now, drained) =>
        BeginGrounded(s.bus, s.nodes[i], now, drained);
        PutGrounded(s, i, Begin(s.nodes[i], now, drained));
      case FromStash(i) =>
        UnstashGrounded(s.bus, s.nodes[i]);
        PutGrounded(s, i, Unstash(s.nodes[i]));
      case Deliver(i, m) =>
        ReceiveGrounded(s.bus, s.nodes[i], cfg.healDelay, m);
        PutGrounded(s, i, Receive(s.nodes[i], cfg.healDelay, m));
      case FinishHeight(i) =>
        FinishGrounded(s.bus, s.nodes[i], cfg.paced);
        PutGrounded(s, i, (Finish(s.nodes[i], cfg.paced), {}));
      case MakeFaulty(i) =>
        SameGrounds(s.bus, s.nodes[i], s.nodes[i].(byzantine := true));
        PutGrounded(s, i, (s.nodes[i].(byzantine := true), {}));
      case Inject(m) =>
        forall j | 0 <= j < |s.nodes| ensures Grounded(s.bus + {m}, s.nodes[j]) {
          GroundedGrows(s.bus, s.bus + {m}, s.nodes[j]);
        }
    }
  }

  lemma {:induction false} AlwaysGrounded(cfg: Config, events: seq<Event>)
    requires cfg.Valid()
    ensures AllGrounded(Consensus.After(cfg, events))
  {
    hide Consensus.Step;
    if events != [] {
      AlwaysGrounded(cfg, events[..|events| - 1]);
      StepGrounded(cfg, Consensus.After(cfg, events[..|events| - 1]), events[|events| - 1]);
    }
  }

  /** In every run, whoever is in any node's evidence, pending slashes or heals, or
      was slashed at any height it ran, has two conflicting verified votes on the
      bus. */
  lemma EverySlashGrounded(cfg: Config, events: seq<Event>, i: nat, a: Address)
    requires cfg.Valid() && i < |Consensus.After(cfg, events).nodes|
    requires
      var n := Consensus.After(cfg, events).nodes[i];
      || a in n.detector.slashed || a in n.detector.pendingSlash || a in n.detector.pendingHeal
      || (exists e :: e in n.detector.evidence && e.offender == a)
      || exists k :: 0 <= k < |n.views| && SlashedIn(n.views[k], a)
    ensures a in Equivocators(Consensus.After(cfg, events).bus)
  {
    hide Consensus.After, Equivocators, SystemOk;
    AlwaysGrounded(cfg, events);
    AlwaysOk(cfg, events);
    var s := Consensus.After(cfg, events);
    var n := s.nodes[i];
    if k :| 0 <= k < |n.views| && SlashedIn(n.views[k], a) {
      SlashedEquivocated(cfg, s, i, k + 1, a);
    }
  }

  ghost predicate SlashedIn(v: View, a: Address) {
    v.election.Valid() && IsSlashed(v.election, a)
  }

  /** The members a slash or a heal can name, with their stakes, never change. */
  lemma {:induction false} ElectionMembers(cfg: Config, n: Node, k: nat)
    requires cfg.Valid() && |n.views| <= |n.commits| + 1 && ViewsFollow(cfg, n) && k <= |n.views|
    ensures
      var e := ElectionAt(cfg, n, k);
      e.Valid() && e.addresses == Addresses(cfg.validators) && e.origStake == Stakes(cfg.validators)
  {
    hide ViewFrom;
    if k > 0 {
      ElectionMembers(cfg, n, k - 1);
      assert ViewOk(cfg, n, k - 1);
      ViewFields(n.views[k - 1], ElectionAt(cfg, n, k - 1), TipAt(cfg, n, k - 1), LedgerAt(cfg, n, k - 1),
                 n.self.address, FirstHeight(cfg) + (k - 1));
    }
  }

  lemma ViewFields(v: View, before: ElectionView, tip: Header, ledger: State, self: Address, height: int)
    requires ViewFrom(v, before, tip, ledger, self, height)
    ensures v.election.Valid() && v.election.addresses == before.addresses && v.election.origStake == before.origStake
    ensures v.election.delegated == Synced(ledger.delegations, before.addresses)
    ensures v.offenders + v.healed <= Elements(before.addresses)
  {
    hide Elected, Acceptable;
  }

  lemma ViewSlashes(v: View, before: ElectionView, tip: Header, ledger: State, self: Address, height: int, a: Address)
    requires ViewFrom(v, before, tip, ledger, self, height)
    ensures v.election.Valid() && (IsSlashed(v.election, a) ==> IsSlashed(before, a) || a in v.offenders)
  {
    hide Elected, Acceptable, Enter, Next, IsSlashed;
    SlashedAfterEnter(before, v.offenders, v.healed, ledger.delegations, a);
  }

  /** Whoever is slashed when a height is entered equivocated. */
  lemma {:induction false} SlashedEquivocated(cfg: Config, s: System, i: nat, k: nat, a: Address)
    requires cfg.Valid() && SystemOk(cfg, s) && AllGrounded(s) && i < |s.nodes|
    requires k <= |s.nodes[i].views|
    requires ElectionAt(cfg, s.nodes[i], k).Valid() && IsSlashed(ElectionAt(cfg, s.nodes[i], k), a)
    ensures a in Equivocators(s.bus)
    decreases k
  {
    hide ViewFrom, IsSlashed, CommitsBacked, TallyExact, StashSent, Equivocators, FirstElection;
    var n := s.nodes[i];
    assert NodeOk(cfg, s.bus, i, n) && Grounded(s.bus, n);
    if k == 0 {
      FirstUnslashed(cfg, a);
    } else {
      assert ViewOk(cfg, n, k - 1);
      assert n.views[k - 1] in n.views;
      var before := ElectionAt(cfg, n, k - 1);
      ElectionMembers(cfg, n, k - 1);
      ViewSlashes(n.views[k - 1], before, TipAt(cfg, n, k - 1), LedgerAt(cfg, n, k - 1), n.self.address,
                  FirstHeight(cfg) + (k - 1), a);
      if IsSlashed(before, a) {
        SlashedEquivocated(cfg, s, i, k - 1, a);
      }
    }
  }

  lemma FirstUnslashed(cfg: Config, a: Address)
    requires cfg.Valid()
    ensures !IsSlashed(FirstElection(cfg), a)
  {
  }
}
