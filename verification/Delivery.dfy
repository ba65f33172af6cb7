/** A channel delivers each message once: what a node has read it still has, until
    it has used it or passed its height. */
module Delivery {
  import opened Types
  import opened Chains
  import opened Elections
  import opened Votes
  import opened Proposals
  import opened Consensus
  import opened Invariants

  /** Event ev makes node i read its inbox. */
  ghost predicate Reads(s: System, ev: Event, i: nat) {
    && ev.Deliver? && ev.i == i && i < |s.nodes| && Runnable(s.nodes[i])
    && Waiting(s.nodes[i]) && !InStash(s.nodes[i]) && ev.m in s.bus
  }

  /** The messages node i has read. */
  ghost function ReadBy(cfg: Config, events: seq<Event>, i: nat): set<Message>
    requires cfg.Valid()
  {
    if events == [] then {}
    else
      var init, ev := events[..|events| - 1], events[|events| - 1];
      ReadBy(cfg, init, i) + if Reads(Consensus.After(cfg, init), ev, i) then {ev.m} else {}
  }

  /** No node is handed the same message twice. */
  ghost predicate DeliversOnce(events: seq<Event>) {
    forall t, u | 0 <= t < u < |events| && events[t].Deliver? :: events[t] != events[u]
  }

  /** A message of this height the node has taken: the proposal it is voting on, or a
      vote for it, counted or rejected. */
  ghost predicate Used(n: Node, m: Message) {
    && n.phase.Tallying? && MsgHeight(m) == n.height
    && match m
       case ProposalMsg(b) => b == n.phase.candidate
       case VoteMsg(v) =>
         v.hash == n.phase.candidate.Hash()
         && (v.voter in n.phase.counted || v.voter !in n.election.addresses || !VerifyVote(v))
  }

  /** Everything read for this height or a later one is stashed or used, unless the
      node has stopped. */
  ghost predicate Kept(n: Node, read: set<Message>) {
    n.phase.Halted? || n.phase.Crashed?
    || forall m | m in read && MsgHeight(m) >= n.height :: m in n.pending || Used(n, m)
  }

  lemma BeginKept(n: Node, read: set<Message>, now: int, drained: seq<Transaction>)
    requires Runnable(n) && n.phase.Ready? && Kept(n, read)
    ensures Kept(Begin(n, now, drained).0, read)
  {
    hide Enter, Next, Elected, Propose, VerifyVote;
  }

  /** n has taken m out of its stash or off its inbox. */
  lemma AcceptKept(n: Node, read: set<Message>, m: Message)
    requires Runnable(n) && Wanted(n, m) && Kept(n, read - {m})
    ensures Kept(Accept(n, m).0, read + {m})
  {
    hide CheckCandidate, StakeOf, VerifyVote;
  }

  lemma UnstashKept(n: Node, read: set<Message>)
    requires Runnable(n) && InStash(n) && Kept(n, read)
    ensures Kept(Unstash(n).0, read)
  {
    hide Accept, VerifyVote;
    var k := FirstWanted(n, n.pending);
    var q, m := n.(pending := n.pending[..k] + n.pending[k + 1..]), n.pending[k];
    forall x | x in n.pending && x != m ensures x in q.pending {
      var j :| 0 <= j < |n.pending| && n.pending[j] == x;
      assert x == if j < k then q.pending[j] else q.pending[j - 1];
    }
    AcceptKept(q, read, m);
    KeptFewer(Unstash(n).0, read + {m}, read);
  }

  lemma KeptFewer(n: Node, more: set<Message>, read: set<Message>)
    requires read <= more && Kept(n, more)
    ensures Kept(n, read)
  {
    hide Used;
  }

  lemma ReceiveKept(n: Node, read: set<Message>, healDelay: int, m: Message)
    requires Runnable(n) && Kept(n, read)
    ensures Kept(Receive(n, healDelay, m).0, read + {m})
  {
    hide Accept, VerifyVote, Observe;
    var seen := n.(detector := Observe(n.detector, healDelay, m));
    if Wanted(n, m) {
      KeptFewer(n, read, read - {m});
      AcceptKept(seen, read, m);
    }
  }

  lemma FinishKept(n: Node, read: set<Message>, paced: bool)
    requires Runnable(n) && n.phase.Tallying? && Kept(n, read)
    ensures Kept(Finish(n, paced), read)
  {
    hide CheckCandidate, Chains.Commit, Prune, Forget, PruneStash, VerifyVote;
    PruneKeepsLater(n.pending, n.height);
  }

  lemma StepKept(cfg: Config, s: System, ev: Event, i: nat, read: set<Message>)
    requires i < |s.nodes| && Kept(s.nodes[i], read)
    ensures i < |Consensus.Step(cfg, s, ev).nodes|
    ensures Kept(Consensus.Step(cfg, s, ev).nodes[i], read + if Reads(s, ev, i) then {ev.m} else {})
  {
    hide Kept, Begin, Unstash, Receive, Finish, Waiting, InStash;
    var n := s.nodes[i];
    assert read + {} == read;
    match ev
    case BeginHeight(j, now, drained) =>
      if j == i && Runnable(n) && n.phase.Ready? {
        BeginKept(n, read, now, drained);
      }
    case FromStash(j) =>
      if j == i && Runnable(n) && InStash(n) {
        UnstashKept(n, read);
      }
    case Deliver(j, m) =>
      if j == i && Runnable(n) {
        ReceiveKept(n, read, cfg.healDelay, m);
      }
    case FinishHeight(j) =>
      if j == i && Runnable(n) && n.phase.Tallying? {
        FinishKept(n, read, cfg.paced);
      }
    case MakeFaulty(j) => FaultyKept(n, read);
    case Inject(m) =>
  }

  lemma FaultyKept(n: Node, read: set<Message>)
    requires Kept(n, read)
    ensures Kept(n.(byzantine := true), read)
  {
  }

  /** No loss: in every run, faults included, whatever a node has read for the height
      it is at or a later one is in its stash, or is what it votes on, or a vote it
      counted or rejected. */
  lemma {:induction false} AlwaysKept(cfg: Config, events: seq<Event>, i: nat)
    requires cfg.Valid() && i < |cfg.validators|
    ensures i < |Consensus.After(cfg, events).nodes|
    ensures Kept(Consensus.After(cfg, events).nodes[i], ReadBy(cfg, events, i))
  {
    hide Consensus.Step, Kept, Reads;
    if events == [] {
      NothingRead(FirstNode(cfg, i));
    } else {
      AlwaysKept(cfg, events[..|events| - 1], i);
      StepKept(cfg, Consensus.After(cfg, events[..|events| - 1]), events[|events| - 1], i,
               ReadBy(cfg, events[..|events| - 1], i));
    }
  }

  lemma NothingRead(n: Node)
    ensures Kept(n, {})
  {
  }

  /** Only what was broadcast is read. */
  lemma {:induction false} ReadSent(cfg: Config, events: seq<Event>, i: nat)
    requires cfg.Valid()
    ensures ReadBy(cfg, events, i) <= Consensus.After(cfg, events).bus
  {
    hide Consensus.Step, Waiting, InStash;
    if events != [] {
      var init, ev := events[..|events| - 1], events[|events| - 1];
      ReadSent(cfg, init, i);
      StepExtends(cfg, Consensus.After(cfg, init), ev);
    }
  }

  /** A run with no delivery repeated reads no message twice. */
  lemma {:induction false} OnceMeansUnread(cfg: Config, events: seq<Event>, i: nat, m: Message)
    requires cfg.Valid() && m in ReadBy(cfg, events, i)
    ensures exists t :: 0 <= t < |events| && events[t] == Deliver(i, m)
  {
    hide Consensus.After, Waiting, InStash;
    if events != [] {
      var init, ev := events[..|events| - 1], events[|events| - 1];
      if m in ReadBy(cfg, init, i) {
        OnceMeansUnread(cfg, init, i, m);
        var t :| 0 <= t < |init| && init[t] == Deliver(i, m);
        assert events[t] == Deliver(i, m);
      } else {
        assert ev == Deliver(i, m);
      }
    }
  }
}
