/** A node as Go runs it: its fields updated in place between reads of its inbox,
    proved to take exactly the steps of the consensus state machine. */
module NodeObjects {
  import opened Wrappers
  import opened Words
  import opened Sums
  import opened Types
  import opened Ledger
  import opened Chains
  import opened Elections
  import opened ElectionObjects
  import opened Votes
  import opened Schedule
  import opened Proposals
  import opened Consensus
  import opened NodeLoop
  import Merkle

  /** How a pass of the height loop ended; Blocked is a read of an empty inbox. */
  datatype Outcome = Committed | Blocked | Stopped | Panicked

  class Node {
    const self: Validator
    const chain: Chain
    const election: Election
    const healDelay: int
    const paced: bool
    var pending: seq<Message>
    var inbox: seq<Message>               // what the channel will still deliver, in order
    var sent: set<Message>                // what this node has broadcast
    var seenVotes: map<int, map<Address, Vote>>
    var evidence: seq<Evidence>
    var slashed: set<Address>
    var pendingSlash: map<Address, int>
    var pendingHeal: map<Address, int>
    var byzantine: bool
    ghost var views: seq<View>
    ghost var commits: seq<Commitment>

    ghost function Noticed(): Detector
      reads this
    {
      Detector(seenVotes, evidence, slashed, pendingSlash, pendingHeal)
    }

    ghost predicate Valid()
      reads this, chain, election, election.delegated, election.slashed, election.priorities
    {
      && chain.Blocks != [] && election.Valid() && self.address in election.addresses
      && HealsCovered(Books(Noticed(), election.View(), 0))
    }

    /** This node in the state machine, at a height and a phase of it. */
    ghost function At(h: int, phase: Phase): Consensus.Node
      reads this, chain, election, election.delegated, election.slashed, election.priorities
      requires election.Valid()
    {
      Consensus.Node(self, chain.View(), pending, Noticed(), election.View(), byzantine, h, phase, views, commits)
    }

    /** A node of a new or resumed cluster, over its own copy of the chain. */
    constructor (cfg: Config, i: nat, chain: Chain, inbox: seq<Message>)
      requires cfg.Valid() && i < |cfg.validators| && chain.View() == cfg.base
      ensures this.chain == chain && this.inbox == inbox && sent == {} && fresh(election)
      ensures fresh(election.delegated) && fresh(election.slashed) && fresh(election.priorities)
      ensures healDelay == cfg.healDelay && paced == cfg.paced
      ensures Valid() && At(FirstHeight(cfg), Ready) == FirstNode(cfg, i)
    {
      self, this.chain, this.inbox, sent := cfg.validators[i], chain, inbox, {};
      var el := new Election(Addresses(cfg.validators), Stakes(cfg.validators));
      election := el;
      healDelay, paced := cfg.healDelay, cfg.paced;
      pending, evidence, slashed, byzantine := [], [], {}, false;
      seenVotes, pendingSlash, pendingHeal := map[], map[], map[];
      views, commits := [], [];
      new;
      election.SyncDelegations(chain.state.delegations);
      assert Addresses(cfg.validators)[i] == self.address;
    }

    method ObserveMessage(m: Message)
      modifies this`seenVotes, this`evidence, this`slashed, this`pendingSlash, this`pendingHeal
      ensures Noticed() == Observe(old(Noticed()), healDelay, m)
    {
      if m.ProposalMsg? {
        return;
      }
      var v := m.vote;
      if v.voter in slashed {
        return;
      }
      var byHeight := if v.height in seenVotes then seenVotes[v.height] else map[];
      if v.voter !in byHeight {
        seenVotes := seenVotes[v.height := byHeight[v.voter := v]];
        return;
      }
      var previous := byHeight[v.voter];
      if previous.hash != v.hash {
        var e := Evidence(v.voter, v.height, previous, v);
        if VerifyEvidence(e) {
          evidence := evidence + [e];
          slashed := slashed + {v.voter};
          pendingSlash := pendingSlash[e.offender := e.height + SLASH_DELAY];
          if healDelay > 0 {
            pendingHeal := pendingHeal[e.offender := e.height + SLASH_DELAY + healDelay];
          }
        }
      }
    }

    method PrunePending(h: int)
      modifies this`pending
      ensures pending == PruneStash(old(pending), h)
    {
      var ms := pending;
      var stash := new Message[|ms|](i requires 0 <= i < |ms| => ms[i]);
      assert stash[..] == ms;
      var n := CompactLater(stash, h);
      pending := stash[..n];
    }

    method ForgetVotes(h: int)
      modifies this`seenVotes
      ensures Noticed() == Forget(old(Noticed()), h)
    {
      ghost var before := Noticed();
      var rest := seenVotes.Keys;
      while |rest| > 0
        invariant rest <= before.seenVotes.Keys
        invariant seenVotes == map hh | hh in before.seenVotes
                  && (hh > h - VOTE_MEMORY || hh in rest) :: before.seenVotes[hh]
        decreases rest
      {
        SomeHeight(rest);
        var hh: int :| hh in rest;
        if hh <= h - VOTE_MEMORY {
          seenVotes := seenVotes - {hh};
        }
        rest := rest - {hh};
      }
      assert Noticed() == Forget(before, h);
    }

    /** Slashes everyone due, whatever order the map yields them in. */
    method FireSlashes(h: int)
      requires election.Valid()
      modifies this`pendingSlash, this`byzantine, election.slashed
      ensures election.Valid() && election.View() == SlashAll(old(election.View()), Due(old(pendingSlash), h))
      ensures pendingSlash == old(pendingSlash) - Due(old(pendingSlash), h)
      ensures byzantine == (old(byzantine) && self.address !in Due(old(pendingSlash), h))
    {
      ghost var before := election.View();
      ghost var done: set<Address> := {};
      var rest := pendingSlash.Keys;
      NobodySlashed(before);
      while rest != {}
        invariant rest <= old(pendingSlash).Keys && done == Due(old(pendingSlash), h) - rest
        invariant election.Valid() && election.View() == SlashAll(before, done)
        invariant pendingSlash == old(pendingSlash) - done
        invariant byzantine == (old(byzantine) && self.address !in done)
        decreases rest
      {
        var addr :| addr in rest;
        rest := rest - {addr};
        if pendingSlash[addr] <= h {
          SlashOneMore(before, done, addr);
          election.SlashAddress(addr);
          if addr == self.address {
            byzantine := false;
          }
          pendingSlash := pendingSlash - {addr};
          done := done + {addr};
        }
      }
    }

    /** Heals everyone due, whatever order the map yields them in. */
    method FireHeals(h: int)
      requires election.Valid()
      requires forall i | 0 <= i < |election.addresses| && election.addresses[i] in Due(pendingHeal, h) ::
                 election.View().slashed[i]
      modifies this`pendingHeal, this`slashed, election.slashed, election.priorities
      ensures election.Valid() && election.View() == RestoreAll(old(election.View()), Due(old(pendingHeal), h))
      ensures pendingHeal == old(pendingHeal) - Due(old(pendingHeal), h)
      ensures slashed == old(slashed) - Due(old(pendingHeal), h)
    {
      ghost var before := election.View();
      ghost var done: set<Address> := {};
      var rest := pendingHeal.Keys;
      NobodyHealed(before);
      while rest != {}
        invariant rest <= old(pendingHeal).Keys && done == Due(old(pendingHeal), h) - rest
        invariant election.Valid() && election.View() == RestoreAll(before, done)
        invariant pendingHeal == old(pendingHeal) - done && slashed == old(slashed) - done
        decreases rest
      {
        var addr :| addr in rest;
        rest := rest - {addr};
        if pendingHeal[addr] <= h {
          RestoreOneMore(before, done, addr);
          election.RestoreAddress(addr);
          slashed := slashed - {addr};
          pendingHeal := pendingHeal - {addr};
          done := done + {addr};
        }
      }
    }

    /** This height's slashes, heals and re-read delegations. */
    method EnterHeight(h: int)
      requires Valid()
      modifies this`pendingSlash, this`pendingHeal, this`slashed, this`byzantine
      modifies election.delegated, election.slashed, election.priorities
      ensures election.Valid()
      ensures
        var d := old(Noticed());
        && election.View() == Enter(old(election.View()), Due(d.pendingSlash, h), Due(d.pendingHeal, h),
                                    chain.state.delegations)
        && Noticed() == Fire(d, h)
        && byzantine == (old(byzantine) && self.address !in Due(d.pendingSlash, h))
    {
      hide RestoreAll, SlashAll, Sync, HealsCovered;
      ghost var b := Books(Noticed(), election.View(), h - 1);
      CoveredAnyHeight(b, 0);
      HealedAreSlashed(b);
      FireSlashes(h);
      FireHeals(h);
      election.SyncDelegations(chain.state.delegations);
    }

    /** The first stashed or arriving message that fits. None when it would block,
        with everything that had arrived observed and stashed. */
    method WaitFor(wanted: Message -> bool, ghost h: int, ghost phase: Phase) returns (m: Option<Message>)
      requires Valid() && Waiting(At(h, phase))
      requires forall x :: wanted(x) == Wanted(At(h, phase), x)
      modifies this`pending, this`inbox
      modifies this`seenVotes, this`evidence, this`slashed, this`pendingSlash, this`pendingHeal
      ensures Valid() && (m.Some? ==> |pending| + 2 * |inbox| < |old(pending)| + 2 * |old(inbox)|)
      ensures FirstServed(old(pending), old(inbox), wanted, pending, inbox, m)
      ensures
        var all := Drive(old(At(h, phase)), healDelay, old(inbox));
        match m
        case None => all == (At(h, phase), inbox, {})
        case Some(x) =>
          && Wanted(At(h, phase), x)
          && var (n, out) := Accept(At(h, phase), x);
             var (end, unread, more) := Drive(n, healDelay, inbox);
             all == (end, unread, out + more)
    {
      hide Drive, Accept, Observe, Waiting, HealsCovered, ElectionView.Valid, FirstServed;
      ghost var n := At(h, phase);
      for i := 0 to |pending|
        invariant At(h, phase) == n
        invariant forall j | 0 <= j < i :: !Wanted(n, pending[j])
      {
        var x := pending[i];
        if wanted(x) {
          assert x in n.pending && InStash(n);
          TakesStashed(n, healDelay, inbox, i);
          ServedFromStash(pending, inbox, wanted, i);
          pending := pending[..i] + pending[i + 1..];
          return Some(x);
        }
      }
      assert !InStash(n);
      m := PullUntil(wanted, h, phase);
    }

    /** The second half of a wait: reads the inbox until something fits. */
    method PullUntil(wanted: Message -> bool, ghost h: int, ghost phase: Phase) returns (m: Option<Message>)
      requires Valid() && Waiting(At(h, phase)) && !InStash(At(h, phase))
      requires forall x :: wanted(x) == Wanted(At(h, phase), x)
      requires forall j | 0 <= j < |pending| :: !wanted(pending[j])
      modifies this`pending, this`inbox
      modifies this`seenVotes, this`evidence, this`slashed, this`pendingSlash, this`pendingHeal
      ensures Valid() && (m.Some? ==> |pending| + 2 * |inbox| < |old(pending)| + 2 * |old(inbox)|)
      ensures FirstServed(old(pending), old(inbox), wanted, pending, inbox, m)
      ensures
        var all := Drive(old(At(h, phase)), healDelay, old(inbox));
        match m
        case None => all == (At(h, phase), inbox, {})
        case Some(x) =>
          && Wanted(At(h, phase), x)
          && var (n, out) := Accept(At(h, phase), x);
             var (end, unread, more) := Drive(n, healDelay, inbox);
             all == (end, unread, out + more)
    {
      hide Drive, Accept, Observe, Waiting, HealsCovered, ElectionView.Valid, FirstServed, Pulled, InStash;
      ghost var n := At(h, phase);
      ghost var read := 0;
      NonePulled(pending, inbox, wanted);
      while inbox != []
        invariant Pulled(old(pending), old(inbox), wanted, pending, inbox, read)
        invariant Valid() && Waiting(At(h, phase)) && !InStash(At(h, phase))
        invariant forall x :: wanted(x) == Wanted(At(h, phase), x)
        invariant |pending| + 2 * |inbox| <= |old(pending)| + 2 * |old(inbox)|
        invariant Drive(n, healDelay, old(inbox)) == Drive(At(h, phase), healDelay, inbox)
        decreases |inbox|
      {
        ghost var q, before := At(h, phase), inbox;
        var x := inbox[0];
        inbox := inbox[1..];
        ObserveMessage(x);
        ReadsInbox(q, healDelay, before);
        CoveredObserve(Books(q.detector, q.election, 0), healDelay, x);
        if wanted(x) {
          ServedFromInbox(old(pending), old(inbox), wanted, pending, before, read);
          return Some(x);
        }
        OnePulled(old(pending), old(inbox), wanted, pending, before, read);
        pending := pending + [x];
        read := read + 1;
      }
      ServedFromInbox(old(pending), old(inbox), wanted, pending, inbox, read);
      DriveStops(At(h, phase), healDelay, inbox);
      m := None;
    }

    /** Counts votes until strictly more than two thirds of stake accepts; done is
        false when the inbox runs dry first. */
    method Tally(h: int, candidate: Block) returns (done: bool, ghost end: Phase)
      requires Valid()
      modifies this`pending, this`inbox
      modifies this`seenVotes, this`evidence, this`slashed, this`pendingSlash, this`pendingHeal
      ensures Valid() && end.Tallying? && end.candidate == candidate
      ensures Drive(old(At(h, Tallying(candidate, {}, 0))), healDelay, old(inbox)) == (At(h, end), inbox, {})
      ensures done <==> !Waiting(At(h, end))
    {
      hide Drive, StakeOf, Weights, Total, HealsCovered, ElectionView.Valid, VerifyVote, IndexOf, Accept, Uint64;
      ghost var start := At(h, Tallying(candidate, {}, 0));
      ghost var unread := inbox;
      var counted: set<Address> := {};
      var accepted := 0;
      var hash := candidate.Hash();
      var total := election.TotalStake();
      while Uint64(3 * accepted) <= Uint64(2 * total)
        invariant Valid() && election.View() == start.election
        invariant Drive(start, healDelay, unread)
               == Drive(At(h, Tallying(candidate, counted, accepted)), healDelay, inbox)
        decreases |pending| + 2 * |inbox|
      {
        end := Tallying(candidate, counted, accepted);
        var seen := counted;
        var m := WaitFor((x: Message) => x.VoteMsg? && x.vote.height == h && x.vote.hash == hash
                                         && x.vote.voter !in seen, h, end);
        if m.None? {
          return false, end;
        }
        var v := m.value.vote;
        var member := election.Contains(v.voter);
        AcceptsVote(At(h, end), m.value, healDelay, inbox);
        if !member || !VerifyVote(v) {
          continue;
        }
        counted := counted + {v.voter};
        var stake := election.StakeOfAddress(v.voter);
        accepted := Uint64(accepted + stake);
      }
      end := Tallying(candidate, counted, accepted);
      DriveStops(At(h, end), healDelay, inbox);
      done := true;
    }

    /** Builds, signs and returns this height's block from what the mempool gave. */
    method BuildProposal(h: int, now: int, drained: seq<Transaction>) returns (b: Block)
      requires chain.Blocks != []
      ensures b == Propose(chain.View().Tip().header, chain.state, h, self, now, drained)
    {
      var txs := new Transaction[|drained|](i requires 0 <= i < |drained| => drained[i]);
      assert txs[..] == drained;
      var n := FilterInPlace(chain.state, txs);
      var root := Merkle.MerkleRoot(txs[..n]);
      var tip := chain.Blocks[|chain.Blocks| - 1];
      var header := Header(root, tip.Hash(), now, h, map[], map[], self.address);
      b := Block(header, txs[..n], Sign(self.key, BlockPayload(HeaderHash(header))));
    }

    /** Enters a height and, if elected, broadcasts a proposal. False is the panic
        when nobody has stake. */
    method StartHeight(h: int, now: int, drained: seq<Transaction>) returns (ok: bool)
      requires Valid()
      modifies this`pendingSlash, this`pendingHeal, this`slashed, this`byzantine, this`sent, this`views
      modifies election.delegated, election.slashed, election.priorities
      ensures Valid()
      ensures
        var (n, out) := Begin(old(At(h, Ready)), now, drained);
        n == At(h, if ok then AwaitingProposal else Crashed) && sent == old(sent) + out
    {
      hide Enter, Elections.Next, Elected, Propose, HealsCovered, ElectionView.Valid, Fire;
      ghost var n := At(h, Ready);
      ghost var d := n.detector;
      ghost var offenders, healed := Due(d.pendingSlash, h), Due(d.pendingHeal, h);
      StaysCovered(n);
      OnlyMembersMatter(n.election, offenders, healed, chain.state.delegations);
      EnterHeight(h);
      var winner := election.Next();
      if winner.None? {
        return false;
      }
      ghost var proposal: Option<Block> := None;
      if winner.value == self.address {
        var b := BuildProposal(h, now, drained);
        sent := sent + {ProposalMsg(b)};
        proposal := Some(b);
      }
      ghost var members := Elements(n.election.addresses);
      views := views + [View(offenders * members, healed * members, n.chain.Tip().header, n.chain.state,
                             election.View(), winner.value, proposal)];
      ok := true;
    }

    /** Commits, prunes the chain, the stash and the remembered votes. */
    method CommitCandidate(h: int, candidate: Block, ghost phase: Phase)
      returns (outcome: Outcome, ghost end: Phase)
      requires Valid() && phase.Tallying? && phase.candidate == candidate
      modifies this`pending, this`seenVotes, this`commits, chain
      ensures Valid()
      ensures Finish(old(At(h, phase)), paced) == At(if outcome == Committed then h + 1 else h, end)
      ensures Ends(outcome, end) && outcome != Blocked
    {
      hide CheckCandidate, HealsCovered, ElectionView.Valid, Forget, PruneStash;
      ghost var b := Books(Noticed(), election.View(), h);
      CoveredAnyHeight(b, 0);
      CoveredForget(b);
      CoveredAnyHeight(b.(detector := Forget(b.detector, h)), 0);
      var err := chain.CommitBlock(candidate);
      if err.Some? {
        end := if err == Some(CannotApply(RewardPanic)) then Crashed else Halted;
        outcome := if err == Some(CannotApply(RewardPanic)) then Panicked else Stopped;
        return;
      }
      commits := commits + [Commitment(candidate, phase.counted, chain.state)];
      PrunePending(h);
      ForgetVotes(h);
      if paced && |chain.Blocks| >= 2 * BLOCK_RETENTION {
        chain.Blocks := chain.Blocks[|chain.Blocks| - BLOCK_RETENTION..];
      }
      return Committed, Ready;
    }

    /** Broadcasts this node's vote, and a second one if it is faulty. */
    method CastVote(h: int, hash: Digest)
      modifies this`sent
      ensures sent == old(sent) + ({VoteMsg(NewVote(h, hash, self))}
                                   + if byzantine then {VoteMsg(NewVote(h, EQUIVOCATION, self))} else {})
    {
      sent := sent + {VoteMsg(NewVote(h, hash, self))};
      if byzantine {
        sent := sent + {VoteMsg(NewVote(h, EQUIVOCATION, self))};
      }
    }

    /** Checks a proposal, votes for it, tallies, and on a quorum commits. */
    method Decide(h: int, candidate: Block) returns (outcome: Outcome, ghost end: Phase)
      requires Valid() && candidate.header.height == h
      modifies this, chain
      ensures Valid() && Ends(outcome, end)
      ensures
        var (n, votes) := Accept(old(At(h, AwaitingProposal)), ProposalMsg(candidate));
        var (r, unread, more) := Drive(n, healDelay, old(inbox));
        && Settled(r, paced) == At(if outcome == Committed then h + 1 else h, end)
        && inbox == unread && sent == old(sent) + (votes + more)
    {
      hide Drive, Finish, Accept, HealsCovered, ElectionView.Valid, NewVote, CheckCandidate, Waiting;
      AcceptsBlock(At(h, AwaitingProposal), ProposalMsg(candidate), healDelay, inbox);
      var checked := chain.Check(candidate);
      if checked.Failure? {
        end := if checked.error == CannotApply(RewardPanic) then Crashed else Halted;
        outcome := if checked.error == CannotApply(RewardPanic) then Panicked else Stopped;
        return;
      }
      CastVote(h, candidate.Hash());
      var done: bool;
      done, end := Tally(h, candidate);
      if done {
        outcome, end := CommitCandidate(h, candidate, end);
      } else {
        outcome := Blocked;
      }
    }

    /** Runs one height as far as the inbox carries it. */
    method RunHeight(h: int, now: int, drained: seq<Transaction>) returns (outcome: Outcome, ghost end: Phase)
      requires Valid()
      modifies this, chain, election.delegated, election.slashed, election.priorities
      ensures Valid() && Ends(outcome, end)
      ensures
        var (r, unread, out) := WholeHeight(old(At(h, Ready)), healDelay, paced, now, drained, old(inbox));
        && r == At(if outcome == Committed then h + 1 else h, end)
        && inbox == unread && sent == old(sent) + out
    {
      hide Begin, Drive, Finish, Accept, HealsCovered, ElectionView.Valid, QuorumReached;
      var started := StartHeight(h, now, drained);
      if !started {
        DriveStops(At(h, Crashed), healDelay, inbox);
        return Panicked, Crashed;
      }
      var m := WaitFor((x: Message) => x.ProposalMsg? && x.block.header.height == h, h, AwaitingProposal);
      if m == None {
        return Blocked, AwaitingProposal;
      }
      outcome, end := Decide(h, m.value.block);
    }
  }

  /** A wait takes the oldest stashed message that fits; failing that, the first that
      fits off the inbox, with all before it stashed behind what was there. */
  predicate FirstServed(pending: seq<Message>, inbox: seq<Message>, wanted: Message -> bool, kept: seq<Message>,
                        unread: seq<Message>, m: Option<Message>)
  {
    if exists k :: 0 <= k < |pending| && wanted(pending[k]) then
      unread == inbox
      && exists k :: && 0 <= k < |pending| && (forall j | 0 <= j < k :: !wanted(pending[j]))
                     && wanted(pending[k]) && m == Some(pending[k]) && kept == pending[..k] + pending[k + 1..]
    else
      exists k :: && 0 <= k <= |inbox| && (forall j | 0 <= j < k :: !wanted(inbox[j]))
                  && kept == pending + inbox[..k]
                  && if k == |inbox| then m == None && unread == []
                     else wanted(inbox[k]) && m == Some(inbox[k]) && unread == inbox[k + 1..]
  }

  lemma ServedFromStash(pending: seq<Message>, inbox: seq<Message>, wanted: Message -> bool, k: nat)
    requires k < |pending| && wanted(pending[k]) && forall j | 0 <= j < k :: !wanted(pending[j])
    ensures FirstServed(pending, inbox, wanted, pending[..k] + pending[k + 1..], inbox, Some(pending[k]))
  {
  }

  /** The first messages of the inbox have been read and stashed; none fitted. */
  ghost predicate Pulled(pending: seq<Message>, inbox: seq<Message>, wanted: Message -> bool, kept: seq<Message>,
                         unread: seq<Message>, read: nat) {
    && read <= |inbox| && unread == inbox[read..] && kept == pending + inbox[..read]
    && (forall j | 0 <= j < |pending| :: !wanted(pending[j]))
    && forall j | 0 <= j < read :: !wanted(inbox[j])
  }

  lemma NonePulled(pending: seq<Message>, inbox: seq<Message>, wanted: Message -> bool)
    requires forall j | 0 <= j < |pending| :: !wanted(pending[j])
    ensures Pulled(pending, inbox, wanted, pending, inbox, 0)
  {
  }

  lemma OnePulled(pending: seq<Message>, inbox: seq<Message>, wanted: Message -> bool, kept: seq<Message>,
                  unread: seq<Message>, read: nat)
    requires Pulled(pending, inbox, wanted, kept, unread, read) && unread != [] && !wanted(unread[0])
    ensures Pulled(pending, inbox, wanted, kept + [unread[0]], unread[1..], read + 1)
  {
    assert inbox[..read + 1] == inbox[..read] + [inbox[read]];
  }

  lemma ServedFromInbox(pending: seq<Message>, inbox: seq<Message>, wanted: Message -> bool, kept: seq<Message>,
                        unread: seq<Message>, read: nat)
    requires Pulled(pending, inbox, wanted, kept, unread, read)
    ensures unread != [] && wanted(unread[0]) ==>
              FirstServed(pending, inbox, wanted, kept, unread[1..], Some(unread[0]))
    ensures unread == [] ==> FirstServed(pending, inbox, wanted, kept, unread, None)
  {
  }

  /** The in-place filter: kept shares the stash's array and never overtakes the
      read position. Returns how many messages survive at its front. */
  method CompactLater(ms: array<Message>, h: int) returns (n: nat)
    modifies ms
    ensures n <= ms.Length && ms[..n] == PruneStash(old(ms[..]), h)
  {
    n := 0;
    ghost var all := ms[..];
    for i := 0 to ms.Length
      invariant n <= i && ms[..n] == PruneStash(all[..i], h)
      invariant ms[i..] == all[i..]
    {
      assert all[..i + 1][..i] == all[..i];
      assert ms[i] == ms[i..][0] == all[i];
      var m := ms[i];
      ghost var kept := ms[..n];
      if MsgHeight(m) > h {
        ms[n] := m;
        n := n + 1;
        assert ms[..n] == kept + [m];
      }
      assert ms[i + 1..] == all[i + 1..];
    }
    assert all[..ms.Length] == all;
  }

  /** The phase an outcome leaves the node in. */
  predicate Ends(outcome: Outcome, end: Phase) {
    match end
    case Ready => outcome == Committed
    case Halted => outcome == Stopped
    case Crashed => outcome == Panicked
    case _ => outcome == Blocked
  }

  lemma StaysCovered(n: Consensus.Node)
    requires n.election.Valid() && HealsCovered(Books(n.detector, n.election, 0))
    ensures
      var d, h := n.detector, n.height;
      var entered := Enter(n.election, Due(d.pendingSlash, h), Due(d.pendingHeal, h), n.chain.state.delegations);
      HealsCovered(Books(Fire(d, h), Elections.Next(entered), 0))
  {
    hide Enter, Elections.Next, HealsCovered, Fire;
    var b := Books(n.detector, n.election, n.height - 1);
    CoveredAnyHeight(b, 0);
    CoveredEnter(b, n.chain.state.delegations);
    CoveredAnyHeight(EnterBooks(b, n.height, n.chain.state.delegations), 0);
  }

  lemma CoveredAnyHeight(b: Books, h: int)
    requires b.election.Valid()
    ensures HealsCovered(b) <==> HealsCovered(b.(height := h))
  {
    hide IsSlashed;
    var c := b.(height := h);
    forall a | a in b.detector.pendingHeal ensures HealCovered(b, a) <==> HealCovered(c, a) {
    }
  }

  lemma HealedAreSlashed(b: Books)
    requires b.election.Valid() && HealsCovered(b)
    ensures
      var h := b.height + 1;
      forall i | 0 <= i < |b.election.addresses| && b.election.addresses[i] in Due(b.detector.pendingHeal, h) ::
        SlashAll(b.election, Due(b.detector.pendingSlash, h)).slashed[i]
  {
    var e, h := b.election, b.height + 1;
    forall i | 0 <= i < |e.addresses| && e.addresses[i] in Due(b.detector.pendingHeal, h)
      ensures SlashAll(e, Due(b.detector.pendingSlash, h)).slashed[i]
    {
      assert HealCovered(b, e.addresses[i]);
    }
  }

  /** A wait answered from the stash, at the first fitting position. */
  lemma TakesStashed(n: Consensus.Node, healDelay: int, inbox: seq<Message>, i: nat)
    requires Runnable(n) && Waiting(n) && InStash(n) && i < |n.pending| && Wanted(n, n.pending[i])
    requires forall j | 0 <= j < i :: !Wanted(n, n.pending[j])
    ensures
      var q := n.(pending := n.pending[..i] + n.pending[i + 1..]);
      && Wanted(q, n.pending[i])
      && var (r, out) := Accept(q, n.pending[i]);
         var (end, unread, more) := Drive(r, healDelay, inbox);
         Drive(n, healDelay, inbox) == (end, unread, out + more)
  {
    hide Drive, Accept, Waiting, Wanted;
    StashStep(n, healDelay, inbox);
    assert FirstWanted(n, n.pending) == i;
    WantsTheSame(n, n.(pending := n.pending[..i] + n.pending[i + 1..]));
  }

  /** A tallying node takes a vote without broadcasting anything. */
  lemma AcceptsVote(n: Consensus.Node, m: Message, healDelay: int, inbox: seq<Message>)
    requires Runnable(n) && n.phase.Tallying? && Wanted(n, m)
    ensures
      var (r, out) := Accept(n, m);
      var counted := n.phase.counted + {m.vote.voter};
      var accepted := Uint64(n.phase.accepted + StakeOf(n.election, m.vote.voter));
      && r == (if m.vote.voter !in n.election.addresses || !VerifyVote(m.vote) then n
               else n.(phase := Tallying(n.phase.candidate, counted, accepted)))
      && var (end, unread, more) := Drive(r, healDelay, inbox);
         (end, unread, out + more) == Drive(r, healDelay, inbox)
  {
    hide Drive, StakeOf, VerifyVote;
    var (r, out) := Accept(n, m);
    assert out + Drive(r, healDelay, inbox).2 == Drive(r, healDelay, inbox).2;
  }

  /** What a node does with the proposal it waited for. */
  lemma AcceptsBlock(n: Consensus.Node, m: Message, healDelay: int, inbox: seq<Message>)
    requires Runnable(n) && n.phase.AwaitingProposal? && Wanted(n, m)
    ensures
      var (r, out) := Accept(n, m);
      match CheckCandidate(n.chain, m.block)
      case Success(_) =>
        && r == n.(phase := Tallying(m.block, {}, 0))
        && out == {VoteMsg(NewVote(n.height, m.block.Hash(), n.self))}
                  + if n.byzantine then {VoteMsg(NewVote(n.height, EQUIVOCATION, n.self))} else {}
      case Failure(e) =>
        && r == n.(phase := if e == CannotApply(RewardPanic) then Crashed else Halted) && out == {}
        && Drive(r, healDelay, inbox) == (r, inbox, {})
  {
    hide Drive, CheckAgainst;
    var r := Accept(n, m).0;
    if !r.phase.Tallying? {
      DriveStops(r, healDelay, inbox);
    }
  }

  lemma WantsTheSame(n: Consensus.Node, q: Consensus.Node)
    requires n.phase == q.phase && n.height == q.height
    ensures forall m :: Wanted(n, m) == Wanted(q, m)
  {
  }

  /** A wait reading its inbox. */
  lemma ReadsInbox(n: Consensus.Node, healDelay: int, inbox: seq<Message>)
    requires Runnable(n) && Waiting(n) && !InStash(n) && inbox != []
    ensures
      var m := inbox[0];
      var seen := n.(detector := Observe(n.detector, healDelay, m));
      && Wanted(n, m) == Wanted(seen, m)
      && if Wanted(n, m) then
           var (r, out) := Accept(seen, m);
           var (end, unread, more) := Drive(r, healDelay, inbox[1..]);
           Drive(n, healDelay, inbox) == (end, unread, out + more)
         else
           var q := seen.(pending := n.pending + [m]);
           && Waiting(q) && !InStash(q) && (forall x :: Wanted(q, x) == Wanted(n, x))
           && Drive(n, healDelay, inbox) == Drive(q, healDelay, inbox[1..])
  {
    hide Drive, Accept, Observe, QuorumReached;
    InboxStep(n, healDelay, inbox);
    var (r, out) := Receive(n, healDelay, inbox[0]);
    assert !Wanted(n, inbox[0]) ==> out + Drive(r, healDelay, inbox[1..]).2 == Drive(r, healDelay, inbox[1..]).2;
  }

  lemma SomeHeight(s: set<int>)
    ensures (forall hh :: hh !in s) ==> |s| == 0
  {
    if forall hh :: hh !in s {
      assert s == {};
    }
  }

  lemma NobodySlashed(e: ElectionView)
    requires e.Valid()
    ensures SlashAll(e, {}) == e
  {
    assert SlashAll(e, {}).slashed == e.slashed;
  }

  lemma NobodyHealed(e: ElectionView)
    requires e.Valid()
    ensures RestoreAll(e, {}) == e
  {
    assert RestoreAll(e, {}).slashed == e.slashed && RestoreAll(e, {}).priorities == e.priorities;
  }
}
