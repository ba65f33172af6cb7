/** Exactly which votes convict: what a detector remembers, and of whom. */
module Detection {
  import opened Types
  import opened Elections
  import opened Votes
  import opened Schedule

  /** First votes are filed under their own height and voter. */
  ghost predicate Filed(d: Detector) {
    forall h, a | h in d.seenVotes && a in d.seenVotes[h] ::
      d.seenVotes[h][a].height == h && d.seenVotes[h][a].voter == a
  }

  /** The vote remembered for its voter at its height names another hash; both
      verify, and the voter stands convicted of nothing. */
  predicate Convicts(d: Detector, v: Vote) {
    && v.voter !in d.slashed && v.voter in SeenAt(d, v.height)
    && SeenAt(d, v.height)[v.voter].hash != v.hash
    && VerifyVote(SeenAt(d, v.height)[v.voter]) && VerifyVote(v)
  }

  /** A vote adds evidence exactly then, and it is one piece: the remembered vote beside
      this one. */
  lemma ObserveConvicts(d: Detector, healDelay: int, m: Message)
    requires Filed(d)
    ensures Observe(d, healDelay, m).evidence != d.evidence <==> m.VoteMsg? && Convicts(d, m.vote)
    ensures m.VoteMsg? && Convicts(d, m.vote) ==>
              Observe(d, healDelay, m).evidence
              == d.evidence + [Evidence(m.vote.voter, m.vote.height, SeenAt(d, m.vote.height)[m.vote.voter], m.vote)]
  {
    hide VerifyVote;
    if m.VoteMsg? && m.vote.voter in SeenAt(d, m.vote.height) {
      var e := Evidence(m.vote.voter, m.vote.height, SeenAt(d, m.vote.height)[m.vote.voter], m.vote);
      assert d.evidence + [e] != d.evidence;
    }
  }

  lemma ObserveFiled(d: Detector, healDelay: int, m: Message)
    requires Filed(d)
    ensures Filed(Observe(d, healDelay, m))
  {
    hide VerifyEvidence;
  }

  lemma {:induction false} AlwaysFiled(b: Books, healDelay: int, ops: seq<Op>)
    requires b.election.Valid() && Filed(b.detector)
    ensures Filed(Run(b, healDelay, ops).detector)
  {
    hide Observe, Enter, Next;
    if ops != [] {
      var init := ops[..|ops| - 1];
      AlwaysFiled(b, healDelay, init);
      if ops[|ops| - 1].See? {
        ObserveFiled(Run(b, healDelay, init).detector, healDelay, ops[|ops| - 1].m);
      }
    }
  }

  // ----- what is remembered -----

  /** The t-th operation read a vote of a for height h, while a stood convicted of
      nothing. */
  ghost predicate Heard(b: Books, healDelay: int, ops: seq<Op>, t: nat, h: int, a: Address)
    requires b.election.Valid() && t < |ops|
  {
    && ops[t].See? && ops[t].m.VoteMsg? && ops[t].m.vote.height == h && ops[t].m.vote.voter == a
    && a !in Run(b, healDelay, ops[..t]).detector.slashed
  }

  /** The w-th operation forgot the votes of height h. */
  ghost predicate Forgets(b: Books, healDelay: int, ops: seq<Op>, w: nat, h: int)
    requires b.election.Valid() && w < |ops|
  {
    ops[w].ForgetVotes? && h <= Run(b, healDelay, ops[..w]).height - VOTE_MEMORY
  }

  ghost predicate Forgotten(b: Books, healDelay: int, ops: seq<Op>, t: nat, h: int)
    requires b.election.Valid() && t < |ops|
  {
    exists w: nat :: t < w < |ops| && Forgets(b, healDelay, ops, w, h)
  }

  /** Of all votes of a for height h heard and not forgotten since, the first. */
  ghost predicate FirstHeard(b: Books, healDelay: int, ops: seq<Op>, t: nat, h: int, a: Address)
    requires b.election.Valid() && t < |ops|
  {
    && Heard(b, healDelay, ops, t, h, a) && !Forgotten(b, healDelay, ops, t, h)
    && forall q: nat | q < t && Heard(b, healDelay, ops, q, h, a) :: Forgotten(b, healDelay, ops, q, h)
  }

  lemma Earlier(b: Books, healDelay: int, ops: seq<Op>, t: nat, h: int, a: Address)
    requires b.election.Valid() && t < |ops| - 1
    ensures
      var init := ops[..|ops| - 1];
      && (Heard(b, healDelay, ops, t, h, a) <==> Heard(b, healDelay, init, t, h, a))
      && (Forgotten(b, healDelay, ops, t, h)
          <==> Forgotten(b, healDelay, init, t, h) || Forgets(b, healDelay, ops, |ops| - 1, h))
  {
    hide Run;
    var init := ops[..|ops| - 1];
    assert init[..t] == ops[..t];
    forall w: nat | t < w < |init| ensures Forgets(b, healDelay, ops, w, h) <==> Forgets(b, healDelay, init, w, h) {
      assert init[..w] == ops[..w];
    }
  }

  /** What the detector remembers for a at height h is exactly that first vote. */
  ghost predicate Remembers(b: Books, healDelay: int, ops: seq<Op>, h: int, a: Address)
    requires b.election.Valid()
  {
    var seen := SeenAt(Run(b, healDelay, ops).detector, h);
    if a in seen then
      exists t: nat :: t < |ops| && FirstHeard(b, healDelay, ops, t, h, a) && ops[t] == See(VoteMsg(seen[a]))
    else forall t: nat | t < |ops| && Heard(b, healDelay, ops, t, h, a) :: Forgotten(b, healDelay, ops, t, h)
  }

  lemma {:induction false} RemembersFirst(b: Books, healDelay: int, ops: seq<Op>, h: int, a: Address)
    requires b.election.Valid() && b.detector == FreshDetector
    ensures Remembers(b, healDelay, ops, h, a)
  {
    if ops != [] {
      RemembersFirst(b, healDelay, ops[..|ops| - 1], h, a);
      RemembersStep(b, healDelay, ops, h, a);
    }
  }

  /** What one operation does to the vote remembered for a at height h. */
  lemma SeenStep(b: Books, healDelay: int, op: Op, h: int, a: Address)
    requires b.election.Valid()
    ensures
      var seen, now := SeenAt(b.detector, h), SeenAt(Perform(b, healDelay, op).detector, h);
      match op
      case EnterNext(_) => now == seen
      case ForgetVotes => now == if h > b.height - VOTE_MEMORY then seen else map[]
      case See(m) =>
        if m.VoteMsg? && m.vote.height == h && m.vote.voter == a && a !in b.detector.slashed && a !in seen
        then a in now && now[a] == m.vote
        else (a in now <==> a in seen) && (a in seen ==> now[a] == seen[a])
  {
    hide VerifyEvidence, Enter, Next;
  }

  lemma RemembersStep(b: Books, healDelay: int, ops: seq<Op>, h: int, a: Address)
    requires b.election.Valid() && ops != [] && Remembers(b, healDelay, ops[..|ops| - 1], h, a)
    ensures Remembers(b, healDelay, ops, h, a)
  {
    hide Perform, SeenAt, Heard, Forgets, Forgotten;
    var last, init, op := |ops| - 1, ops[..|ops| - 1], ops[|ops| - 1];
    var r := Run(b, healDelay, init);
    SeenStep(r, healDelay, op, h, a);
    forall t: nat | t < last
      ensures Heard(b, healDelay, ops, t, h, a) <==> Heard(b, healDelay, init, t, h, a)
      ensures Forgotten(b, healDelay, ops, t, h)
         <==> Forgotten(b, healDelay, init, t, h) || Forgets(b, healDelay, ops, last, h)
    {
      Earlier(b, healDelay, ops, t, h, a);
    }
    LastOne(b, healDelay, ops, h, a);
    var seen, now := SeenAt(r.detector, h), SeenAt(Run(b, healDelay, ops).detector, h);
    if a in now {
      if a in seen {
        var t: nat :| t < |init| && FirstHeard(b, healDelay, init, t, h, a) && init[t] == See(VoteMsg(seen[a]));
        assert FirstHeard(b, healDelay, ops, t, h, a) && ops[t] == See(VoteMsg(now[a]));
      } else {
        assert FirstHeard(b, healDelay, ops, last, h, a) && ops[last] == See(VoteMsg(now[a]));
      }
    }
  }

  lemma LastOne(b: Books, healDelay: int, ops: seq<Op>, h: int, a: Address)
    requires b.election.Valid() && ops != []
    ensures
      var last := |ops| - 1;
      var op, r := ops[last], Run(b, healDelay, ops[..last]);
      && (Heard(b, healDelay, ops, last, h, a)
          <==> op.See? && op.m.VoteMsg? && op.m.vote.height == h && op.m.vote.voter == a && a !in r.detector.slashed)
      && (Forgets(b, healDelay, ops, last, h) <==> op.ForgetVotes? && h <= r.height - VOTE_MEMORY)
      && !Forgotten(b, healDelay, ops, last, h)
  {
    hide Run;
  }

  /** A vote convicts its voter exactly when the voter stands convicted of nothing,
      the vote verifies, and the first vote heard in its name at that height and
      not forgotten since verifies too and names another hash. */
  lemma ConvictedExactly(b: Books, healDelay: int, ops: seq<Op>, v: Vote)
    requires b.election.Valid() && b.detector == FreshDetector
    ensures
      var d := Run(b, healDelay, ops).detector;
      Observe(d, healDelay, VoteMsg(v)).evidence != d.evidence <==>
        && v.voter !in d.slashed && VerifyVote(v)
        && exists t: nat :: t < |ops| && FirstHeard(b, healDelay, ops, t, v.height, v.voter)
                            && VerifyVote(ops[t].m.vote) && ops[t].m.vote.hash != v.hash
  {
    hide Run, Observe, VerifyVote, SeenAt, FirstHeard;
    var d := Run(b, healDelay, ops).detector;
    FreshFiled();
    AlwaysFiled(b, healDelay, ops);
    ObserveConvicts(d, healDelay, VoteMsg(v));
    RemembersFirst(b, healDelay, ops, v.height, v.voter);
    forall t: nat, u: nat | t < |ops| && u < |ops| && FirstHeard(b, healDelay, ops, t, v.height, v.voter)
                            && FirstHeard(b, healDelay, ops, u, v.height, v.voter)
      ensures t == u
    {
      OneFirst(b, healDelay, ops, t, u, v.height, v.voter);
    }
    forall t: nat | t < |ops| && FirstHeard(b, healDelay, ops, t, v.height, v.voter)
      ensures Heard(b, healDelay, ops, t, v.height, v.voter) && !Forgotten(b, healDelay, ops, t, v.height)
    {
      OneFirst(b, healDelay, ops, t, t, v.height, v.voter);
    }
  }

  lemma FreshFiled()
    ensures Filed(FreshDetector)
  {
  }

  lemma OneFirst(b: Books, healDelay: int, ops: seq<Op>, t: nat, u: nat, h: int, a: Address)
    requires b.election.Valid() && t < |ops| && u < |ops|
    requires FirstHeard(b, healDelay, ops, t, h, a) && FirstHeard(b, healDelay, ops, u, h, a)
    ensures t == u && Heard(b, healDelay, ops, t, h, a) && !Forgotten(b, healDelay, ops, t, h)
  {
    hide Heard, Forgotten;
  }

  /** So a vote in v's name that does not verify, read first, shadows all v signs at
      that height: two genuine conflicting votes after it convict nobody. */
  lemma ForgeryShadows(v: Validator, forged: Vote, a: Digest, b: Digest, healDelay: int)
    requires v.WellFormed() && forged.voter == v.address && !VerifyVote(forged) && a != b
    ensures
      var first, second := NewVote(forged.height, a, v), NewVote(forged.height, b, v);
      var d := ObserveAll(FreshDetector, healDelay, [VoteMsg(forged), VoteMsg(first), VoteMsg(second)]);
      && VerifyVote(first) && VerifyVote(second) && first.hash != second.hash
      && d.evidence == [] && d.slashed == {} && d.pendingSlash == map[]
  {
    hide VerifyVote;
    var first, second := NewVote(forged.height, a, v), NewVote(forged.height, b, v);
    NewVoteVerifies(forged.height, a, v, forged.height, a);
    NewVoteVerifies(forged.height, b, v, forged.height, b);
    var d := FreshDetector.(seenVotes := map[forged.height := map[v.address := forged]]);
    assert Observe(FreshDetector, healDelay, VoteMsg(forged)) == d;
    assert Observe(d, healDelay, VoteMsg(first)) == d && Observe(d, healDelay, VoteMsg(second)) == d;
    var ms := [VoteMsg(forged), VoteMsg(first), VoteMsg(second)];
    assert ms[..2] == [VoteMsg(forged), VoteMsg(first)] && ms[..2][..1] == [VoteMsg(forged)] && ms[..1][..0] == [];
    assert ObserveAll(FreshDetector, healDelay, ms[..1]) == d;
    assert ObserveAll(FreshDetector, healDelay, ms[..2]) == d;
  }

  /** First votes of a height are remembered until the height two above is finished. */
  lemma MemoryLasts(d: Detector, finished: int, h: int)
    ensures SeenAt(Forget(d, finished), h) == if finished < h + 2 then SeenAt(d, h) else map[]
  {
  }
}
