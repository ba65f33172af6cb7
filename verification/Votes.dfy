/** Votes, bus messages, equivocation evidence, and the detector every node runs
    on what it pulls off its inbox. */
module Votes {
  import opened Types

  datatype Vote = Vote(height: int, hash: Digest, voter: Address, signature: Signature)

  function VoteSignable(height: int, hash: Digest): Payload {
    VotePayload(height, hash)
  }

  function NewVote(height: int, hash: Digest, v: Validator): Vote {
    Vote(height, hash, v.address, Sign(v.key, VoteSignable(height, hash)))
  }

  predicate VerifyVote(v: Vote) {
    VerifyFrom(v.voter, VoteSignable(v.height, v.hash), v.signature)
  }

  /** A vote verifies for exactly the height and hash it was signed over. */
  lemma NewVoteVerifies(height: int, hash: Digest, v: Validator, h: int, d: Digest)
    requires v.WellFormed()
    ensures VerifyVote(NewVote(height, hash, v).(height := h, hash := d)) <==> h == height && d == hash
  {
  }

  datatype Message = ProposalMsg(block: Block) | VoteMsg(vote: Vote)

  function MsgHeight(m: Message): int {
    match m
    case ProposalMsg(b) => b.header.height
    case VoteMsg(v) => v.height
  }

  datatype Evidence = Evidence(offender: Address, height: int, voteA: Vote, voteB: Vote)

  predicate VerifyEvidence(e: Evidence) {
    && e.voteA.voter == e.offender && e.voteB.voter == e.offender
    && e.voteA.height == e.height && e.voteB.height == e.height
    && e.voteA.hash != e.voteB.hash
    && VerifyVote(e.voteA) && VerifyVote(e.voteB)
  }

  // ----- the detector -----

  const SLASH_DELAY := 2
  const VOTE_MEMORY := 2

  datatype Detector = Detector(seenVotes: map<int, map<Address, Vote>>, evidence: seq<Evidence>,
                               slashed: set<Address>, pendingSlash: map<Address, int>, pendingHeal: map<Address, int>)

  const FreshDetector := Detector(map[], [], {}, map[], map[])

  function SeenAt(d: Detector, height: int): map<Address, Vote> {
    if height in d.seenVotes then d.seenVotes[height] else map[]
  }

  /** First votes are remembered; a second, conflicting and verified, convicts.
      Votes of someone already convicted are ignored. */
  function Observe(d: Detector, healDelay: int, m: Message): Detector {
    match m
    case ProposalMsg(_) => d
    case VoteMsg(v) =>
      if v.voter in d.slashed then d
      else
        var seen := SeenAt(d, v.height);
        if v.voter !in seen then d.(seenVotes := d.seenVotes[v.height := seen[v.voter := v]])
        else
          var e := Evidence(v.voter, v.height, seen[v.voter], v);
          if seen[v.voter].hash == v.hash || !VerifyEvidence(e) then d else Convict(d, healDelay, e)
  }

  function Convict(d: Detector, healDelay: int, e: Evidence): Detector {
    d.(evidence := d.evidence + [e],
       slashed := d.slashed + {e.offender},
       pendingSlash := d.pendingSlash[e.offender := e.height + SLASH_DELAY],
       pendingHeal := if healDelay > 0 then d.pendingHeal[e.offender := e.height + SLASH_DELAY + healDelay]
                      else d.pendingHeal)
  }

  function ObserveAll(d: Detector, healDelay: int, ms: seq<Message>): Detector {
    if ms == [] then d else Observe(ObserveAll(d, healDelay, ms[..|ms| - 1]), healDelay, ms[|ms| - 1])
  }

  /** Everyone whose scheduled height has arrived. */
  function Due(pending: map<Address, int>, h: int): set<Address> {
    set a | a in pending && pending[a] <= h
  }

  /** The detector after this height's slashes and heals have fired. */
  function Fire(d: Detector, h: int): Detector {
    var healed := Due(d.pendingHeal, h);
    d.(pendingSlash := d.pendingSlash - Due(d.pendingSlash, h), pendingHeal := d.pendingHeal - healed,
       slashed := d.slashed - healed)
  }

  /** Forgets first votes of heights at or below h - 2. */
  function Forget(d: Detector, h: int): Detector {
    d.(seenVotes := map hh | hh in d.seenVotes && hh > h - VOTE_MEMORY :: d.seenVotes[hh])
  }

  /** Drops stashed messages for heights already decided, keeping order. */
  function PruneStash(pending: seq<Message>, h: int): seq<Message> {
    if pending == [] then [] else
      var kept := PruneStash(pending[..|pending| - 1], h);
      var m := pending[|pending| - 1];
      if MsgHeight(m) > h then kept + [m] else kept
  }

  lemma {:induction false} PruneKeepsLater(pending: seq<Message>, h: int)
    ensures forall m :: m in PruneStash(pending, h) <==> m in pending && MsgHeight(m) > h
    ensures multiset(PruneStash(pending, h)) <= multiset(pending)
    ensures forall m | MsgHeight(m) > h :: multiset(PruneStash(pending, h))[m] == multiset(pending)[m]
  {
    if pending != [] {
      PruneKeepsLater(pending[..|pending| - 1], h);
      assert pending == pending[..|pending| - 1] + [pending[|pending| - 1]];
    }
  }
}
