/** A node's wait loops, run on everything its inbox will deliver: what they
    take, what they keep, and when they cannot block. */
module NodeLoop {
  import opened Words
  import opened Sums
  import opened Types
  import opened Chains
  import opened Proposals
  import opened Elections
  import opened Votes
  import opened Consensus

  /** Stash first, inbox otherwise, until the node waits no more or nothing is
      left to read. Returns the node, the unread inbox, and what it broadcast. */
  ghost function Drive(n: Node, healDelay: int, inbox: seq<Message>): (r: (Node, seq<Message>, set<Message>))
    requires Runnable(n)
    ensures Runnable(r.0) && (Waiting(r.0) ==> r.1 == [] && !InStash(r.0))
    decreases |n.pending| + 2 * |inbox|
  {
    if !Waiting(n) then (n, inbox, {})
    else if InStash(n) then
      var step := Unstash(n);
      var rest := Drive(step.0, healDelay, inbox);
      (rest.0, rest.1, step.1 + rest.2)
    else if inbox == [] then (n, [], {})
    else
      var step := Receive(n, healDelay, inbox[0]);
      var rest := Drive(step.0, healDelay, inbox[1..]);
      (rest.0, rest.1, step.1 + rest.2)
  }

  /** The stashed message a wait returns. */
  ghost function Ripe(n: Node): (m: Message)
    requires InStash(n)
    ensures m in n.pending && Wanted(n, m)
  {
    n.pending[FirstWanted(n, n.pending)]
  }

  /** The messages the waits returned, in order. */
  ghost function Taken(n: Node, healDelay: int, inbox: seq<Message>): seq<Message>
    requires Runnable(n)
    decreases |n.pending| + 2 * |inbox|
  {
    if !Waiting(n) then []
    else if InStash(n) then [Ripe(n)] + Taken(Unstash(n).0, healDelay, inbox)
    else if inbox == [] then []
    else (if Wanted(n, inbox[0]) then [inbox[0]] else [])
         + Taken(Receive(n, healDelay, inbox[0]).0, healDelay, inbox[1..])
  }

  lemma StashStep(n: Node, healDelay: int, inbox: seq<Message>)
    requires Runnable(n) && Waiting(n) && InStash(n)
    ensures Runnable(Unstash(n).0) && |Unstash(n).0.pending| == |n.pending| - 1
    ensures
      var (r, unread, sent) := Drive(Unstash(n).0, healDelay, inbox);
      Drive(n, healDelay, inbox) == (r, unread, Unstash(n).1 + sent)
    ensures Taken(n, healDelay, inbox)
         == [Ripe(n)] + Taken(Unstash(n).0, healDelay, inbox)
  {
    hide Unstash, Waiting, InStash, Receive, Runnable;
    UnstashShrinks(n);
  }

  lemma InboxStep(n: Node, healDelay: int, inbox: seq<Message>)
    requires Runnable(n) && Waiting(n) && !InStash(n) && inbox != []
    ensures
      var r := Receive(n, healDelay, inbox[0]).0;
      Runnable(r) && r.pending == if Wanted(n, inbox[0]) then n.pending else n.pending + [inbox[0]]
    ensures
      var (r, sent) := Receive(n, healDelay, inbox[0]);
      var (end, unread, more) := Drive(r, healDelay, inbox[1..]);
      && Drive(n, healDelay, inbox) == (end, unread, sent + more)
      && Taken(n, healDelay, inbox)
         == (if Wanted(n, inbox[0]) then [inbox[0]] else []) + Taken(r, healDelay, inbox[1..])
  {
    hide Unstash, Waiting, InStash, Receive, Wanted, Runnable;
    ReceiveGrows(n, healDelay, inbox[0]);
  }

  lemma DriveStops(n: Node, healDelay: int, inbox: seq<Message>)
    requires Runnable(n) && (!Waiting(n) || (!InStash(n) && inbox == []))
    ensures Drive(n, healDelay, inbox) == (n, inbox, {}) && Taken(n, healDelay, inbox) == []
  {
    hide Unstash, Waiting, InStash, Receive, Wanted, Runnable;
  }

  /** Blocking and being woken by more messages changes nothing. */
  lemma {:induction false} DriveResumes(n: Node, healDelay: int, inbox: seq<Message>, later: seq<Message>)
    requires Runnable(n)
    ensures
      var (first, unread, sent) := Drive(n, healDelay, inbox);
      var (end, left, more) := Drive(first, healDelay, unread + later);
      Drive(n, healDelay, inbox + later) == (end, left, sent + more)
    decreases |n.pending| + 2 * |inbox|
  {
    hide Drive, Unstash, Receive, Waiting, InStash, Wanted, Runnable;
    if Waiting(n) && InStash(n) {
      StashStep(n, healDelay, inbox);
      StashStep(n, healDelay, inbox + later);
      DriveResumes(Unstash(n).0, healDelay, inbox, later);
      var (first, unread, sent) := Drive(Unstash(n).0, healDelay, inbox);
      var more := Drive(first, healDelay, unread + later).2;
      assert Unstash(n).1 + (sent + more) == (Unstash(n).1 + sent) + more;
    } else if Waiting(n) && inbox != [] {
      assert (inbox + later)[1..] == inbox[1..] + later;
      InboxStep(n, healDelay, inbox);
      InboxStep(n, healDelay, inbox + later);
      var (r, out) := Receive(n, healDelay, inbox[0]);
      DriveResumes(r, healDelay, inbox[1..], later);
      var (first, unread, sent) := Drive(r, healDelay, inbox[1..]);
      var more := Drive(first, healDelay, unread + later).2;
      assert out + (sent + more) == (out + sent) + more;
    } else {
      DriveStops(n, healDelay, inbox);
      assert {} + Drive(n, healDelay, inbox + later).2 == Drive(n, healDelay, inbox + later).2;
    }
  }

  lemma UnstashShrinks(n: Node)
    requires Runnable(n) && InStash(n)
    ensures Runnable(Unstash(n).0) && |Unstash(n).0.pending| == |n.pending| - 1
  {
    hide CheckCandidate, StakeOf, VerifyVote;
  }

  lemma ReceiveGrows(n: Node, healDelay: int, m: Message)
    requires Runnable(n)
    ensures
      var r := Receive(n, healDelay, m).0;
      Runnable(r) && r.pending == if Wanted(n, m) then n.pending else n.pending + [m]
  {
    hide CheckCandidate, StakeOf, VerifyVote, Observe;
  }

  // ----- nothing is lost -----

  /** Taking m from ms leaves rs, in some order. */
  ghost predicate OneFewer(ms: seq<Message>, rs: seq<Message>, m: Message) {
    multiset(ms) == multiset(rs) + multiset{m}
  }

  lemma FewerStashed(p: seq<Message>, q: seq<Message>, m: Message, inbox: seq<Message>)
    requires OneFewer(p, q, m)
    ensures OneFewer(p + inbox, q + inbox, m)
  {
  }

  lemma FewerUnread(p: seq<Message>, inbox: seq<Message>)
    requires inbox != []
    ensures OneFewer(p + inbox, p + inbox[1..], inbox[0])
  {
    assert inbox == [inbox[0]] + inbox[1..];
  }

  lemma UnstashTakes(n: Node)
    requires Runnable(n) && InStash(n)
    ensures OneFewer(n.pending, Unstash(n).0.pending, Ripe(n))
  {
    hide Unstash, Wanted, Runnable, FirstWanted;
    var k := FirstWanted(n, n.pending);
    TakeOne(n.pending, k);
    PendingAfter(n);
  }

  lemma TakeOne(ms: seq<Message>, k: nat)
    requires k < |ms|
    ensures multiset(ms) == multiset(ms[..k] + ms[k + 1..]) + multiset{ms[k]}
  {
    assert ms == ms[..k] + [ms[k]] + ms[k + 1..];
  }

  lemma PendingAfter(n: Node)
    requires Runnable(n) && InStash(n)
    ensures
      var k := FirstWanted(n, n.pending);
      Unstash(n).0.pending == n.pending[..k] + n.pending[k + 1..]
  {
    hide CheckCandidate, StakeOf, VerifyVote, Wanted;
  }

  /** These two inboxes and stashes hold the same messages but for those taken. */
  ghost predicate Conserved(pending: seq<Message>, inbox: seq<Message>, kept: seq<Message>, unread: seq<Message>,
                            taken: seq<Message>) {
    multiset(pending) + multiset(inbox) == multiset(kept) + multiset(unread) + multiset(taken)
  }

  /** Every message is still stashed, still unread, or was taken, and none twice. */
  lemma {:induction false} NothingLost(n: Node, healDelay: int, inbox: seq<Message>)
    requires Runnable(n)
    ensures
      var (r, unread, _) := Drive(n, healDelay, inbox);
      Conserved(n.pending, inbox, r.pending, unread, Taken(n, healDelay, inbox))
    decreases |n.pending| + 2 * |inbox|
  {
    hide Drive, Taken, Unstash, Receive, Waiting, Wanted, InStash, Runnable, Conserved, OneFewer;
    if Waiting(n) && InStash(n) {
      var u := Unstash(n).0;
      StashStep(n, healDelay, inbox);
      UnstashTakes(n);
      NothingLost(u, healDelay, inbox);
      var (r, unread, _) := Drive(u, healDelay, inbox);
      FewerStashed(n.pending, u.pending, Ripe(n), inbox);
      ConservedTake(n.pending, inbox, u.pending, inbox, r.pending, unread, Ripe(n), Taken(u, healDelay, inbox));
    } else if Waiting(n) && inbox != [] {
      var m, q := inbox[0], Receive(n, healDelay, inbox[0]).0;
      InboxStep(n, healDelay, inbox);
      NothingLost(q, healDelay, inbox[1..]);
      var (r, unread, _) := Drive(q, healDelay, inbox[1..]);
      var taken := Taken(q, healDelay, inbox[1..]);
      if Wanted(n, m) {
        FewerUnread(n.pending, inbox);
        ConservedTake(n.pending, inbox, n.pending, inbox[1..], r.pending, unread, m, taken);
      } else {
        assert [] + taken == taken;
        ConservedMove(n.pending, inbox, r.pending, unread, taken);
      }
    } else {
      DriveStops(n, healDelay, inbox);
      ConservedNone(n.pending, inbox);
    }
  }

  lemma ConservedNone(p: seq<Message>, i: seq<Message>)
    ensures Conserved(p, i, p, i, [])
  {
  }

  lemma ConservedTake(p: seq<Message>, i: seq<Message>, q: seq<Message>, j: seq<Message>, kept: seq<Message>,
                      unread: seq<Message>, m: Message, rest: seq<Message>)
    requires OneFewer(p + i, q + j, m) && Conserved(q, j, kept, unread, rest)
    ensures Conserved(p, i, kept, unread, [m] + rest)
  {
    TakenFirst(m, rest);
  }

  lemma ConservedMove(p: seq<Message>, i: seq<Message>, kept: seq<Message>, unread: seq<Message>, taken: seq<Message>)
    requires i != [] && Conserved(p + [i[0]], i[1..], kept, unread, taken)
    ensures Conserved(p, i, kept, unread, taken)
  {
    TakenFirst(i[0], i[1..]);
    assert i == [i[0]] + i[1..];
  }

  lemma TakenFirst(m: Message, rest: seq<Message>)
    ensures multiset([m] + rest) == multiset{m} + multiset(rest)
  {
  }

  /** A vote the tally passes over: from no member, or not signed by its voter. */
  predicate Rejected(members: seq<Address>, m: Message) {
    m.VoteMsg? && (m.vote.voter !in members || !VerifyVote(m.vote))
  }

  function Counting(members: seq<Address>, taken: seq<Message>): seq<Message> {
    if taken == [] then []
    else (if taken[0].VoteMsg? && !Rejected(members, taken[0]) then [taken[0]] else []) + Counting(members, taken[1..])
  }

  function Voters(ms: seq<Message>): set<Address> {
    set m | m in ms && m.VoteMsg? :: m.vote.voter
  }

  /** From n to r the tally took these messages: matching votes only, and those
      it does not reject come from as many distinct new voters and are exactly
      the growth of `counted`. */
  ghost predicate Accounted(n: Node, r: Node, taken: seq<Message>)
    requires n.phase.Tallying?
  {
    var used := Counting(n.election.addresses, taken);
    && r.phase.Tallying? && r.phase.candidate == n.phase.candidate && r.election == n.election && r.height == n.height
    && (forall m | m in taken :: m.VoteMsg? && m.vote.height == n.height && m.vote.hash == n.phase.candidate.Hash())
    && n.phase.counted !! Voters(used) && r.phase.counted == n.phase.counted + Voters(used)
    && |Voters(used)| == |used|
  }

  lemma {:induction false} TakenAreCounted(n: Node, healDelay: int, inbox: seq<Message>)
    requires Runnable(n) && n.phase.Tallying?
    ensures Accounted(n, Drive(n, healDelay, inbox).0, Taken(n, healDelay, inbox))
    decreases |n.pending| + 2 * |inbox|
  {
    hide Drive, Taken, Unstash, Receive, Waiting, InStash, Wanted, Runnable, CountedOne, Accounted;
    if Waiting(n) && InStash(n) {
      var r := Unstash(n).0;
      StashStep(n, healDelay, inbox);
      UnstashCounts(n);
      StillTallying(n, r, Ripe(n));
      TakenAreCounted(r, healDelay, inbox);
      AccountedMore(n, r, Drive(r, healDelay, inbox).0, Ripe(n), Taken(r, healDelay, inbox));
    } else if Waiting(n) && inbox != [] {
      var m, r := inbox[0], Receive(n, healDelay, inbox[0]).0;
      InboxStep(n, healDelay, inbox);
      ReceiveCounts(n, healDelay, m);
      if Wanted(n, m) {
        StillTallying(n, r, m);
        TakenAreCounted(r, healDelay, inbox[1..]);
        AccountedMore(n, r, Drive(r, healDelay, inbox[1..]).0, m, Taken(r, healDelay, inbox[1..]));
      } else {
        TakenAreCounted(r, healDelay, inbox[1..]);
        assert [] + Taken(r, healDelay, inbox[1..]) == Taken(r, healDelay, inbox[1..]);
        AccountedSame(n, r, Drive(r, healDelay, inbox[1..]).0, Taken(r, healDelay, inbox[1..]));
      }
    } else {
      DriveStops(n, healDelay, inbox);
      AccountedNone(n);
    }
  }

  lemma StillTallying(n: Node, r: Node, m: Message)
    requires Runnable(n) && n.phase.Tallying? && Wanted(n, m) && CountedOne(n, r, m)
    ensures r.phase.Tallying?
  {
  }

  lemma AccountedNone(n: Node)
    requires n.phase.Tallying?
    ensures Accounted(n, n, [])
  {
    NoneUsed(n.election.addresses);
  }

  lemma AccountedSame(n: Node, q: Node, r: Node, taken: seq<Message>)
    requires n.phase == q.phase && n.election == q.election && n.height == q.height && n.phase.Tallying?
    requires Accounted(q, r, taken)
    ensures Accounted(n, r, taken)
  {
  }

  lemma AccountedMore(n: Node, q: Node, r: Node, m: Message, rest: seq<Message>)
    requires Runnable(n) && n.phase.Tallying? && q.phase.Tallying? && Wanted(n, m) && CountedOne(n, q, m)
    requires Accounted(q, r, rest)
    ensures Accounted(n, r, [m] + rest)
  {
    hide StakeOf, Counting, Voters, Rejected, Uint64;
    WantedVote(n, m);
    OneMoreUsed(n.election.addresses, m, rest);
  }

  lemma NoneUsed(members: seq<Address>)
    ensures Counting(members, []) == [] && Voters([]) == {}
  {
  }

  lemma OneMoreUsed(members: seq<Address>, m: Message, rest: seq<Message>)
    ensures
      var used, all := Counting(members, rest), Counting(members, [m] + rest);
      all == if m.VoteMsg? && !Rejected(members, m) then [m] + used else used
    ensures
      var used, all := Counting(members, rest), Counting(members, [m] + rest);
      Voters(all) == if m.VoteMsg? && !Rejected(members, m) then {m.vote.voter} + Voters(used) else Voters(used)
  {
    assert ([m] + rest)[1..] == rest;
  }

  /** What a tallying node does with one wanted message. */
  ghost predicate CountedOne(n: Node, r: Node, m: Message)
    requires Runnable(n) && n.phase.Tallying? && m.VoteMsg?
  {
    && r.phase.Tallying? && r.phase.candidate == n.phase.candidate && r.election == n.election && r.height == n.height
    && (if Rejected(n.election.addresses, m) then r.phase == n.phase
        else r.phase.counted == n.phase.counted + {m.vote.voter}
             && r.phase.accepted == Uint64(n.phase.accepted + StakeOf(n.election, m.vote.voter)))
  }

  lemma UnstashCounts(n: Node)
    requires Runnable(n) && InStash(n) && n.phase.Tallying?
    ensures
      var m := Ripe(n);
      Wanted(n, m) && CountedOne(n, Unstash(n).0, m)
  {
    hide StakeOf, VerifyVote;
  }

  lemma ReceiveCounts(n: Node, healDelay: int, m: Message)
    requires Runnable(n) && n.phase.Tallying?
    ensures
      var r := Receive(n, healDelay, m).0;
      if Wanted(n, m) then CountedOne(n, r, m)
      else r.phase == n.phase && r.election == n.election && r.height == n.height
  {
    hide StakeOf, VerifyVote, Observe;
  }

  // ----- the tally is exact -----

  ghost predicate ExactCount(n: Node)
    requires Runnable(n)
  {
    n.phase.Tallying? ==> n.phase.accepted == Uint64(WeightOf(n.election, n.phase.counted))
  }

  lemma CountStaysExact(n: Node, r: Node, m: Message)
    requires Runnable(n) && Runnable(r) && n.phase.Tallying? && ExactCount(n) && m.VoteMsg? && CountedOne(n, r, m)
    requires m.vote.voter !in n.phase.counted
    ensures ExactCount(r) && r.phase.Tallying? && r.election == n.election
  {
    hide WeightOf, StakeOf, VerifyVote;
    WeightInsert(n.election, n.phase.counted, m.vote.voter);
    WeightMonotone(n.election, n.phase.counted, n.phase.counted);
    Uint64Absorbs(WeightOf(n.election, n.phase.counted), StakeOf(n.election, m.vote.voter));
  }

  /** Whatever arrives in whatever order, accepted is the weight of the voters
      counted, and the tally stops exactly on a quorum. */
  lemma {:induction false} TallyIsExact(n: Node, healDelay: int, inbox: seq<Message>)
    requires Runnable(n) && n.phase.Tallying? && ExactCount(n)
    ensures
      var (r, unread, _) := Drive(n, healDelay, inbox);
      && r.phase.Tallying? && r.phase.accepted == Uint64(WeightOf(n.election, r.phase.counted))
      && (unread != [] ==> QuorumReached(n.election, r.phase.accepted))
    decreases |n.pending| + 2 * |inbox|
  {
    hide Drive, Unstash, Receive, InStash, Wanted, WeightOf, QuorumReached, Runnable, CountedOne;
    if Waiting(n) && InStash(n) {
      var m := Ripe(n);
      StashStep(n, healDelay, inbox);
      UnstashCounts(n);
      WantedVote(n, m);
      CountStaysExact(n, Unstash(n).0, m);
      TallyIsExact(Unstash(n).0, healDelay, inbox);
    } else if Waiting(n) && inbox != [] {
      InboxStep(n, healDelay, inbox);
      ReceiveCounts(n, healDelay, inbox[0]);
      if Wanted(n, inbox[0]) {
        WantedVote(n, inbox[0]);
        CountStaysExact(n, Receive(n, healDelay, inbox[0]).0, inbox[0]);
      }
      TallyIsExact(Receive(n, healDelay, inbox[0]).0, healDelay, inbox[1..]);
    } else {
      DriveStops(n, healDelay, inbox);
    }
  }

  // ----- the tally never starves on a quorum -----

  /** Each of these voters is counted, or its verified vote is at hand. */
  ghost predicate AtHand(n: Node, inbox: seq<Message>, voters: set<Address>)
    requires n.phase.Tallying?
  {
    forall a | a in voters ::
      a in n.phase.counted || HasVoteIn(n.pending + inbox, a, n.height, n.phase.candidate.Hash())
  }

  ghost predicate HasVoteIn(ms: seq<Message>, a: Address, height: int, hash: Digest) {
    exists k :: 0 <= k < |ms| && VotedFor(ms[k], a, height, hash)
  }

  lemma MovedVote(ms: seq<Message>, rs: seq<Message>, m: Message, a: Address, height: int, hash: Digest)
    requires HasVoteIn(ms, a, height, hash) && multiset(ms) == multiset(rs) + multiset{m}
    ensures HasVoteIn(rs, a, height, hash) || VotedFor(m, a, height, hash)
  {
    hide VotedFor;
    var k :| 0 <= k < |ms| && VotedFor(ms[k], a, height, hash);
    assert ms[k] in multiset(ms);
    if ms[k] != m {
      assert ms[k] in multiset(rs);
      var j :| 0 <= j < |rs| && rs[j] == ms[k];
    }
  }

  lemma StillAtHand(n: Node, r: Node, m: Message, inbox: seq<Message>, unread: seq<Message>, voters: set<Address>)
    requires Runnable(n) && n.phase.Tallying? && m.VoteMsg? && CountedOne(n, r, m) && AtHand(n, inbox, voters)
    requires voters <= Elements(n.election.addresses)
    requires multiset(n.pending + inbox) == multiset(r.pending + unread) + multiset{m}
    ensures AtHand(r, unread, voters)
  {
    hide StakeOf, VerifyVote, HasVoteIn;
    forall a | a in voters
      ensures a in r.phase.counted || HasVoteIn(r.pending + unread, a, r.height, r.phase.candidate.Hash())
    {
      if a !in n.phase.counted {
        MovedVote(n.pending + inbox, r.pending + unread, m, a, n.height, n.phase.candidate.Hash());
      }
    }
  }

  /** The verified votes of a quorum are counted or at hand. */
  ghost predicate QuorumAtHand(n: Node, inbox: seq<Message>, voters: set<Address>) {
    && Runnable(n) && n.phase.Tallying? && ExactCount(n) && AtHand(n, inbox, voters)
    && voters <= Elements(n.election.addresses)
    && 3 * Total(Weights(n.election)) < TWO64 && 3 * WeightOf(n.election, voters) > 2 * Total(Weights(n.election))
  }

  lemma QuorumAfterTake(n: Node, r: Node, m: Message, inbox: seq<Message>, unread: seq<Message>, voters: set<Address>)
    requires QuorumAtHand(n, inbox, voters) && Runnable(r) && Wanted(n, m) && CountedOne(n, r, m)
    requires OneFewer(n.pending + inbox, r.pending + unread, m)
    ensures QuorumAtHand(r, unread, voters)
  {
    hide WeightOf, Weights, Total, AtHand, CountedOne, Elements, ExactCount, Wanted;
    WantedVote(n, m);
    CountStaysExact(n, r, m);
    StillAtHand(n, r, m, inbox, unread, voters);
  }

  lemma QuorumAfterStash(n: Node, r: Node, inbox: seq<Message>, unread: seq<Message>, voters: set<Address>)
    requires QuorumAtHand(n, inbox, voters) && Runnable(r)
    requires r.phase == n.phase && r.election == n.election && r.height == n.height
    requires n.pending + inbox == r.pending + unread
    ensures QuorumAtHand(r, unread, voters)
  {
    hide WeightOf, Weights, Total;
  }

  /** Once the stash and the inbox hold verified votes of a quorum, in any order
      and among anything else, the tally finishes without blocking. */
  lemma {:induction false} QuorumNeverStarves(n: Node, healDelay: int, inbox: seq<Message>, voters: set<Address>)
    requires QuorumAtHand(n, inbox, voters)
    ensures !Waiting(Drive(n, healDelay, inbox).0)
    decreases |n.pending| + 2 * |inbox|
  {
    hide Drive, Unstash, Receive, InStash, Waiting, Wanted, QuorumAtHand, CountedOne, Runnable, OneFewer;
    Tallying(n, inbox, voters);
    if Waiting(n) && InStash(n) {
      var m, r := Ripe(n), Unstash(n).0;
      StashStep(n, healDelay, inbox);
      UnstashCounts(n);
      UnstashTakes(n);
      FewerStashed(n.pending, r.pending, m, inbox);
      QuorumAfterTake(n, r, m, inbox, inbox, voters);
      QuorumNeverStarves(r, healDelay, inbox, voters);
    } else if Waiting(n) && inbox != [] {
      var m, r := inbox[0], Receive(n, healDelay, inbox[0]).0;
      InboxStep(n, healDelay, inbox);
      ReceiveCounts(n, healDelay, m);
      if Wanted(n, m) {
        FewerUnread(n.pending, inbox);
        QuorumAfterTake(n, r, m, inbox, inbox[1..], voters);
      } else {
        assert n.pending + inbox == r.pending + inbox[1..];
        QuorumAfterStash(n, r, inbox, inbox[1..], voters);
      }
      QuorumNeverStarves(r, healDelay, inbox[1..], voters);
    } else {
      DriveStops(n, healDelay, inbox);
      if Waiting(n) {
        AllInHand(n, voters);
      }
    }
  }

  lemma Tallying(n: Node, inbox: seq<Message>, voters: set<Address>)
    requires QuorumAtHand(n, inbox, voters)
    ensures Runnable(n) && n.phase.Tallying?
  {
  }

  lemma WantedVote(n: Node, m: Message)
    requires n.phase.Tallying? && Wanted(n, m)
    ensures m.VoteMsg? && m.vote.voter !in n.phase.counted
    ensures m.vote.height == n.height && m.vote.hash == n.phase.candidate.Hash()
  {
  }

  lemma AllInHand(n: Node, voters: set<Address>)
    requires QuorumAtHand(n, [], voters) && !InStash(n)
    ensures Runnable(n) && !Waiting(n)
  {
    hide WeightOf, Weights, Total, AtHand, InStash, QuorumReached;
    AllCounted(n, voters);
    WeightMonotone(n.election, voters, n.phase.counted);
    EnoughIsQuorum(n.election, n.phase.counted);
  }

  lemma AllCounted(n: Node, voters: set<Address>)
    requires Runnable(n) && n.phase.Tallying? && AtHand(n, [], voters) && !InStash(n)
    ensures voters <= n.phase.counted
  {
    forall a | a in voters ensures a in n.phase.counted {
      if a !in n.phase.counted {
        assert n.pending + [] == n.pending;
        var k :| 0 <= k < |n.pending| && VotedFor(n.pending[k], a, n.height, n.phase.candidate.Hash());
        assert n.pending[k] in n.pending && Wanted(n, n.pending[k]);
      }
    }
  }

  lemma EnoughIsQuorum(e: ElectionView, counted: set<Address>)
    requires e.Valid() && 3 * Total(Weights(e)) < TWO64 && 3 * WeightOf(e, counted) > 2 * Total(Weights(e))
    ensures QuorumReached(e, Uint64(WeightOf(e, counted)))
  {
    hide WeightOf, Weights, Total;
    WeightMonotone(e, counted, counted);
  }

  // ----- a node's loop is a run of the system -----

  /** The channel delivers only what has been broadcast by then. */
  ghost predicate Delivered(bus: set<Message>, n: Node, healDelay: int, inbox: seq<Message>)
    requires Runnable(n)
    decreases |n.pending| + 2 * |inbox|
  {
    if !Waiting(n) then true
    else if InStash(n) then
      UnstashShrinks(n);
      Delivered(bus + Unstash(n).1, Unstash(n).0, healDelay, inbox)
    else if inbox == [] then true
    else
      ReceiveGrows(n, healDelay, inbox[0]);
      inbox[0] in bus
      && Delivered(bus + Receive(n, healDelay, inbox[0]).1, Receive(n, healDelay, inbox[0]).0, healDelay, inbox[1..])
  }

  ghost function DriveEvents(i: nat, n: Node, healDelay: int, inbox: seq<Message>): seq<Event>
    requires Runnable(n)
    decreases |n.pending| + 2 * |inbox|
  {
    if !Waiting(n) then []
    else if InStash(n) then
      UnstashShrinks(n);
      [FromStash(i)] + DriveEvents(i, Unstash(n).0, healDelay, inbox)
    else if inbox == [] then []
    else
      ReceiveGrows(n, healDelay, inbox[0]);
      [Deliver(i, inbox[0])] + DriveEvents(i, Receive(n, healDelay, inbox[0]).0, healDelay, inbox[1..])
  }

  ghost function Resume(cfg: Config, s: System, events: seq<Event>): System
    decreases |events|
  {
    if events == [] then s else Resume(cfg, Step(cfg, s, events[0]), events[1..])
  }

  lemma {:induction false} AfterResumed(cfg: Config, events: seq<Event>, more: seq<Event>)
    requires cfg.Valid()
    ensures After(cfg, events + more) == Resume(cfg, After(cfg, events), more)
    decreases |more|
  {
    hide Step;
    if more == [] {
      assert events + more == events;
    } else {
      var sooner := events + [more[0]];
      assert sooner + more[1..] == events + more;
      assert sooner[..|events|] == events;
      AfterResumed(cfg, sooner, more[1..]);
    }
  }

  lemma {:induction false} ResumeTwice(cfg: Config, s: System, a: seq<Event>, b: seq<Event>)
    ensures Resume(cfg, s, a + b) == Resume(cfg, Resume(cfg, s, a), b)
    decreases |a|
  {
    hide Step;
    if a == [] {
      assert a + b == b;
    } else {
      assert (a + b)[1..] == a[1..] + b;
      ResumeTwice(cfg, Step(cfg, s, a[0]), a[1..], b);
    }
  }

  lemma PutTwice(s: System, i: nat, n: Node, a: set<Message>, r: Node, b: set<Message>)
    requires i < |s.nodes|
    ensures Put(Put(s, i, (n, a)), i, (r, b)) == Put(s, i, (r, a + b))
  {
    assert s.nodes[i := n][i := r] == s.nodes[i := r];
    assert (s.bus + a) + b == s.bus + (a + b);
  }

  lemma PutSame(s: System, i: nat)
    requires i < |s.nodes|
    ensures Put(s, i, (s.nodes[i], {})) == s
  {
    assert s.nodes[i := s.nodes[i]] == s.nodes;
  }

  lemma {:induction false} DriveIsRun(cfg: Config, s: System, i: nat, inbox: seq<Message>)
    requires i < |s.nodes| && Runnable(s.nodes[i]) && Delivered(s.bus, s.nodes[i], cfg.healDelay, inbox)
    ensures
      var n := s.nodes[i];
      var (r, _, sent) := Drive(n, cfg.healDelay, inbox);
      Resume(cfg, s, DriveEvents(i, n, cfg.healDelay, inbox)) == Put(s, i, (r, sent))
    decreases |s.nodes[i].pending| + 2 * |inbox|
  {
    hide Drive, Unstash, Receive, Waiting, InStash, Runnable;
    var n := s.nodes[i];
    if Waiting(n) && InStash(n) {
      var (q, out) := Unstash(n);
      StashStep(n, cfg.healDelay, inbox);
      var t := Put(s, i, (q, out));
      assert Step(cfg, s, FromStash(i)) == t;
      DriveIsRun(cfg, t, i, inbox);
      var (r, _, sent) := Drive(q, cfg.healDelay, inbox);
      PutTwice(s, i, q, out, r, sent);
      ResumeFirst(cfg, s, FromStash(i), DriveEvents(i, q, cfg.healDelay, inbox));
    } else if Waiting(n) && inbox != [] {
      var (q, out) := Receive(n, cfg.healDelay, inbox[0]);
      InboxStep(n, cfg.healDelay, inbox);
      var t := Put(s, i, (q, out));
      assert Step(cfg, s, Deliver(i, inbox[0])) == t;
      DriveIsRun(cfg, t, i, inbox[1..]);
      var (r, _, sent) := Drive(q, cfg.healDelay, inbox[1..]);
      PutTwice(s, i, q, out, r, sent);
      ResumeFirst(cfg, s, Deliver(i, inbox[0]), DriveEvents(i, q, cfg.healDelay, inbox[1..]));
    } else {
      DriveStops(n, cfg.healDelay, inbox);
      PutSame(s, i);
    }
  }

  lemma ResumeFirst(cfg: Config, s: System, ev: Event, rest: seq<Event>)
    ensures Resume(cfg, s, [ev] + rest) == Resume(cfg, Step(cfg, s, ev), rest)
  {
    hide Step;
    assert ([ev] + rest)[1..] == rest;
  }

  /** Commits if the tally is over. */
  ghost function Settled(n: Node, paced: bool): Node
    requires Runnable(n)
  {
    if n.phase.Tallying? && !Waiting(n) then Finish(n, paced) else n
  }

  /** One pass of the height loop, as far as the inbox carries it: enter and
      perhaps propose, wait and tally, and on a quorum commit. */
  ghost function WholeHeight(n: Node, healDelay: int, paced: bool, now: int, drained: seq<Transaction>,
                             inbox: seq<Message>): (Node, seq<Message>, set<Message>)
    requires Runnable(n)
  {
    var (begun, proposal) := Begin(n, now, drained);
    var (r, unread, votes) := Drive(begun, healDelay, inbox);
    (Settled(r, paced), unread, proposal + votes)
  }

  ghost function HeightEvents(i: nat, n: Node, healDelay: int, now: int, drained: seq<Transaction>, inbox: seq<Message>)
    : seq<Event>
    requires Runnable(n)
  {
    var begun := Begin(n, now, drained).0;
    var r := Drive(begun, healDelay, inbox).0;
    [BeginHeight(i, now, drained)] + DriveEvents(i, begun, healDelay, inbox)
      + if r.phase.Tallying? && !Waiting(r) then [FinishHeight(i)] else []
  }

  /** A pass of a node's height loop takes the system exactly where a list of its
      own steps takes it, so all that holds of every run holds of it. */
  lemma HeightIsRun(cfg: Config, events: seq<Event>, i: nat, now: int, drained: seq<Transaction>, inbox: seq<Message>)
    requires cfg.Valid()
    requires
      var s := After(cfg, events);
      && i < |s.nodes| && Runnable(s.nodes[i]) && s.nodes[i].phase.Ready?
      && var (begun, proposal) := Begin(s.nodes[i], now, drained);
         Delivered(s.bus + proposal, begun, cfg.healDelay, inbox)
    ensures
      var s := After(cfg, events);
      var (r, _, sent) := WholeHeight(s.nodes[i], cfg.healDelay, cfg.paced, now, drained, inbox);
      After(cfg, events + HeightEvents(i, s.nodes[i], cfg.healDelay, now, drained, inbox)) == Put(s, i, (r, sent))
  {
    hide After, Begin, Drive, DriveEvents, Finish, Waiting, Resume;
    var s := After(cfg, events);
    var n := s.nodes[i];
    var (begun, proposal) := Begin(n, now, drained);
    var t := Put(s, i, (begun, proposal));
    assert Step(cfg, s, BeginHeight(i, now, drained)) == t;
    BeginRunnable(n, now, drained);
    DriveIsRun(cfg, t, i, inbox);
    var (r, _, sent) := Drive(begun, cfg.healDelay, inbox);
    PutTwice(s, i, begun, proposal, r, sent);
    var u := Put(s, i, (r, proposal + sent));
    var driven := DriveEvents(i, begun, cfg.healDelay, inbox);
    ResumeFirst(cfg, s, BeginHeight(i, now, drained), driven);
    assert Resume(cfg, s, [BeginHeight(i, now, drained)] + driven) == u;
    var last := if r.phase.Tallying? && !Waiting(r) then [FinishHeight(i)] else [];
    ResumeTwice(cfg, s, [BeginHeight(i, now, drained)] + driven, last);
    AfterResumed(cfg, events, HeightEvents(i, n, cfg.healDelay, now, drained, inbox));
    LastStep(cfg, s, i, r, proposal + sent);
  }

  lemma BeginRunnable(n: Node, now: int, drained: seq<Transaction>)
    requires Runnable(n)
    ensures Runnable(Begin(n, now, drained).0)
  {
    hide Propose, Elected;
  }

  lemma LastStep(cfg: Config, s: System, i: nat, r: Node, sent: set<Message>)
    requires i < |s.nodes| && Runnable(r)
    ensures
      var u := Put(s, i, (r, sent));
      if r.phase.Tallying? && !Waiting(r) then
        Resume(cfg, u, [FinishHeight(i)]) == Put(s, i, (Finish(r, cfg.paced), sent))
      else Resume(cfg, u, []) == u
  {
    hide Finish, Waiting;
    var u := Put(s, i, (r, sent));
    if r.phase.Tallying? && !Waiting(r) {
      assert [FinishHeight(i)][1..] == [];
      assert sent + {} == sent;
      PutTwice(s, i, r, sent, Finish(r, cfg.paced), {});
      assert Resume(cfg, u, [FinishHeight(i)]) == Resume(cfg, Step(cfg, u, FinishHeight(i)), []);
    }
  }
}
