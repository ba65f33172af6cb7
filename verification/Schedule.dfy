/** When a conviction takes a validator's weight away, and when it comes back. */
module Schedule {
  import opened Words
  import opened Types
  import opened Ledger
  import opened Elections
  import opened Votes

  /** What happens to a node's books: a message is observed, or the next height
      is entered over the given committed bonds. */
  datatype Op = See(m: Message) | EnterNext(d: Bonds) | ForgetVotes

  datatype Books = Books(detector: Detector, election: ElectionView, height: int)

  ghost function EnterBooks(b: Books, h: int, d: Bonds): Books
    requires b.election.Valid()
  {
    var entered := Enter(b.election, Due(b.detector.pendingSlash, h), Due(b.detector.pendingHeal, h), d);
    Books(Fire(b.detector, h), Next(entered), h)
  }

  ghost function Perform(b: Books, healDelay: int, op: Op): (r: Books)
    requires b.election.Valid()
    ensures r.election.Valid() && r.election.addresses == b.election.addresses
  {
    match op
    case See(m) => b.(detector := Observe(b.detector, healDelay, m))
    case EnterNext(d) => EnterBooks(b, b.height + 1, d)
    case ForgetVotes => b.(detector := Forget(b.detector, b.height))
  }

  ghost function Run(b: Books, healDelay: int, ops: seq<Op>): (r: Books)
    requires b.election.Valid()
    ensures r.election.Valid() && r.election.addresses == b.election.addresses
  {
    if ops == [] then b else Perform(Run(b, healDelay, ops[..|ops| - 1]), healDelay, ops[|ops| - 1])
  }

  // ----- a sentence -----

  /** a is known to have offended, and its heal is scheduled if heals are on. */
  ghost predicate Sentenced(b: Books, healDelay: int, a: Address, e: int) {
    && a in b.detector.slashed && a in b.election.addresses
    && (if healDelay > 0 then a in b.detector.pendingHeal && b.detector.pendingHeal[a] == e + SLASH_DELAY + healDelay
        else a !in b.detector.pendingHeal)
  }

  /** Convicted for height e, and the slash has not fired yet. */
  ghost predicate Caught(b: Books, healDelay: int, a: Address, e: int)
    requires b.election.Valid()
  {
    && Sentenced(b, healDelay, a, e) && !IsSlashed(b.election, a)
    && a in b.detector.pendingSlash && b.detector.pendingSlash[a] == e + SLASH_DELAY
  }

  /** Convicted for height e, and slashed. */
  ghost predicate Serving(b: Books, healDelay: int, a: Address, e: int)
    requires b.election.Valid()
  {
    Sentenced(b, healDelay, a, e) && IsSlashed(b.election, a) && a !in b.detector.pendingSlash
  }

  /** A member's first verified conflicting vote catches it. */
  lemma ConvictionCatches(b: Books, healDelay: int, m: Message)
    requires b.election.Valid() && HealsCovered(b) && SlashesKnown(b) && m.VoteMsg?
    requires Observe(b.detector, healDelay, m).evidence != b.detector.evidence
    requires m.vote.voter in b.election.addresses
    ensures Caught(b.(detector := Observe(b.detector, healDelay, m)), healDelay, m.vote.voter, m.vote.height)
  {
    hide IsSlashed, VerifyVote;
    var a := m.vote.voter;
    assert a in b.detector.pendingHeal ==> HealCovered(b, a);
  }

  /** Nothing observed afterwards reschedules or drops it. */
  lemma CaughtSees(b: Books, healDelay: int, a: Address, e: int, m: Message)
    requires b.election.Valid() && Caught(b, healDelay, a, e)
    ensures Caught(b.(detector := Observe(b.detector, healDelay, m)), healDelay, a, e)
  {
    hide IsSlashed, VerifyEvidence;
  }

  lemma ServingSees(b: Books, healDelay: int, a: Address, e: int, m: Message)
    requires b.election.Valid() && Serving(b, healDelay, a, e)
    ensures Serving(b.(detector := Observe(b.detector, healDelay, m)), healDelay, a, e)
  {
    hide IsSlashed, VerifyEvidence;
  }

  /** The slash fires at the first height entered from e + 2 on. */
  lemma CaughtEnters(b: Books, healDelay: int, a: Address, e: int, d: Bonds)
    requires b.election.Valid() && Caught(b, healDelay, a, e)
    requires healDelay > 0 ==> b.height + 1 < e + SLASH_DELAY + healDelay
    ensures
      var r := EnterBooks(b, b.height + 1, d);
      if e + SLASH_DELAY <= r.height then Serving(r, healDelay, a, e) else Caught(r, healDelay, a, e)
  {
    hide IsSlashed, Enter, Next;
    var h := b.height + 1;
    SlashedAfterEnter(b.election, Due(b.detector.pendingSlash, h), Due(b.detector.pendingHeal, h), d, a);
  }

  lemma ServingEnters(b: Books, healDelay: int, a: Address, e: int, d: Bonds)
    requires b.election.Valid() && Serving(b, healDelay, a, e)
    requires healDelay > 0 ==> b.height + 1 < e + SLASH_DELAY + healDelay
    ensures Serving(EnterBooks(b, b.height + 1, d), healDelay, a, e)
  {
    hide IsSlashed, Enter, Next;
    var h := b.height + 1;
    SlashedAfterEnter(b.election, Due(b.detector.pendingSlash, h), Due(b.detector.pendingHeal, h), d, a);
  }

  /** Entering the heal height ends the sentence, whether it was served or not. */
  lemma SentenceEnds(b: Books, healDelay: int, a: Address, e: int, d: Bonds)
    requires b.election.Valid() && (Caught(b, healDelay, a, e) || Serving(b, healDelay, a, e))
    requires 0 < healDelay && e + SLASH_DELAY + healDelay <= b.height + 1
    ensures Free(EnterBooks(b, b.height + 1, d), a)
  {
    hide IsSlashed, Enter, Next;
    var h := b.height + 1;
    SlashedAfterEnter(b.election, Due(b.detector.pendingSlash, h), Due(b.detector.pendingHeal, h), d, a);
  }

  /** Not slashed, nothing scheduled, and open to being caught again. */
  ghost predicate Free(b: Books, a: Address)
    requires b.election.Valid()
  {
    && !IsSlashed(b.election, a) && a !in b.detector.slashed
    && a !in b.detector.pendingSlash && a !in b.detector.pendingHeal
  }

  // ----- over any run of the books -----

  /** How many heights were entered. */
  ghost function Entered(ops: seq<Op>): nat {
    if ops == [] then 0 else Entered(ops[..|ops| - 1]) + if ops[|ops| - 1].EnterNext? then 1 else 0
  }

  lemma {:induction false} HeightAfter(b: Books, healDelay: int, ops: seq<Op>)
    requires b.election.Valid()
    ensures Run(b, healDelay, ops).height == b.height + Entered(ops)
  {
    hide Observe, Fire, Forget, Enter, Next;
    if ops != [] {
      HeightAfter(b, healDelay, ops[..|ops| - 1]);
    }
  }

  /** A height has been entered at or after the slash height. */
  ghost predicate Fired(b: Books, ops: seq<Op>, e: int) {
    0 < Entered(ops) && e + SLASH_DELAY <= b.height + Entered(ops)
  }

  /** From a conviction for height e, whenever it came and whatever is observed
      afterwards, the slash is in force at exactly the heights entered from e + 2
      up to but excluding e + 2 + healDelay; with no heal delay, for ever. */
  lemma {:induction false} SlashWindow(b: Books, healDelay: int, a: Address, e: int, ops: seq<Op>)
    requires b.election.Valid() && Caught(b, healDelay, a, e)
    requires healDelay > 0 ==> Entered(ops) == 0 || b.height + Entered(ops) < e + SLASH_DELAY + healDelay
    ensures
      var r := Run(b, healDelay, ops);
      if Fired(b, ops, e) then Serving(r, healDelay, a, e) else Caught(r, healDelay, a, e)
  {
    hide Caught, Serving, Observe, EnterBooks;
    if ops != [] {
      var init, op := ops[..|ops| - 1], ops[|ops| - 1];
      SlashWindow(b, healDelay, a, e, init);
      HeightAfter(b, healDelay, init);
      SentenceStep(Run(b, healDelay, init), healDelay, a, e, op, Fired(b, init, e));
    }
  }

  lemma SentenceStep(b: Books, healDelay: int, a: Address, e: int, op: Op, fired: bool)
    requires b.election.Valid() && if fired then Serving(b, healDelay, a, e) else Caught(b, healDelay, a, e)
    requires op.EnterNext? && healDelay > 0 ==> b.height + 1 < e + SLASH_DELAY + healDelay
    ensures
      var r := Perform(b, healDelay, op);
      if fired || (op.EnterNext? && e + SLASH_DELAY <= b.height + 1) then Serving(r, healDelay, a, e)
      else Caught(r, healDelay, a, e)
  {
    hide Observe, EnterBooks, IsSlashed;
    match op
    case See(m) =>
      if fired {
        ServingSees(b, healDelay, a, e, m);
      } else {
        CaughtSees(b, healDelay, a, e, m);
      }
    case EnterNext(d) =>
      EnteredHeight(b, d);
      if fired {
        ServingEnters(b, healDelay, a, e, d);
      } else {
        CaughtEnters(b, healDelay, a, e, d);
      }
    case ForgetVotes =>
  }

  lemma EnteredHeight(b: Books, d: Bonds)
    requires b.election.Valid()
    ensures EnterBooks(b, b.height + 1, d).height == b.height + 1
  {
  }

  /** Self-stake plus bonds behind a member, slashed or not. */
  ghost function FullStake(e: ElectionView, a: Address): nat
    requires e.Valid()
  {
    StakeOf(Full(e), a)
  }

  /** A slashed member has no weight, any other has its full stake. */
  lemma StakeWhileSlashed(e: ElectionView, a: Address)
    requires e.Valid() && a in e.addresses
    ensures StakeOf(e, a) == if IsSlashed(e, a) then 0 else FullStake(e, a)
  {
    hide Uint64;
    var i := IndexOf(e.addresses, a);
    assert e.addresses[i] == a;
  }

  // ----- late convictions -----

  /** Slash and heal fire at one height exactly when the conviction comes as late
      as the height before the heal is due, and then the offender never loses
      its weight. The source's comment that the two never coincide therefore
      holds only for evidence noticed earlier than that. */
  lemma SlashAndHealTogether(b: Books, healDelay: int, a: Address, e: int, d: Bonds)
    requires b.election.Valid() && healDelay > 0 && Caught(b, healDelay, a, e)
    ensures
      var h := b.height + 1;
      && (a in Due(b.detector.pendingSlash, h) && a in Due(b.detector.pendingHeal, h)
          <==> e + SLASH_DELAY + healDelay <= h)
      && (IsSlashed(EnterBooks(b, h, d).election, a) <==> e + SLASH_DELAY <= h < e + SLASH_DELAY + healDelay)
  {
    hide IsSlashed, Enter, Next;
    var h := b.height + 1;
    SlashedAfterEnter(b.election, Due(b.detector.pendingSlash, h), Due(b.detector.pendingHeal, h), d, a);
  }

  /** Such lateness is a matter of delivery only: with a heal delay of one, a member
      whose two height-1 votes are pulled off the inbox during height 3 has its
      slash and its heal both due at 4, and is not slashed there. */
  lemma LateDeliveryExample(v: Validator, e: ElectionView, d: Bonds)
    requires v.WellFormed() && e.Valid() && v.address in e.addresses && !IsSlashed(e, v.address)
    ensures
      var votes := [See(VoteMsg(NewVote(1, Raw("a"), v))), See(VoteMsg(NewVote(1, Raw("b"), v)))];
      var r := Run(Books(FreshDetector, e, 3), 1, votes);
      && r.height == 3 && Caught(r, 1, v.address, 1)
      && v.address in Due(r.detector.pendingSlash, 4) && v.address in Due(r.detector.pendingHeal, 4)
      && !IsSlashed(Perform(r, 1, EnterNext(d)).election, v.address)
  {
    hide IsSlashed, Enter, Next, Observe, NewVote;
    var a, b := VoteMsg(NewVote(1, Raw("a"), v)), VoteMsg(NewVote(1, Raw("b"), v));
    var start := Books(FreshDetector, e, 3);
    assert [See(a), See(b)][..1] == [See(a)] && [See(a)][..0] == [];
    assert Run(start, 1, [See(a)]) == start.(detector := Observe(FreshDetector, 1, a));
    var r := Run(start, 1, [See(a), See(b)]);
    assert r == start.(detector := Observe(Observe(FreshDetector, 1, a), 1, b));
    TwoVotesConvict(v);
    SlashAndHealTogether(r, 1, v.address, 1, d);
  }

  lemma TwoVotesConvict(v: Validator)
    requires v.WellFormed()
    ensures
      var a, b := NewVote(1, Raw("a"), v), NewVote(1, Raw("b"), v);
      var d := Observe(Observe(FreshDetector, 1, VoteMsg(a)), 1, VoteMsg(b));
      && d.slashed == {v.address} && d.pendingSlash == map[v.address := 3] && d.pendingHeal == map[v.address := 4]
  {
    var a, b := NewVote(1, Raw("a"), v), NewVote(1, Raw("b"), v);
    NewVoteVerifies(1, Raw("a"), v, 1, Raw("a"));
    NewVoteVerifies(1, Raw("b"), v, 1, Raw("b"));
    var once := Observe(FreshDetector, 1, VoteMsg(a));
    assert once == FreshDetector.(seenVotes := map[1 := map[v.address := a]]);
    assert Observe(once, 1, VoteMsg(b)) == Convict(once, 1, Evidence(v.address, 1, a, b));
  }

  // ----- what the books always keep -----

  /** Whoever is slashed, or will be, has been detected. */
  ghost predicate SlashesKnown(b: Books)
    requires b.election.Valid()
  {
    && (forall a | a in b.detector.pendingSlash :: SlashFirst(b.detector, a))
    && forall a | IsSlashed(b.election, a) :: a in b.detector.slashed
  }

  ghost predicate SlashFirst(d: Detector, a: Address)
    requires a in d.pendingSlash
  {
    a in d.slashed && (a in d.pendingHeal ==> d.pendingSlash[a] < d.pendingHeal[a])
  }

  lemma KnownSees(b: Books, healDelay: int, m: Message)
    requires b.election.Valid() && HealsCovered(b) && SlashesKnown(b)
    ensures SlashesKnown(b.(detector := Observe(b.detector, healDelay, m)))
  {
    hide IsSlashed, VerifyEvidence;
    var r := b.(detector := Observe(b.detector, healDelay, m));
    forall a | a in r.detector.pendingSlash ensures SlashFirst(r.detector, a) {
      assert a in b.detector.pendingSlash ==> SlashFirst(b.detector, a);
      assert a in b.detector.pendingHeal ==> HealCovered(b, a);
    }
  }

  lemma KnownEnters(b: Books, d: Bonds)
    requires b.election.Valid() && SlashesKnown(b)
    ensures SlashesKnown(EnterBooks(b, b.height + 1, d))
  {
    hide IsSlashed, Enter, Next;
    var h := b.height + 1;
    var r := EnterBooks(b, h, d);
    forall a | IsSlashed(r.election, a) ensures a in r.detector.slashed {
      assert a in b.detector.pendingSlash ==> SlashFirst(b.detector, a);
      SlashedAfterEnter(b.election, Due(b.detector.pendingSlash, h), Due(b.detector.pendingHeal, h), d, a);
    }
    forall a | a in r.detector.pendingSlash ensures SlashFirst(r.detector, a) {
      assert SlashFirst(b.detector, a);
    }
  }

  // ----- map iteration order -----

  /** Whoever waits for a heal has been detected, and is slashed already or will
      be at an earlier height. */
  ghost predicate HealsCovered(b: Books)
    requires b.election.Valid()
  {
    forall a | a in b.detector.pendingHeal :: HealCovered(b, a)
  }

  ghost predicate HealCovered(b: Books, a: Address)
    requires b.election.Valid() && a in b.detector.pendingHeal
  {
    var d := b.detector;
    && a in d.slashed
    && (a in b.election.addresses && !IsSlashed(b.election, a) ==>
          a in d.pendingSlash && d.pendingSlash[a] < d.pendingHeal[a])
  }

  lemma CoveredObserve(b: Books, healDelay: int, m: Message)
    requires b.election.Valid() && HealsCovered(b)
    ensures HealsCovered(b.(detector := Observe(b.detector, healDelay, m)))
  {
    hide IsSlashed, VerifyEvidence, VerifyVote;
    var r := b.(detector := Observe(b.detector, healDelay, m));
    forall a | a in r.detector.pendingHeal ensures HealCovered(r, a) {
      assert a in b.detector.pendingHeal ==> HealCovered(b, a);
    }
  }

  lemma CoveredEnter(b: Books, d: Bonds)
    requires b.election.Valid() && HealsCovered(b)
    ensures HealsCovered(EnterBooks(b, b.height + 1, d))
  {
    hide IsSlashed, Enter, Next;
    var h := b.height + 1;
    var r := EnterBooks(b, h, d);
    forall a | a in r.detector.pendingHeal ensures HealCovered(r, a) {
      assert HealCovered(b, a);
      SlashedAfterEnter(b.election, Due(b.detector.pendingSlash, h), Due(b.detector.pendingHeal, h), d, a);
    }
  }

  lemma {:induction false} CoveredAlways(b: Books, healDelay: int, ops: seq<Op>)
    requires b.election.Valid() && HealsCovered(b)
    ensures HealsCovered(Run(b, healDelay, ops))
  {
    hide Observe, EnterBooks, HealsCovered;
    if ops != [] {
      var init, op := ops[..|ops| - 1], ops[|ops| - 1];
      CoveredAlways(b, healDelay, init);
      var r := Run(b, healDelay, init);
      match op
      case See(m) => CoveredObserve(r, healDelay, m);
      case EnterNext(d) => CoveredEnter(r, d);
      case ForgetVotes => CoveredForget(r);
    }
  }

  lemma {:induction false} KnownAlways(b: Books, healDelay: int, ops: seq<Op>)
    requires b.election.Valid() && HealsCovered(b) && SlashesKnown(b)
    ensures SlashesKnown(Run(b, healDelay, ops))
  {
    hide Observe, EnterBooks, SlashesKnown, HealsCovered;
    if ops != [] {
      var init, op := ops[..|ops| - 1], ops[|ops| - 1];
      KnownAlways(b, healDelay, init);
      CoveredAlways(b, healDelay, init);
      var r := Run(b, healDelay, init);
      match op
      case See(m) => KnownSees(r, healDelay, m);
      case EnterNext(d) => KnownEnters(r, d);
      case ForgetVotes => KnownForgets(r);
    }
  }

  lemma KnownForgets(b: Books)
    requires b.election.Valid() && SlashesKnown(b)
    ensures SlashesKnown(b.(detector := Forget(b.detector, b.height)))
  {
    hide IsSlashed;
    var r := b.(detector := Forget(b.detector, b.height));
    forall a | a in r.detector.pendingSlash ensures SlashFirst(r.detector, a) {
      assert SlashFirst(b.detector, a);
    }
  }

  lemma CoveredForget(b: Books)
    requires b.election.Valid() && HealsCovered(b)
    ensures HealsCovered(b.(detector := Forget(b.detector, b.height)))
  {
    hide IsSlashed;
    var r := b.(detector := Forget(b.detector, b.height));
    forall a | a in r.detector.pendingHeal ensures HealCovered(r, a) {
      assert HealCovered(b, a);
    }
  }

  /** In every run, firing this height's slashes and then its heals in whatever
      order the maps are iterated enters the height with the same election. */
  lemma EnterInAnyOrder(b: Books, healDelay: int, ops: seq<Op>, slashes: seq<Address>, heals: seq<Address>, d: Bonds)
    requires b.election.Valid() && b.detector == FreshDetector && Distinct(heals)
    requires
      var r := Run(b, healDelay, ops);
      && Elements(slashes) == Due(r.detector.pendingSlash, r.height + 1)
      && Elements(heals) == Due(r.detector.pendingHeal, r.height + 1)
    ensures
      var r := Run(b, healDelay, ops);
      Next(Sync(RestoreEach(SlashEach(r.election, slashes), heals), d))
        == Perform(r, healDelay, EnterNext(d)).election
  {
    hide Run, Sync, Next, SlashEach, RestoreEach, SlashAll, RestoreAll, IsSlashed;
    CoveredAlways(b, healDelay, ops);
    var r := Run(b, healDelay, ops);
    InAnyOrder(r, slashes, heals);
  }

  lemma InAnyOrder(r: Books, slashes: seq<Address>, heals: seq<Address>)
    requires r.election.Valid() && HealsCovered(r) && Distinct(heals)
    requires Elements(slashes) == Due(r.detector.pendingSlash, r.height + 1)
    requires Elements(heals) == Due(r.detector.pendingHeal, r.height + 1)
    ensures RestoreEach(SlashEach(r.election, slashes), heals)
         == RestoreAll(SlashAll(r.election, Due(r.detector.pendingSlash, r.height + 1)),
                       Due(r.detector.pendingHeal, r.height + 1))
  {
    hide Low, Weights, RestoreEach, SlashEach;
    var e := r.election;
    SlashOrderIrrelevant(e, slashes);
    var s := SlashAll(e, Elements(slashes));
    forall i | 0 <= i < |e.addresses| && e.addresses[i] in heals ensures s.slashed[i] {
      assert e.addresses[i] in Elements(heals);
      assert HealCovered(r, e.addresses[i]);
    }
    HealOrderIrrelevant(s, heals);
  }
}
