/** The election as Go runs it, its arrays written in place, and the
    recompute-from-one reference it refines. */
module ElectionObjects {
  import opened Wrappers
  import opened Words
  import opened Sums
  import opened Types
  import opened Ledger
  import opened LedgerObjects
  import opened Accumulator
  import opened Elections
  import Fairness
  import AccumulatorBounds

  class Election {
    const addresses: seq<Address>
    const origStake: seq<nat>
    const delegated: array<nat>
    const slashed: array<bool>
    const priorities: array<int>

    ghost predicate Valid()
      reads this
    {
      && |addresses| == |origStake| == delegated.Length == slashed.Length == priorities.Length
      && Distinct(addresses)
      && delegated as object != priorities as object
    }

    ghost function View(): (e: ElectionView)
      reads this, delegated, slashed, priorities
      requires Valid()
      ensures e.Valid()
    {
      ElectionView(addresses, origStake, delegated[..], slashed[..], priorities[..])
    }

    constructor (addresses: seq<Address>, origStake: seq<nat>)
      requires |addresses| == |origStake| && Distinct(addresses)
      ensures Valid() && fresh(delegated) && fresh(slashed) && fresh(priorities)
      ensures this.addresses == addresses && this.origStake == origStake
      ensures
        var n := |addresses|;
        View() == ElectionView(addresses, origStake, seq(n, _ => 0), seq(n, _ => false), Zeros(n))
      ensures forall i | 0 <= i < |addresses| :: Weights(View())[i] == Uint64(origStake[i])
    {
      this.addresses, this.origStake := addresses, origStake;
      delegated := new nat[|addresses|](_ => 0);
      slashed := new bool[|addresses|](_ => false);
      priorities := new int[|addresses|](_ => 0);
      new;
      assert priorities[..] == Zeros(|addresses|);
      assert delegated[..] == seq(|addresses|, _ => 0) && slashed[..] == seq(|addresses|, _ => false);
    }

    function EffectiveAt(i: nat): (w: nat)
      reads this, delegated, slashed, priorities
      requires Valid() && i < |addresses|
      ensures w == Weights(View())[i]
    {
      if slashed[i] then 0 else Uint64(origStake[i] + delegated[i])
    }

    method SlashAddress(addr: Address)
      requires Valid()
      modifies slashed
      ensures View() == Slash(old(View()), addr)
    {
      for i := 0 to |addresses|
        invariant addr !in addresses[..i]
        invariant slashed[..] == old(slashed[..])
      {
        if addresses[i] == addr {
          FirstAt(addresses, addr, i);
          slashed[i] := true;
          return;
        }
      }
    }

    method RestoreAddress(addr: Address)
      requires Valid()
      modifies slashed, priorities
      ensures View() == Restore(old(View()), addr)
    {
      var idx := -1;
      for i := 0 to |addresses|
        invariant idx == -1 && addr !in addresses[..i]
      {
        if addresses[i] == addr {
          FirstAt(addresses, addr, i);
          idx := i;
          break;
        }
      }
      if idx < 0 {
        return;
      }
      slashed[idx] := false;
      var low := LeastOther(priorities, CurrentWeights(), idx);
      priorities[idx] := low;
      WeightlessMember(old(View()), idx);
    }

    function CurrentWeights(): (w: seq<nat>)
      reads this, delegated, slashed, priorities
      requires Valid()
      ensures w == Weights(View())
    {
      seq(|addresses|, i requires 0 <= i < |addresses| reads this, delegated, slashed, priorities requires Valid() =>
          EffectiveAt(i))
    }

    /** None is the panic when no validator has stake. */
    method Next() returns (winner: Option<Address>)
      requires Valid()
      modifies priorities
      ensures winner == Elected(old(View()))
      ensures View() == Elections.Next(old(View()))
    {
      var w := CurrentWeights();
      var total := TotalInt64(w);
      var k := Advance(priorities, w, total);
      winner := if k < 0 then None else Some(addresses[k]);
    }

    method TotalStake() returns (t: nat)
      requires Valid()
      ensures t == Uint64(Total(Weights(View())))
    {
      t := 0;
      for i := 0 to |addresses|
        invariant t == Uint64(TotalTo(Weights(View()), i))
      {
        Uint64Absorbs(TotalTo(Weights(View()), i), EffectiveAt(i));
        t := Uint64(t + EffectiveAt(i));
      }
    }

    method StakeOfAddress(addr: Address) returns (stake: nat)
      requires Valid()
      ensures stake == StakeOf(View(), addr)
    {
      for i := 0 to |addresses|
        invariant addr !in addresses[..i]
      {
        if addresses[i] == addr {
          FirstAt(addresses, addr, i);
          return EffectiveAt(i);
        }
      }
      stake := 0;
    }

    method Contains(addr: Address) returns (found: bool)
      ensures found <==> addr in addresses
    {
      for i := 0 to |addresses|
        invariant addr !in addresses[..i]
      {
        if addresses[i] == addr {
          return true;
        }
      }
      found := false;
    }

    /** Tallies the whole bond map once, in any order, then reads it per member. */
    method SyncDelegations(d: Bonds)
      requires Valid()
      modifies delegated
      ensures View() == Sync(old(View()), d)
    {
      var tally := TallyBonds(d);
      for i := 0 to |addresses|
        invariant forall j | 0 <= j < i :: delegated[j] == DelegatedTo(d, addresses[j])
      {
        delegated[i] := Get(tally, addresses[i]);
      }
      assert delegated[..] == Synced(d, addresses);
    }
  }

  lemma SignedAdd(x: int, w: int)
    ensures Int64(Int64(x) + Int64(w)) == Int64(x + w)
    ensures Int64(x + Int64(w)) == Int64(x + w)
  {
    Int64Absorbs(x, w);
    Int64Absorbs(x, Int64(w));
  }

  lemma FirstAt(addresses: seq<Address>, a: Address, i: nat)
    requires i < |addresses| && addresses[i] == a && a !in addresses[..i]
    ensures IndexOf(addresses, a) == i
  {
    assert a in addresses;
    PrefixMembers(addresses, i);
    PrefixMembers(addresses, IndexOf(addresses, a));
  }

  lemma PrefixMembers(addresses: seq<Address>, n: nat)
    requires n <= |addresses|
    ensures forall j | 0 <= j < n :: addresses[j] in addresses[..n]
  {
    forall j | 0 <= j < n ensures addresses[j] in addresses[..n] {
      assert addresses[..n][j] == addresses[j];
    }
  }

  lemma WeightlessMember(e: ElectionView, i: nat)
    requires e.Valid() && i < |e.addresses|
    ensures Weights(e.(slashed := e.slashed[i := true])) == Weights(e.(slashed := e.slashed[i := false]))[i := 0]
  {
  }

  // ----- the accumulator's loops -----

  method TotalInt64(w: seq<nat>) returns (total: int)
    ensures total == Int64(Total(w))
  {
    total := 0;
    for i := 0 to |w|
      invariant total == Int64(TotalTo(w, i))
    {
      SignedAdd(TotalTo(w, i), w[i]);
      total := Int64(total + Int64(w[i]));
    }
  }

  method RaiseAll(priorities: array<int>, w: seq<nat>)
    requires priorities.Length == |w|
    modifies priorities
    ensures priorities[..] == Raise64(old(priorities[..]), w)
  {
    for i := 0 to |w|
      invariant forall j | 0 <= j < i :: priorities[j] == Int64(old(priorities[j]) + w[j])
      invariant forall j | i <= j < |w| :: priorities[j] == old(priorities[j])
    {
      SignedAdd(priorities[i], w[i]);
      priorities[i] := Int64(priorities[i] + Int64(w[i]));
    }
  }

  method PickWinner(priorities: array<int>, w: seq<nat>) returns (k: int)
    requires priorities.Length == |w|
    ensures k == Best(priorities[..], w, |w|)
  {
    k := -1;
    for i := 0 to |w|
      invariant k == Best(priorities[..], w, i)
    {
      if w[i] == 0 {
        continue;
      }
      if k < 0 || priorities[i] > priorities[k] {
        k := i;
      }
    }
  }

  method Advance(priorities: array<int>, w: seq<nat>, total: int) returns (k: int)
    requires priorities.Length == |w| && total == Int64(Total(w))
    modifies priorities
    ensures k == Winner64(old(priorities[..]), w)
    ensures priorities[..] == Step64(old(priorities[..]), w)
  {
    hide Int64, Total;
    RaiseAll(priorities, w);
    k := PickWinner(priorities, w);
    if k >= 0 {
      Int64Absorbs(priorities[k], Total(w));
      priorities[k] := Int64(priorities[k] - total);
    }
  }

  method LeastOther(priorities: array<int>, w: seq<nat>, idx: nat) returns (low: int)
    requires priorities.Length == |w| && idx < |w|
    ensures low == Low(priorities[..], w[idx := 0])
  {
    low := 0;
    var first := true;
    for i := 0 to |w|
      invariant LowTo(priorities[..], w[idx := 0], i) == if first then None else Some(low)
      invariant first ==> low == 0
    {
      if i == idx || w[i] == 0 {
        continue;
      }
      if first || priorities[i] < low {
        low := priorities[i];
        first := false;
      }
    }
  }

  /** The sum, in uint64, of every delegator's bond behind each validator. */
  method TallyBonds(d: Bonds) returns (tally: map<Address, nat>)
    ensures forall v :: Get(tally, v) == DelegatedTo(d, v)
  {
    hide Sum, Uint64, BackersOf;
    tally := map[];
    var rest := d.Keys;
    ghost var done: Bonds := map[];
    forall v ensures Get(tally, v) == DelegatedTo(done, v) {
      NoBackers(v);
    }
    while rest != {}
      invariant rest <= d.Keys && done == d - rest
      invariant forall v :: Get(tally, v) == DelegatedTo(done, v)
      decreases rest
    {
      var x :| x in rest;
      tally := AddInner(tally, d[x]);
      forall v ensures Get(tally, v) == DelegatedTo(d - (rest - {x}), v) {
        MoreBackers(d, v, rest, x);
        WordSum2(Sum(BackersOf(done, v)), Bonded(d, x, v));
      }
      rest := rest - {x};
      done := d - rest;
    }
    assert d - {} == d;
  }

  method AddInner(tally: map<Address, nat>, inner: map<Address, nat>) returns (r: map<Address, nat>)
    requires forall v :: Get(tally, v) < TWO64
    ensures forall v :: Get(r, v) == Uint64(Get(tally, v) + Get(inner, v))
  {
    r := tally;
    var rest := inner.Keys;
    while rest != {}
      invariant rest <= inner.Keys
      invariant forall v :: Get(r, v) == if v in rest then Get(tally, v) else Uint64(Get(tally, v) + Get(inner, v))
      decreases rest
    {
      var v :| v in rest;
      r := r[v := Uint64(Get(r, v) + inner[v])];
      rest := rest - {v};
    }
  }

  // ----- the reference -----

  /** ProposerForHeight over the members' stakes: the index it returns, or None
      where it panics. */
  method ProposerForHeight(stakes: seq<nat>, height: int) returns (winner: Option<nat>)
    ensures winner == Reference(stakes, height)
  {
    hide Step64, Winner64, Total, After64, Repeat;
    var total := TotalInt64(stakes);
    RepeatNone(stakes);
    var priorities := new int[|stakes|](_ => 0);
    assert priorities[..] == Zeros(|stakes|);
    var k := -1;
    var h := 1;
    while h <= height
      invariant 1 <= h && (h <= height + 1 || h == 1)
      invariant priorities[..] == After64(|stakes|, Repeat(stakes, h - 1))
      invariant k == if h == 1 then -1 else Winner64(After64(|stakes|, Repeat(stakes, h - 2)), stakes)
      invariant h > 1 ==> k >= 0
    {
      k := Advance(priorities, stakes, total);
      if k < 0 {
        NoStakeNoWinner(After64(|stakes|, Repeat(stakes, h - 1)),
                        After64(|stakes|, Repeat(stakes, height - 1)), stakes);
        return None;
      }
      RepeatMore(stakes, h - 1);
      h := h + 1;
    }
    winner := if k < 0 then None else Some(k);
  }

  /** The winner of the last of `height` heights from a zero accumulator; None
      with no height to run or no stake to elect. */
  ghost function Reference(stakes: seq<nat>, height: int): (winner: Option<nat>)
    ensures winner.Some? <==> 0 < height && exists i :: 0 <= i < |stakes| && 0 < stakes[i]
  {
    if height <= 0 then None else
      var k := Winner64(After64(|stakes|, Repeat(stakes, height - 1)), stakes);
      if k < 0 then None else Some(k)
  }

  // ----- refinement -----

  /** The election after h calls of next. */
  ghost function Advanced(e: ElectionView, h: nat): (r: ElectionView)
    requires e.Valid()
    ensures r.Valid() && r == e.(priorities := r.priorities)
  {
    if h == 0 then e else Elections.Next(Advanced(e, h - 1))
  }

  lemma {:induction false} AdvancedPriorities(e: ElectionView, h: nat)
    requires e.Valid() && e.priorities == Zeros(|e.addresses|)
    ensures Advanced(e, h).priorities == After64(|e.addresses|, Repeat(Weights(e), h))
  {
    if h > 0 {
      AdvancedPriorities(e, h - 1);
      SameWeights(e, Advanced(e, h - 1).priorities);
      RepeatMore(Weights(e), h - 1);
    }
  }

  lemma SameWeights(e: ElectionView, p: seq<int>)
    requires e.Valid() && |p| == |e.addresses|
    ensures Weights(e.(priorities := p)) == Weights(e)
  {
  }

  /** The incremental election refines the recompute-from-one reference: on a
      set whose weights stay put, the h-th call of next elects the member that
      ProposerForHeight(h) returns, or both panic. */
  lemma ElectionMatchesReference(e: ElectionView, h: nat)
    requires e.Valid() && e.priorities == Zeros(|e.addresses|) && 0 < h
    ensures
      var winner := Reference(Weights(e), h);
      Elected(Advanced(e, h - 1)) == if winner.Some? then Some(e.addresses[winner.value]) else None
  {
    AdvancedPriorities(e, h - 1);
    SameWeights(e, Advanced(e, h - 1).priorities);
  }

  lemma {:induction false} RepeatIsRun(w: seq<nat>, t: nat)
    ensures After(|w|, Repeat(w, t)) == Fairness.Run(w, t)
  {
    if t > 0 {
      RepeatIsRun(w, t - 1);
      assert Repeat(w, t)[..t - 1] == Repeat(w, t - 1);
    }
  }

  /** Someone has weight, and the total times 1 + 1/2 + ... + 1/n fits an int64. */
  ghost predicate FixedFits(w: seq<nat>) {
    0 < Total(w) && Total(w) as real * AccumulatorBounds.Harmonic(1, |w|) < TWO63 as real
  }

  lemma RepeatLasts(w: seq<nat>, t: nat)
    requires 0 < Total(w)
    ensures AccumulatorBounds.Lasting(|w|, Repeat(w, t), Total(w))
  {
  }

  /** Fixed weights, some possibly zero, never overflow while that fits. */
  lemma FixedNeverOverflows(w: seq<nat>, t: nat)
    requires FixedFits(w)
    ensures After64(|w|, Repeat(w, t)) == Fairness.Run(w, t)
    ensures Winner64(Fairness.Run(w, t), w) == Winner(Fairness.Run(w, t), w)
    ensures Step64(Fairness.Run(w, t), w) == Step(Fairness.Run(w, t), w)
  {
    hide Total, Step, Step64, Winner, Winner64, AccumulatorBounds.Lasting, AccumulatorBounds.Harmonic;
    RepeatLasts(w, t);
    RepeatLasts(w, t + 1);
    assert Repeat(w, t + 1)[..t] == Repeat(w, t);
    AccumulatorBounds.NeverOverflows(|w|, Repeat(w, t), Total(w));
    AccumulatorBounds.NextFits(|w|, Repeat(w, t + 1), Total(w));
    RepeatIsRun(w, t);
  }

  /** How often the running election picks an address in its next t heights. */
  ghost function TimesElected(e: ElectionView, a: Address, t: nat): nat
    requires e.Valid()
  {
    if t == 0 then 0
    else TimesElected(e, a, t - 1) + if Elected(Advanced(e, t - 1)) == Some(a) then 1 else 0
  }

  lemma {:induction false} TimesAreElections(e: ElectionView, i: nat, t: nat)
    requires e.Valid() && e.priorities == Zeros(|e.addresses|) && i < |e.addresses|
    requires FixedFits(Weights(e))
    ensures TimesElected(e, e.addresses[i], t) == Fairness.Elections(Weights(e), i, t)
  {
    hide Total, Advanced, Elected, Fairness.ElectedAt, Weights;
    if t > 0 {
      TimesAreElections(e, i, t - 1);
      ElectedIsSchedule(e, t);
    }
  }

  /** The running election follows the unbounded schedule. */
  lemma ElectedIsSchedule(e: ElectionView, h: nat)
    requires e.Valid() && e.priorities == Zeros(|e.addresses|) && 0 < h
    requires FixedFits(Weights(e))
    ensures
      var k := Fairness.ElectedAt(Weights(e), h);
      && 0 <= k < |e.addresses| && Elected(Advanced(e, h - 1)) == Some(e.addresses[k])
      && forall i | 0 <= i < |e.addresses| :: e.addresses[i] == e.addresses[k] <==> i == k
  {
    hide Total, Winner, Winner64;
    AdvancedPriorities(e, h - 1);
    SameWeights(e, Advanced(e, h - 1).priorities);
    FixedNeverOverflows(Weights(e), h - 1);
    SomeWinner(Fairness.Run(Weights(e), h - 1), Weights(e));
  }

  /** The running election is exactly proportional: from a zero accumulator,
      over one period of total-weight heights every member, slashed or not, is
      elected exactly its weight times and the accumulator returns to zero. */
  lemma ElectionIsFair(e: ElectionView, i: nat)
    requires e.Valid() && e.priorities == Zeros(|e.addresses|) && i < |e.addresses|
    requires FixedFits(Weights(e))
    ensures TimesElected(e, e.addresses[i], Total(Weights(e))) == Weights(e)[i]
    ensures Advanced(e, Total(Weights(e))) == e
  {
    hide Total, Fairness.Run, TimesElected, Fairness.Elections;
    var w, period := Weights(e), Total(Weights(e));
    TimesAreElections(e, i, period);
    Fairness.PeriodExact(w);
    AdvancedPriorities(e, period);
    FixedNeverOverflows(w, period);
    assert Advanced(e, period).priorities == e.priorities;
  }

  /** With equal stakes both are plain round-robin: height h goes to member
      (h - 1) mod n, as long as the total stake fits an int64. */
  lemma ReferenceRoundRobin(w: seq<nat>, stake: nat, h: nat)
    requires 0 < stake && 0 < |w| && 0 < h && Fairness.Equal(w, stake) && |w| * stake < TWO63
    ensures Reference(w, h) == Some((h - 1) % |w|)
  {
    hide After64, Fairness.Run, Winner, Winner64, Step, Step64, Fairness.MidRound;
    var r := (h - 1) % |w|;
    EqualNeverOverflows(w, stake, h - 1);
    Fairness.EqualStakes(w, stake, h - 1);
    MidRoundFits(w, stake, Fairness.Run(w, h - 1), r);
    Fairness.EqualStep(w, stake, Fairness.Run(w, h - 1), r);
  }

  /** Within a round nobody rises above the total. */
  lemma MidRoundFits(w: seq<nat>, stake: nat, p: seq<int>, r: nat)
    requires 0 < stake && r < |w| && Fairness.Equal(w, stake) && Fairness.MidRound(p, |w|, stake, r)
    requires |w| * stake < TWO63
    ensures Winner64(p, w) == Winner(p, w) && Step64(p, w) == Step(p, w)
  {
    var n, up := |w|, Raise(p, w);
    TotalConstant(w, n, stake);
    forall i | 0 <= i < n ensures 0 - TWO63 < up[i] < TWO63 && Int64(up[i]) == up[i] {
      Fairness.OneMore(r, stake);
      MulMono(stake, r + 1, n);
      assert 0 <= r * stake;
    }
    assert Raise64(p, w) == up;
    var k := Winner(p, w);
    if k >= 0 {
      Fairness.EqualStep(w, stake, p, r);
      assert up[r] == (r + 1) * stake;
      assert Int64(up[k] - Total(w)) == up[k] - Total(w);
    }
  }

  lemma {:induction false} EqualNeverOverflows(w: seq<nat>, stake: nat, t: nat)
    requires 0 < stake && 0 < |w| && Fairness.Equal(w, stake) && |w| * stake < TWO63
    ensures After64(|w|, Repeat(w, t)) == Fairness.Run(w, t)
  {
    hide Step, Step64, Winner, Winner64, Fairness.MidRound;
    if t == 0 {
      RepeatNone(w);
    } else {
      EqualNeverOverflows(w, stake, t - 1);
      Fairness.EqualStakes(w, stake, t - 1);
      MidRoundFits(w, stake, Fairness.Run(w, t - 1), (t - 1) % |w|);
      RepeatMore(w, t - 1);
    }
  }

  /** The same weights for t heights. */
  ghost function Repeat(w: seq<nat>, t: nat): (ws: seq<seq<nat>>)
    ensures |ws| == t && Sized(|w|, ws) && forall i | 0 <= i < t :: ws[i] == w
  {
    if t == 0 then [] else Repeat(w, t - 1) + [w]
  }

  /** Whether anyone can win depends on the weights alone. */
  lemma NoStakeNoWinner(p: seq<int>, q: seq<int>, w: seq<nat>)
    requires |p| == |q| == |w| && Winner64(p, w) < 0
    ensures Winner64(q, w) < 0
  {
  }

  lemma RepeatNone(w: seq<nat>)
    ensures After64(|w|, Repeat(w, 0)) == Zeros(|w|)
  {
  }

  lemma RepeatMore(w: seq<nat>, t: nat)
    ensures After64(|w|, Repeat(w, t + 1)) == Step64(After64(|w|, Repeat(w, t)), w)
  {
    assert Repeat(w, t + 1)[..t] == Repeat(w, t);
  }
}
