/** The running election over heights on which nothing is slashed or healed:
    the accumulator's bounds, carried to every node of every run. */
module SlashFree {
  import opened Wrappers
  import opened Words
  import opened Sums
  import opened Types
  import opened Ledger
  import opened Accumulator
  import opened AccumulatorBounds
  import opened Elections
  import Consensus
  import Invariants

  /** The election after heights entered with these committed bonds, in turn. */
  ghost function Heights(e: ElectionView, ds: seq<Bonds>): (r: ElectionView)
    requires e.Valid()
    ensures r.Valid() && r.addresses == e.addresses && r.origStake == e.origStake
  {
    if ds == [] then e else Next(Enter(Heights(e, ds[..|ds| - 1]), {}, {}, ds[|ds| - 1]))
  }

  ghost predicate Unslashed(e: ElectionView)
    requires e.Valid()
  {
    forall i | 0 <= i < |e.slashed| :: !e.slashed[i]
  }

  /** The weights each of those heights is run with. */
  ghost function WeightsAt(e: ElectionView, ds: seq<Bonds>): (ws: seq<seq<nat>>)
    requires e.Valid()
    ensures |ws| == |ds| && Sized(|e.addresses|, ws)
    ensures forall t | 0 <= t < |ds| :: ws[t] == Weights(Sync(e, ds[t]))
  {
    seq(|ds|, t requires 0 <= t < |ds| => Weights(Sync(e, ds[t])))
  }

  /** An election with members and a zero accumulator. */
  ghost predicate Fresh(e: ElectionView) {
    e.Valid() && 0 < |e.addresses| && e.priorities == Zeros(|e.addresses|)
  }

  /** Whoever has weight keeps some, and no height's total exceeds tmax, which
      times 1 + 1/2 + ... + 1/n fits an int64. */
  ghost predicate Within(e: ElectionView, ds: seq<Bonds>, tmax: nat)
    requires e.Valid()
  {
    Lasting(|e.addresses|, WeightsAt(e, ds), tmax) && tmax as real * Harmonic(1, |e.addresses|) < TWO63 as real
  }

  /** No stake and bonds together overflow a word. */
  ghost predicate WordsFit(e: ElectionView, d: Bonds)
    requires e.Valid()
  {
    forall i | 0 <= i < |e.addresses| :: e.origStake[i] + DelegatedTo(d, e.addresses[i]) < TWO64
  }

  /** Positive self-stakes are enough for that, however delegations change. */
  lemma PositiveStakesLast(e: ElectionView, ds: seq<Bonds>, tmax: nat)
    requires Fresh(e) && Unslashed(e) && 0 < tmax && forall i | 0 <= i < |e.origStake| :: 0 < e.origStake[i]
    requires forall t | 0 <= t < |ds| :: WordsFit(e, ds[t]) && Total(Weights(Sync(e, ds[t]))) <= tmax
    ensures Lasting(|e.addresses|, WeightsAt(e, ds), tmax)
    ensures forall t, i | 0 <= t < |ds| && 0 <= i < |e.addresses| :: 0 < WeightsAt(e, ds)[t][i]
  {
    hide Total, DelegatedTo;
    var ws := WeightsAt(e, ds);
    forall t | 0 <= t < |ws| ensures 0 < Total(ws[t]) && forall i | 0 <= i < |e.addresses| :: 0 < ws[t][i] {
      assert WordsFit(e, ds[t]);
      EntryAtMostTotal(ws[t], |ws[t]|, 0);
      TotalIs(ws[t]);
    }
  }

  /** Priorities of n members that sum to zero within the harmonic bounds. */
  ghost predicate Bounded(p: seq<int>, n: nat, tmax: nat) {
    && |p| == n && Total(p) == 0
    && forall i | 0 <= i < n :: 0 - tmax < p[i] && p[i] as real <= tmax as real * Harmonic(2, n)
  }

  lemma EnterQuietly(e: ElectionView, d: Bonds)
    requires e.Valid()
    ensures Enter(e, {}, {}, d) == Sync(e, d)
  {
    hide Sync;
    var s := SlashAll(e, {});
    assert s.slashed == e.slashed;
    var r := RestoreAll(s, {});
    assert r.slashed == e.slashed && r.priorities == e.priorities;
  }

  /** The running election is the 64-bit accumulator over those weights. */
  lemma {:induction false} HeightsAccumulate(e: ElectionView, ds: seq<Bonds>)
    requires Fresh(e)
    ensures Heights(e, ds).slashed == e.slashed
    ensures Heights(e, ds).priorities == After64(|e.addresses|, WeightsAt(e, ds))
  {
    hide Enter, Sync, Weights, Step64;
    if ds == [] {
      assert WeightsAt(e, ds) == [];
    } else {
      var init, d := ds[..|ds| - 1], ds[|ds| - 1];
      HeightsAccumulate(e, init);
      OneHeight(e, Heights(e, init), d);
      assert WeightsAt(e, ds)[..|ds| - 1] == WeightsAt(e, init);
    }
  }

  lemma OneHeight(e: ElectionView, h: ElectionView, d: Bonds)
    requires e.Valid() && h.Valid()
    requires h.addresses == e.addresses && h.origStake == e.origStake && h.slashed == e.slashed
    ensures
      var r := Next(Enter(h, {}, {}, d));
      r.slashed == e.slashed && r.priorities == Step64(h.priorities, Weights(Sync(e, d)))
  {
    hide Step64, Enter;
    EnterQuietly(h, d);
    assert Weights(Sync(h, d)) == Weights(Sync(e, d));
  }

  /** Over slash-free heights with arbitrary changes of delegation: priorities sum
      to zero, each stays above -tmax and at or below tmax * (1/2 + ... + 1/n),
      and int64 never wraps. */
  lemma SlashFreeBounds(e: ElectionView, ds: seq<Bonds>, tmax: nat)
    requires Fresh(e) && Within(e, ds, tmax)
    ensures
      var n, p := |e.addresses|, Heights(e, ds).priorities;
      p == After(n, WeightsAt(e, ds)) && Bounded(p, n, tmax)
  {
    hide Total, Heights, After, After64, WeightsAt, Harmonic, Lasting;
    var n, ws := |e.addresses|, WeightsAt(e, ds);
    HeightsAccumulate(e, ds);
    NeverOverflows(n, ws, tmax);
    AboveFloor(n, ws, tmax);
    forall i | 0 <= i < n ensures After(n, ws)[i] as real <= tmax as real * Harmonic(2, n) {
      PriorityBounds(n, ws, tmax, i);
    }
  }

  /** Who a height entered with these bonds elects. */
  ghost function ElectedNext(e: ElectionView, d: Bonds): Option<Address>
    requires e.Valid()
  {
    Elected(Enter(e, {}, {}, d))
  }

  /** The running election elects the accumulator's winner. */
  lemma ElectsWinner(e: ElectionView, ds: seq<Bonds>, tmax: nat, t: nat)
    requires Fresh(e) && Within(e, ds, tmax) && t < |ds|
    ensures
      var k := Winner(After(|e.addresses|, WeightsAt(e, ds)[..t]), WeightsAt(e, ds)[t]);
      && 0 <= k < |e.addresses|
      && ElectedNext(Heights(e, ds[..t]), ds[t]) == Some(e.addresses[k])
  {
    hide Total, After, After64, Harmonic, Winner, Winner64, Step, Step64, Lasting, Heights, Sync, Weights, ElectedNext;
    var n, ws := |e.addresses|, WeightsAt(e, ds);
    assert WeightsAt(e, ds[..t]) == ws[..t];
    assert ws[..t + 1][..t] == ws[..t];
    LastingPrefix(n, ws, tmax, t);
    LastingPrefix(n, ws, tmax, t + 1);
    LastingTotal(n, ws, tmax, t);
    NeverOverflows(n, ws[..t], tmax);
    NextFits(n, ws[..t + 1], tmax);
    SomeWinner(After(n, ws[..t]), ws[t]);
    HeightsAccumulate(e, ds[..t]);
    ElectsByWeights(e, Heights(e, ds[..t]), ds[t]);
  }

  lemma ElectsByWeights(e: ElectionView, h: ElectionView, d: Bonds)
    requires e.Valid() && h.Valid() && h.addresses == e.addresses && h.origStake == e.origStake
             && h.slashed == e.slashed
    ensures
      var k := Winner64(h.priorities, Weights(Sync(e, d)));
      ElectedNext(h, d) == if k < 0 then None else Some(e.addresses[k])
  {
    hide Winner64;
    EnterQuietly(h, d);
    assert Weights(Sync(h, d)) == Weights(Sync(e, d));
  }

  lemma LastingTotal(n: nat, ws: seq<seq<nat>>, tmax: nat, t: nat)
    requires Lasting(n, ws, tmax) && t < |ws|
    ensures |ws[t]| == n && 0 < Total(ws[t]) <= tmax
  {
    hide Total;
  }

  /** Over the last m of these heights member i had at least this weight and was
      not elected. */
  ghost predicate PassedOver(e: ElectionView, ds: seq<Bonds>, i: nat, m: nat, weight: nat)
    requires e.Valid() && i < |e.addresses| && m <= |ds|
  {
    forall t | |ds| - m <= t < |ds| ::
      ElectedNext(Heights(e, ds[..t]), ds[t]) != Some(e.addresses[i]) && weight <= WeightsAt(e, ds)[t][i]
  }

  /** No member of weight at least w is passed over for as long as
      tmax * (1 + 1/2 + ... + 1/n) / w heights in a row. */
  lemma ElectionWaits(e: ElectionView, ds: seq<Bonds>, tmax: nat, i: nat, m: nat, weight: nat)
    requires Fresh(e) && Within(e, ds, tmax) && i < |e.addresses| && m <= |ds| && PassedOver(e, ds, i, m, weight)
    ensures (m * weight) as real < tmax as real * Harmonic(1, |e.addresses|)
  {
    hide Total, After, Harmonic, Winner, Lasting, Heights, ElectedNext, Weights;
    var n, ws := |e.addresses|, WeightsAt(e, ds);
    forall t | |ws| - m <= t < |ws| ensures Winner(After(n, ws[..t]), ws[t]) != i && weight <= ws[t][i] {
      ElectsWinner(e, ds, tmax, t);
    }
    LongestWait(n, ws, tmax, i, m, weight);
  }

  // ----- on every node of every run -----

  /** The bonds node n entered its first k heights with. */
  ghost function BondsSeen(n: Consensus.Node, k: nat): (ds: seq<Bonds>)
    requires k <= |n.views|
    ensures |ds| == k && forall t | 0 <= t < k :: ds[t] == n.views[t].ledger.delegations
  {
    seq(k, t requires 0 <= t < k => n.views[t].ledger.delegations)
  }

  ghost predicate NothingFired(n: Consensus.Node, k: nat)
    requires k <= |n.views|
  {
    forall t | 0 <= t < k :: n.views[t].offenders == {} && n.views[t].healed == {}
  }

  lemma {:induction false} NodeRunsHeights(cfg: Consensus.Config, n: Consensus.Node, k: nat)
    requires cfg.Valid() && k <= |n.views| <= |n.commits| + 1 && Invariants.ViewsFollow(cfg, n) && NothingFired(n, k)
    ensures Consensus.ElectionAt(cfg, n, k) == Heights(Consensus.FirstElection(cfg), BondsSeen(n, k))
  {
    hide Enter, Next, Elected, Consensus.FirstElection, Invariants.ViewOk;
    if k > 0 {
      NodeRunsHeights(cfg, n, k - 1);
      assert BondsSeen(n, k)[..k - 1] == BondsSeen(n, k - 1);
      assert Invariants.ViewOk(cfg, n, k - 1);
      ViewElection(cfg, n, k - 1);
    }
  }

  lemma ViewElection(cfg: Consensus.Config, n: Consensus.Node, k: nat)
    requires cfg.Valid() && k < |n.views| && k <= |n.commits| && Invariants.ViewOk(cfg, n, k)
    ensures
      var v, before := n.views[k], Consensus.ElectionAt(cfg, n, k);
      before.Valid() && v.election == Next(Enter(before, v.offenders, v.healed, v.ledger.delegations))
  {
    hide Enter, Next, Elected;
  }

  /** In every run, on every node, as long as nothing has been slashed there, the
      election the node uses stays within the accumulator's bounds. */
  lemma RunsStayBounded(cfg: Consensus.Config, events: seq<Consensus.Event>, i: nat, k: nat, tmax: nat)
    requires cfg.Valid() && Fresh(Consensus.FirstElection(cfg))
    requires i < |Consensus.After(cfg, events).nodes| && k <= |Consensus.After(cfg, events).nodes[i].views|
    requires NothingFired(Consensus.After(cfg, events).nodes[i], k)
    requires Within(Consensus.FirstElection(cfg), BondsSeen(Consensus.After(cfg, events).nodes[i], k), tmax)
    ensures
      var e := Consensus.ElectionAt(cfg, Consensus.After(cfg, events).nodes[i], k);
      Bounded(e.priorities, |e.addresses|, tmax)
  {
    hide Consensus.After, Heights, Fresh, Within, Bounded, Invariants.SystemOk, Invariants.ViewsFollow, NothingFired,
         Consensus.FirstElection, Consensus.ElectionAt;
    var s := Consensus.After(cfg, events);
    Invariants.AlwaysOk(cfg, events);
    ViewsOf(cfg, s, i);
    NodeRunsHeights(cfg, s.nodes[i], k);
    SlashFreeBounds(Consensus.FirstElection(cfg), BondsSeen(s.nodes[i], k), tmax);
  }

  /** Who views say was elected is who the election over those bonds elects. */
  lemma ViewElected(cfg: Consensus.Config, n: Consensus.Node, k: nat)
    requires cfg.Valid() && k < |n.views| <= |n.commits| + 1 && Invariants.ViewsFollow(cfg, n) && NothingFired(n, k + 1)
    ensures
      var e := Consensus.FirstElection(cfg);
      ElectedNext(Heights(e, BondsSeen(n, k)), n.views[k].ledger.delegations) == Some(n.views[k].elected)
  {
    hide Enter, Next, Elected, Consensus.FirstElection, Heights;
    NodeRunsHeights(cfg, n, k);
    assert Invariants.ViewOk(cfg, n, k);
  }

  /** In every run, on every node, while nothing has been slashed there: a
      validator of weight at least w is not passed over for as long as
      tmax * (1 + 1/2 + ... + 1/n) / w heights in a row. */
  lemma NobodyStarves(cfg: Consensus.Config, events: seq<Consensus.Event>, j: nat, tmax: nat, i: nat, m: nat,
                      weight: nat)
    requires cfg.Valid() && Fresh(Consensus.FirstElection(cfg)) && i < |cfg.validators|
    requires j < |Consensus.After(cfg, events).nodes| && m <= |Consensus.After(cfg, events).nodes[j].views|
    requires
      var n := Consensus.After(cfg, events).nodes[j];
      var ds := BondsSeen(n, |n.views|);
      && NothingFired(n, |n.views|) && Within(Consensus.FirstElection(cfg), ds, tmax)
      && forall t | |n.views| - m <= t < |n.views| ::
           n.views[t].elected != cfg.validators[i].address
             && weight <= WeightsAt(Consensus.FirstElection(cfg), ds)[t][i]
    ensures (m * weight) as real < tmax as real * Harmonic(1, |cfg.validators|)
  {
    hide Consensus.After, Heights, Within, Harmonic, Invariants.SystemOk, Invariants.ViewsFollow, ElectedNext, Weights;
    var s := Consensus.After(cfg, events);
    Invariants.AlwaysOk(cfg, events);
    ViewsOf(cfg, s, j);
    var n, e := s.nodes[j], Consensus.FirstElection(cfg);
    var ds := BondsSeen(n, |n.views|);
    forall t | |ds| - m <= t < |ds|
      ensures ElectedNext(Heights(e, ds[..t]), ds[t]) != Some(e.addresses[i]) && weight <= WeightsAt(e, ds)[t][i]
    {
      ViewElected(cfg, n, t);
      assert ds[..t] == BondsSeen(n, t);
      assert e.addresses[i] == cfg.validators[i].address;
    }
    ElectionWaits(e, ds, tmax, i, m, weight);
  }

  lemma ViewsOf(cfg: Consensus.Config, s: Consensus.System, i: nat)
    requires cfg.Valid() && Invariants.SystemOk(cfg, s) && i < |s.nodes|
    ensures |s.nodes[i].views| <= |s.nodes[i].commits| + 1 && Invariants.ViewsFollow(cfg, s.nodes[i])
  {
    hide Invariants.ViewsFollow, Invariants.CommitsBacked, Invariants.TallyExact, Invariants.StashSent;
    assert Invariants.NodeOk(cfg, s.bus, i, s.nodes[i]);
  }
}
