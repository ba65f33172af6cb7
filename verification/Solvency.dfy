/** While all there can ever be fits a word, no reward panics and every height has
    a weight that can be counted. */
module Solvency {
  import opened Wrappers
  import opened Words
  import opened Sums
  import opened Types
  import opened Ledger
  import opened Supply
  import opened Chains
  import opened Elections
  import opened Consensus
  import opened Invariants
  import opened Agreement

  // ----- all bonds behind some validators -----

  /** The sum of the bonds behind each of these validators. */
  ghost function BackedTo(d: Bonds, addresses: seq<Address>, n: nat): nat
    requires n <= |addresses|
  {
    if n == 0 then 0 else BackedTo(d, addresses, n - 1) + Sum(BackersOf(d, addresses[n - 1]))
  }

  /** The same sum over one delegator's bonds. */
  ghost function GetsTo(inner: map<Address, nat>, addresses: seq<Address>, n: nat): nat
    requires n <= |addresses|
  {
    if n == 0 then 0 else GetsTo(inner, addresses, n - 1) + Get(inner, addresses[n - 1])
  }

  lemma {:induction false} GetsWithout(inner: map<Address, nat>, addresses: seq<Address>, n: nat, a: Address)
    requires n <= |addresses| && a !in addresses[..n]
    ensures GetsTo(inner, addresses, n) == GetsTo(inner - {a}, addresses, n)
  {
    if n > 0 {
      assert addresses[n - 1] in addresses[..n];
      assert addresses[..n - 1] <= addresses[..n];
      GetsWithout(inner, addresses, n - 1, a);
    }
  }

  lemma {:induction false} GetsWithinSum(inner: map<Address, nat>, addresses: seq<Address>, n: nat)
    requires n <= |addresses| && Distinct(addresses)
    ensures GetsTo(inner, addresses, n) <= Sum(inner)
  {
    hide Sum;
    if n > 0 {
      var a := addresses[n - 1];
      GetsWithout(inner, addresses, n - 1, a);
      GetsWithinSum(inner - {a}, addresses, n - 1);
      SumDrop(inner, a);
    }
  }

  lemma {:induction false} BackedWithout(d: Bonds, addresses: seq<Address>, n: nat, x: Address)
    requires n <= |addresses| && x in d
    ensures BackedTo(d, addresses, n) == BackedTo(d - {x}, addresses, n) + GetsTo(d[x], addresses, n)
  {
    hide Sum, BackersOf;
    if n > 0 {
      BackedWithout(d, addresses, n - 1, x);
      OneDelegator(d, addresses[n - 1], x);
    }
  }

  lemma OneDelegator(d: Bonds, validator: Address, x: Address)
    requires x in d
    ensures Sum(BackersOf(d, validator)) == Sum(BackersOf(d - {x}, validator)) + Get(d[x], validator)
  {
    hide Sum;
    assert BackersOf(d, validator) - {x} == BackersOf(d - {x}, validator);
    SumDrop(BackersOf(d, validator), x);
  }

  lemma {:induction false} NothingBacked(addresses: seq<Address>, n: nat)
    requires n <= |addresses|
    ensures BackedTo(map[], addresses, n) == 0
  {
    hide Sum;
    if n > 0 {
      NothingBacked(addresses, n - 1);
      assert BackersOf(map[], addresses[n - 1]) == map[];
      SumEmpty<Address>();
    }
  }

  /** Bonds behind distinct validators are counted once each. */
  lemma {:induction false} BackedWithinTotals(d: Bonds, addresses: seq<Address>)
    requires Distinct(addresses)
    ensures BackedTo(d, addresses, |addresses|) <= Sum(Totals(d))
    decreases |d|
  {
    hide Sum, BackersOf;
    if d == map[] {
      NothingBacked(addresses, |addresses|);
    } else {
      var x :| x in d;
      BackedWithinTotals(d - {x}, addresses);
      BackedWithout(d, addresses, |addresses|, x);
      GetsWithinSum(d[x], addresses, |addresses|);
      assert Totals(d) - {x} == Totals(d - {x});
      SumRemove(Totals(d), x);
    }
  }

  // ----- weights -----

  /** Nobody slashed, delegations as in the ledger. */
  ghost predicate Plain(e: ElectionView, d: Bonds) {
    && e.Valid() && e.delegated == Synced(d, e.addresses)
    && forall i | 0 <= i < |e.slashed| :: !e.slashed[i]
  }

  lemma {:induction false} WeightsBetween(e: ElectionView, d: Bonds, n: nat)
    requires Plain(e, d) && n <= |e.addresses|
    requires forall i | 0 <= i < n :: e.origStake[i] + Sum(BackersOf(d, e.addresses[i])) < TWO64
    ensures TotalTo(Weights(e), n) == TotalTo(e.origStake, n) + BackedTo(d, e.addresses, n)
  {
    hide Sum, BackersOf;
    if n > 0 {
      WeightsBetween(e, d, n - 1);
    }
  }

  /** Stakes and supply together bound a height's total weight, from both sides. */
  lemma TotalWeight(e: ElectionView, d: Bonds)
    requires Plain(e, d) && Total(e.origStake) + Sum(Totals(d)) < TWO64
    ensures Total(e.origStake) <= Total(Weights(e)) <= Total(e.origStake) + Sum(Totals(d))
  {
    hide Sum, BackersOf, Totals;
    var n := |e.addresses|;
    forall i | 0 <= i < n ensures e.origStake[i] + Sum(BackersOf(d, e.addresses[i])) < TWO64 {
      EntryAtMostTotal(e.origStake, n, i);
      BackersWithinTotals(d, e.addresses[i]);
    }
    TotalIs(e.origStake);
    TotalIs(Weights(e));
    WeightsBetween(e, d, n);
    BackedWithinTotals(d, e.addresses);
  }

  // ----- rewards -----

  lemma {:induction false} OnlyTransactionsFail(s: State, txs: seq<Transaction>)
    requires ApplyTxs(s, txs).Failure?
    ensures ApplyTxs(s, txs).error.TxFailed?
  {
    hide ApplyTx;
    if txs != [] && ApplyTxs(s, txs[..|txs| - 1]).Failure? {
      OnlyTransactionsFail(s, txs[..|txs| - 1]);
    }
  }

  /** While supply and one more reward fit, no block's reward panics. */
  lemma RewardsNeverPanic(s: State, b: Block)
    requires Fits(s, BLOCK_REWARD)
    ensures Apply(s, b) != Failure(RewardPanic)
  {
    hide ApplyTxs, DistributeReward, Sum, BackersOf, TrueSupply;
    if ApplyTxs(s, b.transactions).Failure? {
      OnlyTransactionsFail(s, b.transactions);
    } else {
      var mid := ApplyTxs(s, b.transactions).value;
      var k := ApplyTxsSupply(s, b.transactions);
      ApplyTxsKeepBase(s, b.transactions);
      BackersWithinSupply(mid, b.header.proposer);
      RewardSplit(mid, b.header.proposer);
    }
  }

  // ----- over a run -----

  /** Someone has stake; three times all stakes and all the supply there can be
      after these many heights fit a word, and so does any one validator's reward
      base on top of that supply. */
  ghost predicate Sustains(cfg: Config, heights: nat)
    requires cfg.Valid()
  {
    && 0 < Total(Stakes(cfg.validators))
    && Fits(cfg.base.state, heights * BLOCK_REWARD)
    && 3 * (Total(Stakes(cfg.validators)) + TrueSupply(cfg.base.state) + heights * BLOCK_REWARD) < TWO64
  }

  /** The ledger before the k-th height holds at most k rewards more than the first. */
  ghost predicate Grown(cfg: Config, s: State, k: nat) {
    TrueSupply(s) <= TrueSupply(cfg.base.state) + k * BLOCK_REWARD && s.validatorBase == cfg.base.state.validatorBase
  }

  lemma GrownFits(cfg: Config, s: State, k: nat, heights: nat)
    requires cfg.Valid() && Sustains(cfg, heights) && Grown(cfg, s, k) && k < heights
    ensures Fits(s, BLOCK_REWARD)
  {
    hide TrueSupply, Stakes, Total;
    MulMono(BLOCK_REWARD, k + 1, heights);
  }

  lemma OneBlockMore(tip: Header, s: State, b: Block)
    requires CheckAgainst(tip, s, b).Success? && Fits(s, BLOCK_REWARD)
    ensures
      var r := CheckAgainst(tip, s, b).value;
      TrueSupply(r) <= TrueSupply(s) + BLOCK_REWARD && r.validatorBase == s.validatorBase
  {
    hide TrueSupply, Apply, VerifyFrom;
    var k := ApplySupply(s, b);
  }

  lemma {:induction false} LedgerGrown(cfg: Config, s: System, i: nat, k: nat, heights: nat)
    requires cfg.Valid() && SystemOk(cfg, s) && Sustains(cfg, heights)
    requires i < |s.nodes| && k <= |s.nodes[i].commits| && k <= heights
    ensures Grown(cfg, LedgerAt(cfg, s.nodes[i], k), k)
  {
    hide SystemOk, Sustains, TrueSupply, CheckAgainst, TipAt;
    if k > 0 {
      LedgerGrown(cfg, s, i, k - 1, heights);
      GrownFits(cfg, LedgerAt(cfg, s.nodes[i], k - 1), k - 1, heights);
      CommitChecked(cfg, s, i, k - 1);
      OneBlockMore(TipAt(cfg, s.nodes[i], k - 1), LedgerAt(cfg, s.nodes[i], k - 1), s.nodes[i].commits[k - 1].block);
    }
  }

  /** At every height below the last, an unslashed election has weight, and three
      times its total fits. */
  lemma HeightCounts(cfg: Config, e: ElectionView, s: State, k: nat, heights: nat)
    requires cfg.Valid() && Sustains(cfg, heights) && Grown(cfg, s, k) && k < heights
    requires Plain(e, s.delegations) && e.origStake == Stakes(cfg.validators)
    ensures 0 < Total(Weights(e)) && 3 * Total(Weights(e)) < TWO64
  {
    hide Weights, Stakes, Total, Sum, Plain;
    MulMono(BLOCK_REWARD, k, heights);
    TotalWeight(e, s.delegations);
  }
}
