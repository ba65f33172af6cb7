/** What an elected node proposes, and why every node on the same chain accepts it. */
module Proposals {
  import opened Wrappers
  import opened Types
  import opened Ledger
  import opened LedgerObjects
  import opened Chains
  import Merkle

  /** The transactions that apply, in order, each against the state left by those
      kept before it, and that final state. */
  function Filtered(s: State, txs: seq<Transaction>): (seq<Transaction>, State) {
    if txs == [] then ([], s) else
      var (kept, end) := Filtered(s, txs[..|txs| - 1]);
      var tx := txs[|txs| - 1];
      match ApplyTx(end, tx)
      case Success(next) => (kept + [tx], next)
      case Failure(_) => (kept, end)
  }

  function Applicable(s: State, txs: seq<Transaction>): seq<Transaction> {
    Filtered(s, txs).0
  }

  /** Everything kept applies together; nothing is dropped from a list that
      already does. */
  lemma {:induction false} ApplicableApplies(s: State, txs: seq<Transaction>)
    ensures ApplyTxs(s, Applicable(s, txs)) == Success(Filtered(s, txs).1)
    ensures ApplyTxs(s, txs).Success? ==> Applicable(s, txs) == txs
  {
    hide ApplyTx;
    if txs != [] {
      var init, tx := txs[..|txs| - 1], txs[|txs| - 1];
      ApplicableApplies(s, init);
      var kept := Applicable(s, init);
      assert (kept + [tx])[..|kept|] == kept;
      assert init + [tx] == txs;
    }
  }

  function Propose(tip: Header, s: State, height: int, self: Validator, now: int, drained: seq<Transaction>): Block {
    var txs := Applicable(s, drained);
    var header := Header(Merkle.Root(txs), HeaderHash(tip), now, height, map[], map[], self.address);
    Block(header, txs, Sign(self.key, BlockPayload(HeaderHash(header))))
  }

  /** A block acceptable but for a reward whose arithmetic panics. */
  ghost predicate Acceptable(tip: Header, s: State, b: Block) {
    var r := CheckAgainst(tip, s, b);
    r.Success? || r == Failure(CannotApply(RewardPanic))
  }

  /** An honest proposal passes every check on every node with the same tip
      header and state; only the reward arithmetic can still fail, and it does
      exactly when mulDiv would panic. */
  lemma ProposalAcceptable(tip: Header, s: State, self: Validator, now: int, drained: seq<Transaction>)
    requires self.WellFormed()
    ensures
      var b := Propose(tip, s, tip.height + 1, self, now, drained);
      && Acceptable(tip, s, b)
      && b.header.height == tip.height + 1 && b.header.proposer == self.address
      && (CheckAgainst(tip, s, b).Success? <==> DistributeReward(Filtered(s, drained).1, self.address).Some?)
  {
    hide ApplyTxs, DistributeReward, Filtered, Merkle.Root, PubKeyFromAddress;
    ApplicableApplies(s, drained);
    AddressesNameSomeone(self.address);
  }

  lemma AddressesNameSomeone(a: Address)
    requires PubKeyFromAddress(a).Some?
    ensures a != ""
  {
  }

  /** The in-place filter: kept shares txs's array and never overtakes the read
      position. Returns how many transactions survive at its front. */
  method FilterInPlace(s: State, txs: array<Transaction>) returns (n: nat)
    modifies txs
    ensures n <= txs.Length
    ensures txs[..n] == Applicable(s, old(txs[..]))
  {
    hide ApplyTx;
    n := 0;
    if txs.Length == 0 {
      return;
    }
    var working := new LedgerState.Clone(s);
    ghost var all := txs[..];
    for i := 0 to txs.Length
      invariant n <= i
      invariant (txs[..n], working.View()) == Filtered(s, all[..i])
      invariant txs[i..] == all[i..]
      invariant fresh(working)
    {
      assert all[..i + 1][..i] == all[..i];
      assert txs[i] == txs[i..][0] == all[i];
      var tx := txs[i];
      ghost var kept := txs[..n];
      var err := working.ApplyTransaction(tx);
      if err == None {
        txs[n] := tx;
        n := n + 1;
        assert txs[..n] == kept + [tx];
      }
      assert txs[i + 1..] == all[i + 1..];
    }
    assert all[..txs.Length] == all;
  }

  // ----- which transactions survive -----

  /** The transactions at these positions among the first n, in order. */
  ghost function Picked(txs: seq<Transaction>, at: set<int>, n: nat): seq<Transaction>
    requires n <= |txs|
  {
    if n == 0 then [] else Picked(txs, at, n - 1) + if n - 1 in at then [txs[n - 1]] else []
  }

  /** These are exactly the positions whose transaction applies to the state those
      picked before it leave. */
  ghost predicate Survive(s: State, txs: seq<Transaction>, at: set<int>) {
    && (forall i | i in at :: 0 <= i < |txs|)
    && forall i | 0 <= i < |txs| :: SurvivesAt(s, txs, at, i)
  }

  ghost predicate SurvivesAt(s: State, txs: seq<Transaction>, at: set<int>, i: nat)
    requires i < |txs|
  {
    var before := ApplyTxs(s, Picked(txs, at, i));
    before.Success? && (i in at <==> ApplyTx(before.value, txs[i]).Success?)
  }

  lemma {:induction false} PickedSame(txs: seq<Transaction>, ys: seq<Transaction>, at: set<int>, bt: set<int>, n: nat)
    requires n <= |txs| && n <= |ys| && txs[..n] == ys[..n] && forall i | 0 <= i < n :: i in at <==> i in bt
    ensures Picked(txs, at, n) == Picked(ys, bt, n)
  {
    if n > 0 {
      assert txs[n - 1] == txs[..n][n - 1] == ys[..n][n - 1];
      assert txs[..n - 1] == txs[..n][..n - 1] && ys[..n - 1] == ys[..n][..n - 1];
      PickedSame(txs, ys, at, bt, n - 1);
    }
  }

  /** Some positions do survive, and the filter keeps just those. */
  lemma {:induction false} SurvivorsKept(s: State, txs: seq<Transaction>) returns (at: set<int>)
    ensures Survive(s, txs, at) && Applicable(s, txs) == Picked(txs, at, |txs|)
  {
    hide ApplyTx;
    if txs == [] {
      at := {};
    } else {
      var last, init := |txs| - 1, txs[..|txs| - 1];
      var was := SurvivorsKept(s, init);
      ApplicableApplies(s, init);
      var end := Filtered(s, init).1;
      at := if ApplyTx(end, txs[last]).Success? then was + {last} else was;
      forall i | 0 <= i <= last ensures Picked(txs, at, i) == Picked(init, was, i) {
        PickedSame(txs, init, at, was, i);
      }
      forall i | 0 <= i < |txs| ensures SurvivesAt(s, txs, at, i) {
        if i < last {
          assert SurvivesAt(s, init, was, i);
        }
      }
    }
  }

  /** There is only one such set of positions. */
  lemma {:induction false} SurvivorsUnique(s: State, txs: seq<Transaction>, at: set<int>, bt: set<int>, n: nat)
    requires Survive(s, txs, at) && Survive(s, txs, bt) && n <= |txs|
    ensures forall i | 0 <= i < n :: i in at <==> i in bt
  {
    hide ApplyTx;
    if n > 0 {
      SurvivorsUnique(s, txs, at, bt, n - 1);
      PickedSame(txs, txs, at, bt, n - 1);
      assert SurvivesAt(s, txs, at, n - 1) && SurvivesAt(s, txs, bt, n - 1);
    }
  }

  /** What the filter keeps is exactly what applies: every drained transaction that
      applies after those kept before it, and no other, in order; a bad one costs
      only itself. */
  lemma FilterExact(s: State, txs: seq<Transaction>)
    ensures exists at :: Survive(s, txs, at)
    ensures forall at | Survive(s, txs, at) :: Applicable(s, txs) == Picked(txs, at, |txs|)
  {
    hide Survive, Applicable;
    var some := SurvivorsKept(s, txs);
    forall at | Survive(s, txs, at) ensures Applicable(s, txs) == Picked(txs, at, |txs|) {
      SurvivorsUnique(s, txs, some, at, |txs|);
      PickedSame(txs, txs, some, at, |txs|);
    }
  }

  /** A proposal carries exactly those, names its maker and time, and nothing else. */
  lemma ProposalCarries(tip: Header, s: State, height: int, self: Validator, now: int, drained: seq<Transaction>,
                        at: set<int>)
    requires Survive(s, drained, at)
    ensures
      var b := Propose(tip, s, height, self, now, drained);
      && b.transactions == Picked(drained, at, |drained|)
      && b.header.height == height && b.header.createdAt == now && b.header.proposer == self.address
      && b.header.alloc == map[] && b.header.validators == map[]
  {
    hide Survive, Picked, Applicable;
    FilterExact(s, drained);
  }
}
