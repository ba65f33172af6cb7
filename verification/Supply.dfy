/** Conservation: how the block reward is split, and what whole chains mint. */
module Supply {
  import opened Wrappers
  import opened Words
  import opened Sums
  import opened Types
  import opened Ledger

  // ----- the split -----

  lemma BoundedBySum(backers: map<Address, nat>, total: nat)
    requires Sum(backers) <= total
    ensures forall x | x in backers :: backers[x] <= total
  {
    forall x | x in backers ensures backers[x] <= total {
      GetAtMostSum(backers, x);
    }
  }

  /** The exact proportions, rounded down. */
  function Floors(backers: map<Address, nat>, total: nat): map<Address, nat>
    requires 0 < total
  {
    map x | x in backers :: BLOCK_REWARD * backers[x] / total
  }

  lemma SharesAreFloors(backers: map<Address, nat>, total: nat)
    requires 0 < total && forall x | x in backers :: backers[x] <= total
    ensures SharesDefined(backers, total) && Shares(backers, total) == Floors(backers, total)
  {
    forall x | x in backers
      ensures MulDiv(BLOCK_REWARD, backers[x], total) == Some(BLOCK_REWARD * backers[x] / total)
    {
      MulDivCallersSafe(BLOCK_REWARD, backers[x], total);
    }
  }

  /** Floor shares lose less than one unit each against the exact proportion. */
  lemma {:induction false} FloorBounds(backers: map<Address, nat>, total: nat)
    requires 0 < total
    ensures total * Sum(Floors(backers, total)) <= BLOCK_REWARD * Sum(backers)
         <= total * Sum(Floors(backers, total)) + (total - 1) * |backers|
    decreases |backers|
  {
    hide Sum;
    if backers == map[] {
      SumEmpty<Address>();
      assert Floors(backers, total) == map[];
    } else {
      var x :| x in backers;
      var rest := backers - {x};
      FloorBounds(rest, total);
      SumRemove(backers, x);
      SumRemove(Floors(backers, total), x);
      assert Floors(backers, total) - {x} == Floors(rest, total);
      assert |backers| == |rest| + 1;
      OneShare(total, Sum(backers), backers[x], Sum(rest), Sum(Floors(rest, total)), |rest|);
    }
  }

  lemma OneShare(total: nat, bonds: nat, bond: nat, others: nat, paid: nat, n: nat)
    requires 0 < total && bonds == bond + others
    requires total * paid <= BLOCK_REWARD * others <= total * paid + (total - 1) * n
    ensures
      var all := paid + BLOCK_REWARD * bond / total;
      total * all <= BLOCK_REWARD * bonds <= total * all + (total - 1) * (n + 1)
  {
    var q := BLOCK_REWARD * bond / total;
    Bounds(BLOCK_REWARD * bond, total);
    assert total * (paid + q) == total * paid + total * q;
    assert total * (q + 1) == total * q + total;
    assert (total - 1) * (n + 1) == (total - 1) * n + total - 1;
  }

  /** Where self-stake plus bonds fit a word, the split never panics, every
      backer gets the floor of its proportion, the shares never exceed the
      reward, and the proposer keeps its own proportion plus the rounding dust:
      less than one unit per backer. */
  lemma RewardSplit(s: State, proposer: Address)
    requires Get(s.validatorBase, proposer) + Sum(BackersOf(s.delegations, proposer)) < TWO64
    ensures DistributeReward(s, proposer).Some?
    ensures
      var own := Get(s.validatorBase, proposer);
      var backers := BackersOf(s.delegations, proposer);
      var total := own + Sum(backers);
      total == RewardWeight(s, proposer) &&
      (total > 0 ==>
         && SharesDefined(backers, total)
         && (forall x | x in backers :: Shares(backers, total)[x] == BLOCK_REWARD * backers[x] / total)
         && var dust := BLOCK_REWARD - Sum(Shares(backers, total));
            0 <= BLOCK_REWARD * own / total <= dust <= BLOCK_REWARD * own / total + |backers|)
  {
    hide Sum;
    var own := Get(s.validatorBase, proposer);
    var backers := BackersOf(s.delegations, proposer);
    var total := own + Sum(backers);
    if total > 0 {
      BoundedBySum(backers, total);
      SharesAreFloors(backers, total);
      FloorBounds(backers, total);
      Dust(own, Sum(backers), Sum(Shares(backers, total)), |backers|);
    }
  }

  lemma Dust(own: nat, bonds: nat, paid: nat, n: nat)
    requires own + bonds > 0
    requires (own + bonds) * paid <= BLOCK_REWARD * bonds <= (own + bonds) * paid + (own + bonds - 1) * n
    ensures 0 <= BLOCK_REWARD * own / (own + bonds) <= BLOCK_REWARD - paid <= BLOCK_REWARD * own / (own + bonds) + n
  {
    var total, dust := own + bonds, BLOCK_REWARD - paid;
    var q := BLOCK_REWARD * own / total;
    Bounds(BLOCK_REWARD * own, total);
    assert total * dust == BLOCK_REWARD * own + BLOCK_REWARD * bonds - total * paid;
    assert total * q <= total * dust;
    Cancel(total, q, dust);
    assert total * (q + 1 + n) == total * (q + 1) + total * n;
    assert (total - 1) * n <= total * n;
    assert total * dust < total * (q + 1 + n);
    CancelStrict(total, dust, q + 1 + n);
  }

  lemma Cancel(total: nat, a: int, b: int)
    requires 0 < total && total * a <= total * b
    ensures a <= b
  {
    if a > b {
      MulMono(total, b + 1, a);
    }
  }

  lemma CancelStrict(total: nat, a: int, b: int)
    requires 0 < total && total * a < total * b
    ensures a < b
  {
    if a >= b {
      MulMono(total, b, a);
    }
  }

  // ----- payment order -----

  function PayInOrder(balances: map<Address, nat>, order: seq<Address>, shares: map<Address, nat>): map<Address, nat>
    requires forall d | d in order :: d in shares
  {
    if order == [] then balances else
      var paid := PayInOrder(balances, order[..|order| - 1], shares);
      var d := order[|order| - 1];
      paid[d := Uint64(Get(paid, d) + shares[d])]
  }

  function Restrict(m: map<Address, nat>, keys: set<Address>): map<Address, nat> {
    map x | x in m && x in keys :: m[x]
  }

  lemma RestrictLast(order: seq<Address>, shares: map<Address, nat>)
    requires order != [] && order[|order| - 1] in shares && Distinct(order)
    ensures
      var init, d := order[..|order| - 1], order[|order| - 1];
      var paid := Restrict(shares, Elements(order));
      d in paid && paid[d] == shares[d] && paid - {d} == Restrict(shares, Elements(init))
  {
    hide Uint64;
    var init, d := order[..|order| - 1], order[|order| - 1];
    assert order == init + [d];
    assert d !in init;
  }

  /** Sorted or not, the payments come to the same balances. */
  lemma {:induction false} PaymentOrderIrrelevant(balances: map<Address, nat>, order: seq<Address>,
                                                  shares: map<Address, nat>)
    requires Distinct(order) && forall d | d in order :: d in shares
    ensures PayInOrder(balances, order, shares) == Credit(balances, Restrict(shares, Elements(order)))
  {
    hide Uint64, Credit, Restrict, Elements;
    if order == [] {
      PayNobody(balances, shares);
    } else {
      PaymentOrderIrrelevant(balances, order[..|order| - 1], shares);
      PayLast(balances, order, shares);
    }
  }

  lemma PayNobody(balances: map<Address, nat>, shares: map<Address, nat>)
    ensures Credit(balances, Restrict(shares, Elements([]))) == balances
  {
    assert Restrict(shares, Elements([])) == map[];
  }

  lemma PayLast(balances: map<Address, nat>, order: seq<Address>, shares: map<Address, nat>)
    requires order != [] && Distinct(order) && forall d | d in order :: d in shares
    ensures
      var init, d := order[..|order| - 1], order[|order| - 1];
      var paid := Credit(balances, Restrict(shares, Elements(init)));
      Credit(balances, Restrict(shares, Elements(order))) == paid[d := Uint64(Get(paid, d) + shares[d])]
  {
    hide Uint64;
    RestrictLast(order, shares);
    CreditOne(balances, Restrict(shares, Elements(order)), order[|order| - 1]);
  }

  // ----- what a block mints -----

  lemma SplitSupply(balances: map<Address, nat>, shares: map<Address, nat>, proposer: Address) returns (k: int)
    ensures
      var dust := Uint64(BLOCK_REWARD - Sum(shares));
      Sum(Credit(Credit(balances, shares), map[proposer := dust])) + k * TWO64 == Sum(balances) + BLOCK_REWARD
    ensures Sum(shares) <= BLOCK_REWARD ==> 0 <= k
  {
    hide Sum;
    var rest := BLOCK_REWARD - Sum(shares);
    var dust := Uint64(rest);
    k := CreditSupply(balances, shares);
    var j := CreditSupply(Credit(balances, shares), map[proposer := dust]);
    SumSingle(proposer, dust);
    k := k + j + rest / 0x1_0000_0000_0000_0000;
  }

  lemma RewardSupply(s: State, proposer: Address) returns (k: int)
    requires DistributeReward(s, proposer).Some?
    ensures TrueSupply(DistributeReward(s, proposer).value) + k * TWO64 == TrueSupply(s) + BLOCK_REWARD
    ensures Get(s.validatorBase, proposer) + Sum(BackersOf(s.delegations, proposer)) < TWO64 ==> 0 <= k
  {
    hide Sum;
    var paid := DistributeReward(s, proposer).value;
    k := RewardBalances(s, proposer);
    assert paid.delegations == s.delegations;
  }

  lemma RewardBalances(s: State, proposer: Address) returns (k: int)
    requires DistributeReward(s, proposer).Some?
    ensures Sum(DistributeReward(s, proposer).value.balances) + k * TWO64 == Sum(s.balances) + BLOCK_REWARD
    ensures Get(s.validatorBase, proposer) + Sum(BackersOf(s.delegations, proposer)) < TWO64 ==> 0 <= k
  {
    hide Sum, Uint64, Credit, SharesDefined, Shares;
    if RewardWeight(s, proposer) == 0 {
      SumSingle(proposer, BLOCK_REWARD);
      k := CreditSupply(s.balances, map[proposer := BLOCK_REWARD]);
    } else {
      k := SplitSupply(s.balances, Shares(BackersOf(s.delegations, proposer), RewardWeight(s, proposer)), proposer);
      if Get(s.validatorBase, proposer) + Sum(BackersOf(s.delegations, proposer)) < TWO64 {
        SharesWithinReward(s, proposer);
      }
    }
  }

  lemma SharesWithinReward(s: State, proposer: Address)
    requires Get(s.validatorBase, proposer) + Sum(BackersOf(s.delegations, proposer)) < TWO64
    requires 0 < RewardWeight(s, proposer)
    ensures SharesDefined(BackersOf(s.delegations, proposer), RewardWeight(s, proposer))
    ensures Sum(Shares(BackersOf(s.delegations, proposer), RewardWeight(s, proposer))) <= BLOCK_REWARD
  {
    RewardSplit(s, proposer);
  }

  function Mint(b: Block): nat {
    if b.header.proposer == "" then 0 else BLOCK_REWARD
  }

  function Minted(blocks: seq<Block>): nat {
    if blocks == [] then 0 else Minted(blocks[..|blocks| - 1]) + Mint(blocks[|blocks| - 1])
  }

  lemma {:induction false} ApplyTxsKeepBase(s: State, txs: seq<Transaction>)
    requires ApplyTxs(s, txs).Success?
    ensures ApplyTxs(s, txs).value.validatorBase == s.validatorBase
  {
    if txs != [] {
      ApplyTxsKeepBase(s, txs[..|txs| - 1]);
    }
  }

  /** The bonds behind one validator are part of the supply. */
  lemma BackersWithinSupply(s: State, validator: Address)
    ensures Sum(BackersOf(s.delegations, validator)) <= TrueSupply(s)
  {
    BackersWithinTotals(s.delegations, validator);
  }

  lemma {:induction false} BackersWithinTotals(d: Bonds, validator: Address)
    ensures Sum(BackersOf(d, validator)) <= Sum(Totals(d))
    decreases |d|
  {
    hide Sum;
    if d == map[] {
      SumEmpty<Address>();
      assert BackersOf(d, validator) == map[];
    } else {
      var x :| x in d;
      BackersWithinTotals(d - {x}, validator);
      assert BackersOf(d, validator) - {x} == BackersOf(d - {x}, validator);
      assert Totals(d) - {x} == Totals(d - {x});
      SumDrop(BackersOf(d, validator), x);
      SumRemove(Totals(d), x);
      GetAtMostSum(d[x], validator);
    }
  }

  /** Every word-sized quantity of the run fits: genesis supply, everything
      minted so far, and any one validator's self-stake on top. */
  ghost predicate Fits(s: State, minted: nat) {
    && TrueSupply(s) + minted < TWO64
    && forall v | v in s.validatorBase :: s.validatorBase[v] + TrueSupply(s) + minted < TWO64
  }

  lemma ApplySupply(s: State, b: Block) returns (k: int)
    requires Apply(s, b).Success?
    ensures TrueSupply(Apply(s, b).value) + k * TWO64 == TrueSupply(s) + Mint(b)
    ensures Fits(s, Mint(b)) ==> k == 0
    ensures Apply(s, b).value.validatorBase == s.validatorBase
  {
    hide Sum;
    k := ApplyTxsSupply(s, b.transactions);
    ApplyTxsKeepBase(s, b.transactions);
    if b.header.proposer != "" {
      var mid := ApplyTxs(s, b.transactions).value;
      var j := RewardSupply(mid, b.header.proposer);
      BackersWithinSupply(mid, b.header.proposer);
      k := k + j;
    }
  }

  lemma {:induction false} ReplaySupply(s: State, blocks: seq<Block>) returns (k: int)
    requires ReplayFrom(s, blocks).Success?
    ensures TrueSupply(ReplayFrom(s, blocks).value) + k * TWO64 == TrueSupply(s) + Minted(blocks)
    ensures Fits(s, Minted(blocks)) ==> k == 0
    ensures ReplayFrom(s, blocks).value.validatorBase == s.validatorBase
  {
    hide Sum;
    if blocks == [] {
      k := 0;
    } else {
      var init := blocks[..|blocks| - 1];
      k := ReplaySupply(s, init);
      var j := ApplySupply(ReplayFrom(s, init).value, blocks[|blocks| - 1]);
      k := k + j;
    }
  }

  /** A replayed chain's supply, as Supply() reports it, is its starting supply
      plus one reward per block that names a proposer. */
  lemma ReplayMintsWord(s: State, blocks: seq<Block>)
    requires ReplayFrom(s, blocks).Success?
    ensures Uint64(TrueSupply(ReplayFrom(s, blocks).value)) == Uint64(TrueSupply(s) + Minted(blocks))
  {
    hide Sum, Uint64, TrueSupply, ReplayFrom, Minted;
    var k := ReplaySupply(s, blocks);
    SameWord(TrueSupply(s) + Minted(blocks), TrueSupply(ReplayFrom(s, blocks).value), k);
  }

  lemma GenesisMints(blocks: seq<Block>)
    requires ReplayBlocks(blocks).Success?
    requires Fits(GenesisState(blocks[0]), Minted(blocks[1..]))
    ensures TrueSupply(ReplayBlocks(blocks).value) == Sum(blocks[0].header.alloc) + Minted(blocks[1..])
  {
    var k := ReplaySupply(GenesisState(blocks[0]), blocks[1..]);
    assert Totals(map[]) == map[];
  }

  // ----- the shape of the bonds -----

  ghost predicate NoEmptyInner(d: Bonds) {
    forall x | x in d :: d[x] != map[]
  }

  ghost predicate PositiveBonds(d: Bonds) {
    forall x, v | x in d && v in d[x] :: 0 < d[x][v]
  }

  lemma AddBondShape(d: Bonds, from: Address, to: Address, amount: nat)
    requires NoEmptyInner(d)
    ensures NoEmptyInner(AddBond(d, from, to, amount))
    ensures PositiveBonds(d) && 0 < amount && Bonded(d, from, to) + amount < TWO64 ==>
              PositiveBonds(AddBond(d, from, to, amount))
  {
    var inner := InnerOf(d, from);
    assert to in inner[to := Uint64(Get(inner, to) + amount)];
  }

  lemma DropBondShape(d: Bonds, from: Address, to: Address, amount: nat)
    requires NoEmptyInner(d) && 0 < amount <= Bonded(d, from, to)
    ensures NoEmptyInner(DropBond(d, from, to, amount))
    ensures PositiveBonds(d) ==> PositiveBonds(DropBond(d, from, to, amount))
  {
    var inner := d[from];
    assert to in inner[to := inner[to] - amount];
  }

  lemma ApplyTxBonds(s: State, tx: Transaction)
    requires ApplyTx(s, tx).Success? && NoEmptyInner(s.delegations)
    ensures NoEmptyInner(ApplyTx(s, tx).value.delegations)
    ensures PositiveBonds(s.delegations) && TrueSupply(s) < TWO64 ==> PositiveBonds(ApplyTx(s, tx).value.delegations)
  {
    match tx.kind
    case Transfer =>
      assert ApplyTx(s, tx).value.delegations == s.delegations;
    case Delegate =>
      AddBondShape(s.delegations, tx.from, tx.to, tx.amount);
      AddBondTotals(s.delegations, tx.from, tx.to, tx.amount);
      GetAtMostSum(s.balances, tx.from);
    case Undelegate =>
      DropBondShape(s.delegations, tx.from, tx.to, tx.amount);
  }

  lemma {:induction false} ApplyTxsBonds(s: State, txs: seq<Transaction>)
    requires ApplyTxs(s, txs).Success? && NoEmptyInner(s.delegations)
    ensures NoEmptyInner(ApplyTxs(s, txs).value.delegations)
    ensures PositiveBonds(s.delegations) && TrueSupply(s) < TWO64 ==>
              PositiveBonds(ApplyTxs(s, txs).value.delegations)
  {
    if txs != [] {
      var init := txs[..|txs| - 1];
      ApplyTxsBonds(s, init);
      var k := ApplyTxsSupply(s, init);
      ApplyTxBonds(ApplyTxs(s, init).value, txs[|txs| - 1]);
    }
  }

  lemma ApplyBonds(s: State, b: Block)
    requires Apply(s, b).Success? && NoEmptyInner(s.delegations)
    ensures NoEmptyInner(Apply(s, b).value.delegations)
    ensures PositiveBonds(s.delegations) && TrueSupply(s) < TWO64 ==> PositiveBonds(Apply(s, b).value.delegations)
  {
    ApplyTxsBonds(s, b.transactions);
    assert Apply(s, b).value.delegations == ApplyTxs(s, b.transactions).value.delegations;
  }

  /** No empty inner map ever survives a block, and while supply fits a word no
      zero bond does either. */
  lemma {:induction false} ReplayBonds(s: State, blocks: seq<Block>)
    requires ReplayFrom(s, blocks).Success? && NoEmptyInner(s.delegations)
    ensures NoEmptyInner(ReplayFrom(s, blocks).value.delegations)
    ensures PositiveBonds(s.delegations) && Fits(s, Minted(blocks)) ==>
              PositiveBonds(ReplayFrom(s, blocks).value.delegations)
  {
    hide NoEmptyInner, PositiveBonds, TrueSupply, Apply;
    if blocks != [] {
      var init := blocks[..|blocks| - 1];
      ReplayBonds(s, init);
      var k := ReplaySupply(s, init);
      ApplyBonds(ReplayFrom(s, init).value, blocks[|blocks| - 1]);
    }
  }
}
