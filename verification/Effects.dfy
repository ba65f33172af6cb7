/** Who gains and who loses: what an accepted transaction, a reward and a whole
    chain do to every account and every bond. */
module Effects {
  import opened Wrappers
  import opened Words
  import opened Sums
  import opened Types
  import opened Ledger
  import opened Supply

  // ----- one transaction -----

  /** The holder of the sender's key signed exactly these fields. */
  predicate Authorised(tx: Transaction) {
    var key := PubKeyFromAddress(tx.from);
    && key.Some? && tx.signature.Signed? && tx.signature.signer == key.value
    && tx.signature.payload == TxPayload(tx.kind, tx.from, tx.to, tx.amount, tx.nonce)
  }

  /** What is accepted, whatever the order of the checks. */
  lemma AcceptedExactly(s: State, tx: Transaction)
    ensures ApplyTx(s, tx).Success? <==>
      && 0 < tx.amount && PubKeyFromAddress(tx.to).Some? && Authorised(tx)
      && tx.nonce == (if tx.from in s.nonces then s.nonces[tx.from] else 0)
      && match tx.kind
         case Transfer => tx.from != tx.to && tx.amount <= Get(s.balances, tx.from)
         case Delegate => tx.amount <= Get(s.balances, tx.from)
         case Undelegate => tx.amount <= Bonded(s.delegations, tx.from, tx.to)
         case OtherKind(_) => false
  {
    hide HexDecode;
  }

  /** A transfer takes exactly its amount from the sender, gives it to the recipient,
      and touches nobody else and no bond. */
  lemma TransferMoves(s: State, tx: Transaction)
    requires ApplyTx(s, tx).Success? && tx.kind.Transfer?
    ensures
      var r := ApplyTx(s, tx).value;
      && tx.from != tx.to && Authorised(tx)
      && Get(r.balances, tx.from) == Get(s.balances, tx.from) - tx.amount
      && Get(r.balances, tx.to) == Uint64(Get(s.balances, tx.to) + tx.amount)
      && (forall x | x != tx.from && x != tx.to :: Get(r.balances, x) == Get(s.balances, x))
      && r.delegations == s.delegations
  {
  }

  /** A delegation moves its amount from the sender's balance to its bond behind the
      validator, and touches no other balance and no other bond. */
  lemma DelegateMoves(s: State, tx: Transaction)
    requires ApplyTx(s, tx).Success? && tx.kind.Delegate?
    ensures
      var r := ApplyTx(s, tx).value;
      && Authorised(tx)
      && Get(r.balances, tx.from) == Get(s.balances, tx.from) - tx.amount
      && (forall x | x != tx.from :: Get(r.balances, x) == Get(s.balances, x))
      && Bonded(r.delegations, tx.from, tx.to) == Uint64(Bonded(s.delegations, tx.from, tx.to) + tx.amount)
      && forall x, v | x != tx.from || v != tx.to :: Bonded(r.delegations, x, v) == Bonded(s.delegations, x, v)
  {
  }

  /** Undelegating moves it back, and never more than is bonded. */
  lemma UndelegateMoves(s: State, tx: Transaction)
    requires ApplyTx(s, tx).Success? && tx.kind.Undelegate?
    ensures
      var r := ApplyTx(s, tx).value;
      && Authorised(tx)
      && Get(r.balances, tx.from) == Uint64(Get(s.balances, tx.from) + tx.amount)
      && (forall x | x != tx.from :: Get(r.balances, x) == Get(s.balances, x))
      && Bonded(r.delegations, tx.from, tx.to) == Bonded(s.delegations, tx.from, tx.to) - tx.amount
      && forall x, v | x != tx.from || v != tx.to :: Bonded(r.delegations, x, v) == Bonded(s.delegations, x, v)
  {
  }

  /** Every kind uses up one nonce of the sender's and no other. */
  lemma NonceMoves(s: State, tx: Transaction)
    requires ApplyTx(s, tx).Success?
    ensures
      var r := ApplyTx(s, tx).value;
      && NonceOf(r.nonces, tx.from) == NonceOf(s.nonces, tx.from) + 1
      && (forall x | x != tx.from :: NonceOf(r.nonces, x) == NonceOf(s.nonces, x))
      && r.validatorBase == s.validatorBase
  {
  }

  /** A list is refused at its first transaction that does not apply after those before
      it, with that transaction's error. */
  lemma {:induction false} RefusedAtFirst(s: State, txs: seq<Transaction>, n: nat, e: TxError)
    ensures ApplyTxs(s, txs) == Failure(TxFailed(n, e)) <==>
              && n < |txs| && ApplyTxs(s, txs[..n]).Success?
              && ApplyTx(ApplyTxs(s, txs[..n]).value, txs[n]) == Failure(e)
  {
    hide ApplyTx;
    if txs != [] {
      var init := txs[..|txs| - 1];
      RefusedAtFirst(s, init, n, e);
      if n < |init| {
        assert init[..n] == txs[..n];
        AppliesBefore(s, txs, n + 1);
        assert txs[..n + 1][..n] == txs[..n];
      }
    }
  }

  /** A list that applies does so from its start. */
  lemma {:induction false} AppliesBefore(s: State, txs: seq<Transaction>, n: nat)
    requires n <= |txs|
    ensures ApplyTxs(s, txs[..n]).Failure? ==> ApplyTxs(s, txs) == ApplyTxs(s, txs[..n])
    decreases |txs|
  {
    hide ApplyTx;
    if n < |txs| {
      assert txs[..|txs| - 1][..n] == txs[..n];
      AppliesBefore(s, txs[..|txs| - 1], n);
    } else {
      assert txs[..n] == txs;
    }
  }

  // ----- the reward -----

  /** Self-stake and bonds behind a proposer. */
  ghost function Behind(s: State, p: Address): nat {
    Get(s.validatorBase, p) + Sum(BackersOf(s.delegations, p))
  }

  /** What one reward pays x: its floor share of the bonds, and for the proposer
      everything the shares leave over. */
  ghost function RewardTo(s: State, p: Address, x: Address): int {
    var total := Behind(s, p);
    if total == 0 then (if x == p then BLOCK_REWARD else 0)
    else
      BLOCK_REWARD * Bonded(s.delegations, x, p) / total
      + if x == p then BLOCK_REWARD - Sum(Floors(BackersOf(s.delegations, p), total)) else 0
  }

  /** Every account after a reward: the proposer and its backers have what RewardTo
      gives them on top of what they had, and nobody else gets anything. */
  lemma RewardPays(s: State, p: Address)
    requires Behind(s, p) < TWO64
    ensures DistributeReward(s, p).Some?
    ensures
      var r := DistributeReward(s, p).value;
      && (forall x :: 0 <= RewardTo(s, p, x) <= BLOCK_REWARD)
      && (forall x | x == p || 0 < Bonded(s.delegations, x, p) ::
            Get(r.balances, x) == Uint64(Get(s.balances, x) + RewardTo(s, p, x)))
      && (forall x | x != p && Bonded(s.delegations, x, p) == 0 :: Get(r.balances, x) == Get(s.balances, x))
      && r.delegations == s.delegations && r.nonces == s.nonces && r.validatorBase == s.validatorBase
  {
    hide Sum, Uint64, Floors, Shares, SharesDefined, BackersOf, Credit;
    RewardSplit(s, p);
    var r := DistributeReward(s, p).value;
    forall x
      ensures 0 <= RewardTo(s, p, x) <= BLOCK_REWARD
      ensures x == p || 0 < Bonded(s.delegations, x, p) ==>
                Get(r.balances, x) == Uint64(Get(s.balances, x) + RewardTo(s, p, x))
      ensures x != p && Bonded(s.delegations, x, p) == 0 ==> Get(r.balances, x) == Get(s.balances, x)
    {
      if Behind(s, p) == 0 {
        NoBackersAtAll(s, p, x);
        CreditAt(s.balances, map[p := BLOCK_REWARD], x);
      } else {
        PaidOne(s, p, x);
      }
    }
  }

  lemma NoBackersAtAll(s: State, p: Address, x: Address)
    requires Behind(s, p) == 0
    ensures Bonded(s.delegations, x, p) == 0 && RewardWeight(s, p) == 0
  {
    hide Sum;
    if Bonded(s.delegations, x, p) > 0 {
      assert x in BackersOf(s.delegations, p);
      GetAtMostSum(BackersOf(s.delegations, p), x);
    }
  }

  /** A map of credits, read at one account. */
  lemma CreditAt(balances: map<Address, nat>, credits: map<Address, nat>, x: Address)
    ensures Get(Credit(balances, credits), x)
         == if x in credits then Uint64(Get(balances, x) + credits[x]) else Get(balances, x)
  {
  }

  lemma PaidOne(s: State, p: Address, x: Address)
    requires 0 < Behind(s, p) < TWO64 && DistributeReward(s, p).Some?
    ensures 0 <= RewardTo(s, p, x) <= BLOCK_REWARD
    ensures
      var r, d := DistributeReward(s, p).value, s.delegations;
      Get(r.balances, x) == if x == p || 0 < Bonded(d, x, p) then Uint64(Get(s.balances, x) + RewardTo(s, p, x))
                            else Get(s.balances, x)
  {
    hide Sum, Uint64, Credit, DistributeReward, Floors;
    var backers, total := BackersOf(s.delegations, p), Behind(s, p);
    RewardShape(s, p);
    var shares := Floors(backers, total);
    ShareAt(backers, total, x);
    GetAtMostSum(shares, x);
    NoShare(total);
    var dust := BLOCK_REWARD - Sum(shares);
    CreditAt(s.balances, shares, x);
    CreditAt(Credit(s.balances, shares), map[p := dust], x);
    if x == p && x in shares {
      Uint64Absorbs(Get(s.balances, x) + shares[x], dust);
    }
  }

  lemma ShareAt(backers: map<Address, nat>, total: nat, x: Address)
    requires 0 < total
    ensures x in Floors(backers, total) <==> x in backers
    ensures x in backers ==> Floors(backers, total)[x] == BLOCK_REWARD * backers[x] / total
  {
  }

  lemma RewardShape(s: State, p: Address)
    requires 0 < Behind(s, p) < TWO64 && DistributeReward(s, p).Some?
    ensures
      var shares := Floors(BackersOf(s.delegations, p), Behind(s, p));
      && Sum(shares) <= BLOCK_REWARD
      && DistributeReward(s, p).value
         == s.(balances := Credit(Credit(s.balances, shares), map[p := BLOCK_REWARD - Sum(shares)]))
  {
    hide Sum, Credit, BackersOf, Shares, SharesDefined, Floors;
    RewardSplit(s, p);
    BoundedBySum(BackersOf(s.delegations, p), Behind(s, p));
    SharesAreFloors(BackersOf(s.delegations, p), Behind(s, p));
  }

  lemma NoShare(total: nat)
    requires 0 < total
    ensures BLOCK_REWARD * 0 / total == 0
  {
  }

  // ----- whole chains -----

  /** What an account owns: its balance and its own bonds. */
  ghost function Wealth(s: State, a: Address): nat {
    Get(s.balances, a) + Sum(InnerOf(s.delegations, a))
  }

  function Sent(txs: seq<Transaction>, a: Address): nat {
    if txs == [] then 0
    else
      var tx := txs[|txs| - 1];
      Sent(txs[..|txs| - 1], a) + if tx.kind.Transfer? && tx.from == a then tx.amount else 0
  }

  function Received(txs: seq<Transaction>, a: Address): nat {
    if txs == [] then 0
    else
      var tx := txs[|txs| - 1];
      Received(txs[..|txs| - 1], a) + if tx.kind.Transfer? && tx.to == a then tx.amount else 0
  }

  lemma BalanceWithinSupply(s: State, a: Address, b: Address)
    ensures Get(s.balances, a) + Sum(InnerOf(s.delegations, a)) <= TrueSupply(s)
    ensures a != b ==> Get(s.balances, a) + Get(s.balances, b) <= TrueSupply(s)
  {
    hide Sum;
    GetAtMostSum(s.balances, a);
    GetAtMostSum(Totals(s.delegations), a);
    SumEmpty<Address>();
    if a != b {
      SumDrop(s.balances, a);
      GetAtMostSum(s.balances - {a}, b);
    }
  }

  lemma InnerAfterAdd(d: Bonds, from: Address, to: Address, amount: nat, a: Address)
    requires Bonded(d, from, to) + amount < TWO64
    ensures Sum(InnerOf(AddBond(d, from, to, amount), a)) == Sum(InnerOf(d, a)) + if a == from then amount else 0
  {
    hide Sum;
    SumUpdate(InnerOf(d, from), to, Bonded(d, from, to) + amount);
  }

  lemma InnerAfterDrop(d: Bonds, from: Address, to: Address, amount: nat, a: Address)
    requires 0 < amount <= Bonded(d, from, to)
    ensures Sum(InnerOf(DropBond(d, from, to, amount), a)) == Sum(InnerOf(d, a)) - if a == from then amount else 0
  {
    hide Sum;
    var inner := InnerOf(d, from);
    SumUpdate(inner, to, Bonded(d, from, to) - amount);
    SumDrop(inner, to);
    SumEmpty<Address>();
  }

  lemma BondWithin(s: State, tx: Transaction)
    ensures Get(s.balances, tx.from) + Bonded(s.delegations, tx.from, tx.to) <= TrueSupply(s)
  {
    hide Sum, TrueSupply;
    BalanceWithinSupply(s, tx.from, tx.from);
    GetAtMostSum(InnerOf(s.delegations, tx.from), tx.to);
  }

  /** While supply fits a word, a transaction changes what accounts own by exactly
      what was transferred. */
  lemma TxMovesWealth(s: State, tx: Transaction, a: Address)
    requires ApplyTx(s, tx).Success? && TrueSupply(s) < TWO64
    ensures
      var r := ApplyTx(s, tx).value;
      Wealth(r, a) == Wealth(s, a) + (if tx.kind.Transfer? && tx.to == a then tx.amount else 0)
                      - (if tx.kind.Transfer? && tx.from == a then tx.amount else 0)
  {
    hide Sum, TrueSupply, Uint64, AddBond, DropBond, CheckForm, InnerOf;
    BalanceWithinSupply(s, tx.from, tx.to);
    BondWithin(s, tx);
    WordFits(Get(s.balances, tx.to) + tx.amount);
    WordFits(Get(s.balances, tx.from) + tx.amount);
    match tx.kind
    case Transfer => TransferMoves(s, tx);
    case Delegate => InnerAfterAdd(s.delegations, tx.from, tx.to, tx.amount, a);
    case Undelegate =>
      NonZero(s, tx);
      InnerAfterDrop(s.delegations, tx.from, tx.to, tx.amount, a);
  }

  lemma NonZero(s: State, tx: Transaction)
    requires ApplyTx(s, tx).Success?
    ensures 0 < tx.amount
  {
    hide AddBond, DropBond;
  }

  lemma {:induction false} TxsMoveWealth(s: State, txs: seq<Transaction>, a: Address)
    requires ApplyTxs(s, txs).Success? && TrueSupply(s) < TWO64
    ensures Wealth(ApplyTxs(s, txs).value, a) + Sent(txs, a) == Wealth(s, a) + Received(txs, a)
  {
    hide ApplyTx, Wealth, TrueSupply;
    if txs != [] {
      var init := txs[..|txs| - 1];
      TxsMoveWealth(s, init, a);
      var k := ApplyTxsSupply(s, init);
      TxMovesWealth(ApplyTxs(s, init).value, txs[|txs| - 1], a);
    }
  }

  /** What a block's reward pays a: nothing where no proposer is named. */
  ghost function BlockRewardTo(s: State, b: Block, a: Address): int {
    if b.header.proposer == "" || ApplyTxs(s, b.transactions).Failure? then 0
    else RewardTo(ApplyTxs(s, b.transactions).value, b.header.proposer, a)
  }

  lemma BlockMovesWealth(s: State, b: Block, a: Address)
    requires Apply(s, b).Success? && Fits(s, Mint(b))
    ensures Wealth(Apply(s, b).value, a) + Sent(b.transactions, a)
         == Wealth(s, a) + Received(b.transactions, a) + BlockRewardTo(s, b, a)
  {
    hide Sum, ApplyTxs, DistributeReward, BackersOf, TrueSupply, Uint64, RewardTo;
    TxsMoveWealth(s, b.transactions, a);
    var k := ApplyTxsSupply(s, b.transactions);
    ApplyTxsKeepBase(s, b.transactions);
    if b.header.proposer != "" {
      var mid, p := ApplyTxs(s, b.transactions).value, b.header.proposer;
      BackersWithinSupply(mid, p);
      RewardPays(mid, p);
      BalanceWithinSupply(mid, a, a);
      if a != p && Bonded(mid.delegations, a, p) == 0 {
        NoRewardWithoutBond(mid, p, a);
      }
      WordFits(Get(mid.balances, a) + RewardTo(mid, p, a));
    }
  }

  lemma WordFits(x: int)
    ensures 0 <= x < TWO64 ==> Uint64(x) == x
  {
  }

  lemma NoRewardWithoutBond(s: State, p: Address, x: Address)
    requires x != p && Bonded(s.delegations, x, p) == 0
    ensures RewardTo(s, p, x) == 0
  {
  }

  /** Rewards paid to a over a list of blocks. */
  ghost function Rewarded(s: State, blocks: seq<Block>, a: Address): int {
    if blocks == [] then 0
    else
      var init := blocks[..|blocks| - 1];
      Rewarded(s, init, a)
      + match ReplayFrom(s, init)
        case Success(mid) => BlockRewardTo(mid, blocks[|blocks| - 1], a)
        case Failure(_) => 0
  }

  ghost function SentIn(blocks: seq<Block>, a: Address): nat {
    if blocks == [] then 0 else SentIn(blocks[..|blocks| - 1], a) + Sent(blocks[|blocks| - 1].transactions, a)
  }

  ghost function ReceivedIn(blocks: seq<Block>, a: Address): nat {
    if blocks == [] then 0
    else ReceivedIn(blocks[..|blocks| - 1], a) + Received(blocks[|blocks| - 1].transactions, a)
  }

  lemma {:induction false} BlocksMoveWealth(s: State, blocks: seq<Block>, a: Address)
    requires ReplayFrom(s, blocks).Success? && Fits(s, Minted(blocks))
    ensures Wealth(ReplayFrom(s, blocks).value, a) + SentIn(blocks, a)
         == Wealth(s, a) + ReceivedIn(blocks, a) + Rewarded(s, blocks, a)
  {
    hide Apply, Wealth, TrueSupply, BlockRewardTo;
    if blocks != [] {
      var init := blocks[..|blocks| - 1];
      BlocksMoveWealth(s, init, a);
      var k := ReplaySupply(s, init);
      BlockMovesWealth(ReplayFrom(s, init).value, blocks[|blocks| - 1], a);
    }
  }

  /** On any replayable chain, while supply fits a word: what an account owns, its
      balance and its bonds, is its genesis allocation plus all it received, less
      all it sent, plus the rewards paid to it. */
  lemma ChainAccounts(blocks: seq<Block>, a: Address)
    requires ReplayBlocks(blocks).Success? && Fits(GenesisState(blocks[0]), Minted(blocks[1..]))
    ensures
      var s, later := ReplayBlocks(blocks).value, blocks[1..];
      Wealth(s, a) == Get(blocks[0].header.alloc, a) + ReceivedIn(later, a) - SentIn(later, a)
                      + Rewarded(GenesisState(blocks[0]), later, a)
    ensures ReplayBlocks(blocks).value.validatorBase == blocks[0].header.validators
  {
    hide ReplayFrom, Sum;
    var k := ReplaySupply(GenesisState(blocks[0]), blocks[1..]);
    BlocksMoveWealth(GenesisState(blocks[0]), blocks[1..], a);
    SumEmpty<Address>();
  }
}
