/** The ledger as a value: what one transaction, one block and a whole block
    list do to it. Amounts live in uint64 and wrap exactly where Go's do. */
module Ledger {
  import opened Wrappers
  import opened Words
  import opened Sums
  import opened Types

  const BLOCK_REWARD: nat := 100_000_000

  type Bonds = map<Address, map<Address, nat>>

  datatype State = State(balances: map<Address, nat>, nonces: map<Address, int>, delegations: Bonds,
                         validatorBase: map<Address, nat>)

  datatype TxError =
    | EmptySender | ZeroAmount | BadRecipient | SelfSend | BadSender | BadSignature | BadNonce
    | InsufficientBalance | NotEnoughBonded | UnknownKind

  datatype ApplyError = TxFailed(index: nat, reason: TxError) | RewardPanic

  datatype ReplayError = NoBlocks | BadGenesisHeight | GenesisHasTransactions | BlockFailed(reason: ApplyError)

  // ----- reads -----

  function NonceOf(nonces: map<Address, int>, a: Address): int {
    if a in nonces then nonces[a] else 0
  }

  function InnerOf(d: Bonds, delegator: Address): map<Address, nat> {
    if delegator in d then d[delegator] else map[]
  }

  function Bonded(d: Bonds, delegator: Address, validator: Address): nat {
    Get(InnerOf(d, delegator), validator)
  }

  // ----- one transaction -----

  /** The checks that read no account state, in the source's order. */
  function CheckForm(tx: Transaction): Option<TxError> {
    if tx.from == "" then Some(EmptySender)
    else if tx.amount == 0 then Some(ZeroAmount)
    else if PubKeyFromAddress(tx.to) == None then Some(BadRecipient)
    else if tx.kind == Transfer && tx.from == tx.to then Some(SelfSend)
    else if PubKeyFromAddress(tx.from) == None then Some(BadSender)
    else if !VerifyFrom(tx.from, TxPayloadOf(tx), tx.signature) then Some(BadSignature)
    else None
  }

  function AddBond(d: Bonds, delegator: Address, validator: Address, amount: nat): Bonds {
    d[delegator := InnerOf(d, delegator)[validator := Uint64(Bonded(d, delegator, validator) + amount)]]
  }

  /** Removing a whole bond also removes an inner map it leaves empty. */
  function DropBond(d: Bonds, delegator: Address, validator: Address, amount: nat): Bonds
    requires 0 < amount <= Bonded(d, delegator, validator)
  {
    var inner := d[delegator];
    if inner[validator] == amount then
      if inner - {validator} == map[] then d - {delegator} else d[delegator := inner - {validator}]
    else
      d[delegator := inner[validator := inner[validator] - amount]]
  }

  function ApplyTx(s: State, tx: Transaction): Result<State, TxError> {
    match CheckForm(tx)
    case Some(e) => Failure(e)
    case None =>
      if tx.nonce != NonceOf(s.nonces, tx.from) then Failure(BadNonce)
      else
        var nonces := s.nonces[tx.from := NonceOf(s.nonces, tx.from) + 1];
        var have := Get(s.balances, tx.from);
        match tx.kind
        case Transfer =>
          if have < tx.amount then Failure(InsufficientBalance)
          else
            var debited := s.balances[tx.from := have - tx.amount];
            Success(s.(balances := debited[tx.to := Uint64(Get(debited, tx.to) + tx.amount)], nonces := nonces))
        case Delegate =>
          if have < tx.amount then Failure(InsufficientBalance)
          else Success(s.(balances := s.balances[tx.from := have - tx.amount], nonces := nonces,
                          delegations := AddBond(s.delegations, tx.from, tx.to, tx.amount)))
        case Undelegate =>
          if Bonded(s.delegations, tx.from, tx.to) < tx.amount then Failure(NotEnoughBonded)
          else Success(s.(balances := s.balances[tx.from := Uint64(have + tx.amount)], nonces := nonces,
                          delegations := DropBond(s.delegations, tx.from, tx.to, tx.amount)))
        case OtherKind(_) => Failure(UnknownKind)
  }

  /** Transactions in order; the first failure rejects the list. */
  function ApplyTxs(s: State, txs: seq<Transaction>): Result<State, ApplyError> {
    if txs == [] then Success(s) else
      var n := |txs| - 1;
      var mid :- ApplyTxs(s, txs[..n]);
      match ApplyTx(mid, txs[n])
      case Success(next) => Success(next)
      case Failure(e) => Failure(TxFailed(n, e))
  }

  // ----- the block reward -----

  /** Who has a positive bond behind a validator, and how much. */
  function BackersOf(d: Bonds, validator: Address): map<Address, nat> {
    map x | x in d && Bonded(d, x, validator) > 0 :: Bonded(d, x, validator)
  }

  /** Every backer's floor share of the reward; defined when mulDiv never panics. */
  predicate SharesDefined(backers: map<Address, nat>, total: nat) {
    forall x | x in backers :: MulDiv(BLOCK_REWARD, backers[x], total).Some?
  }

  function Shares(backers: map<Address, nat>, total: nat): map<Address, nat>
    requires SharesDefined(backers, total)
  {
    map x | x in backers :: MulDiv(BLOCK_REWARD, backers[x], total).value
  }

  /** Adds an amount to each credited account; a credit of zero still creates the account. */
  function Credit(balances: map<Address, nat>, credits: map<Address, nat>): map<Address, nat> {
    map x | x in balances.Keys + credits.Keys ::
      if x in credits then Uint64(Get(balances, x) + credits[x]) else balances[x]
  }

  ghost function RewardWeight(s: State, proposer: Address): nat {
    Uint64(Get(s.validatorBase, proposer) + Sum(BackersOf(s.delegations, proposer)))
  }

  /** The state after paying one block's reward; None when bits.Div64 panics. */
  ghost function DistributeReward(s: State, proposer: Address): Option<State> {
    var backers := BackersOf(s.delegations, proposer);
    var total := RewardWeight(s, proposer);
    if total == 0 then
      Some(s.(balances := Credit(s.balances, map[proposer := BLOCK_REWARD])))
    else if SharesDefined(backers, total) then
      var shares := Shares(backers, total);
      var dust := Uint64(BLOCK_REWARD - Sum(shares));
      Some(s.(balances := Credit(Credit(s.balances, shares), map[proposer := dust])))
    else None
  }

  ghost function Apply(s: State, b: Block): Result<State, ApplyError> {
    var next :- ApplyTxs(s, b.transactions);
    if b.header.proposer == "" then Success(next)
    else match DistributeReward(next, b.header.proposer)
      case Some(paid) => Success(paid)
      case None => Failure(RewardPanic)
  }

  // ----- whole chains -----

  function NewState(alloc: map<Address, nat>): State {
    State(alloc, map[], map[], map[])
  }

  ghost function ReplayFrom(s: State, blocks: seq<Block>): Result<State, ApplyError> {
    if blocks == [] then Success(s) else
      var mid :- ReplayFrom(s, blocks[..|blocks| - 1]);
      Apply(mid, blocks[|blocks| - 1])
  }

  ghost function ReplayBlocks(blocks: seq<Block>): Result<State, ReplayError> {
    if blocks == [] then Failure(NoBlocks)
    else if blocks[0].header.height != 0 then Failure(BadGenesisHeight)
    else if blocks[0].transactions != [] then Failure(GenesisHasTransactions)
    else
      match ReplayFrom(GenesisState(blocks[0]), blocks[1..])
      case Success(s) => Success(s)
      case Failure(e) => Failure(BlockFailed(e))
  }

  function GenesisState(genesis: Block): State {
    NewState(genesis.header.alloc).(validatorBase := genesis.header.validators)
  }

  // ----- supply -----

  ghost function Totals(d: Bonds): map<Address, nat> {
    map x | x in d :: Sum(d[x])
  }

  /** Every token, counted without wrap-around. */
  ghost function TrueSupply(s: State): nat {
    Sum(s.balances) + Sum(Totals(s.delegations))
  }

  lemma SetInner(d: Bonds, delegator: Address, inner: map<Address, nat>)
    ensures Sum(Totals(d[delegator := inner])) == Sum(Totals(d)) - Sum(InnerOf(d, delegator)) + Sum(inner)
  {
    hide Sum;
    assert Totals(d[delegator := inner]) == Totals(d)[delegator := Sum(inner)];
    SumUpdate(Totals(d), delegator, Sum(inner));
    SumEmpty<Address>();
  }

  lemma AddBondTotals(d: Bonds, delegator: Address, validator: Address, amount: nat)
    ensures Sum(Totals(AddBond(d, delegator, validator, amount)))
         == Sum(Totals(d)) - Bonded(d, delegator, validator) + Uint64(Bonded(d, delegator, validator) + amount)
    ensures Bonded(d, delegator, validator) <= Sum(Totals(d))
  {
    hide Sum;
    var inner := InnerOf(d, delegator);
    var bond := Uint64(Get(inner, validator) + amount);
    SumUpdate(inner, validator, bond);
    SetInner(d, delegator, inner[validator := bond]);
    GetAtMostSum(inner, validator);
    GetAtMostSum(Totals(d), delegator);
  }

  lemma DropBondTotals(d: Bonds, delegator: Address, validator: Address, amount: nat)
    requires 0 < amount <= Bonded(d, delegator, validator)
    ensures Sum(Totals(DropBond(d, delegator, validator, amount))) == Sum(Totals(d)) - amount
  {
    hide Sum;
    var inner := d[delegator];
    SumUpdate(inner, validator, inner[validator] - amount);
    SumDrop(inner, validator);
    SetInner(d, delegator, inner[validator := inner[validator] - amount]);
    SetInner(d, delegator, inner - {validator});
    SumEmpty<Address>();
    if inner[validator] == amount && inner - {validator} == map[] {
      assert Totals(d - {delegator}) == Totals(d) - {delegator};
      SumDrop(Totals(d), delegator);
    }
  }

  /** How many whole words a sum overflows by. */
  function Carry(x: nat): (k: nat)
    ensures Uint64(x) + k * TWO64 == x
  {
    x / 0x1_0000_0000_0000_0000
  }

  lemma SameWord(before: nat, after: nat, k: int)
    requires after + k * TWO64 == before
    ensures Uint64(after) == Uint64(before)
    ensures before < TWO64 && 0 <= k ==> after == before
  {
  }

  lemma TransferSupply(balances: map<Address, nat>, from: Address, to: Address, amount: nat) returns (k: nat)
    requires amount <= Get(balances, from) && from != to
    ensures
      var debited := balances[from := Get(balances, from) - amount];
      Sum(debited[to := Uint64(Get(debited, to) + amount)]) + k * TWO64 == Sum(balances)
  {
    hide Sum;
    var debited := balances[from := Get(balances, from) - amount];
    k := Carry(Get(debited, to) + amount);
    SumUpdate(balances, from, Get(balances, from) - amount);
    SumUpdate(debited, to, Uint64(Get(debited, to) + amount));
  }

  lemma DelegateSupply(s: State, from: Address, to: Address, amount: nat) returns (k: nat)
    requires amount <= Get(s.balances, from)
    ensures Sum(s.balances[from := Get(s.balances, from) - amount])
            + Sum(Totals(AddBond(s.delegations, from, to, amount))) + k * TWO64 == TrueSupply(s)
  {
    hide Sum;
    k := Carry(Bonded(s.delegations, from, to) + amount);
    SumUpdate(s.balances, from, Get(s.balances, from) - amount);
    AddBondTotals(s.delegations, from, to, amount);
  }

  lemma UndelegateSupply(s: State, from: Address, to: Address, amount: nat) returns (k: nat)
    requires 0 < amount <= Bonded(s.delegations, from, to)
    ensures Sum(s.balances[from := Uint64(Get(s.balances, from) + amount)])
            + Sum(Totals(DropBond(s.delegations, from, to, amount))) + k * TWO64 == TrueSupply(s)
  {
    hide Sum;
    k := Carry(Get(s.balances, from) + amount);
    SumUpdate(s.balances, from, Uint64(Get(s.balances, from) + amount));
    DropBondTotals(s.delegations, from, to, amount);
  }

  /** No transaction of any kind makes or destroys a token: the supply changes
      only by whole wraps of a uint64, of which there are k. */
  lemma ApplyTxSupply(s: State, tx: Transaction) returns (k: nat)
    requires ApplyTx(s, tx).Success?
    ensures TrueSupply(ApplyTx(s, tx).value) + k * TWO64 == TrueSupply(s)
  {
    hide Sum;
    match tx.kind
    case Transfer => k := TransferSupply(s.balances, tx.from, tx.to, tx.amount);
    case Delegate => k := DelegateSupply(s, tx.from, tx.to, tx.amount);
    case Undelegate => k := UndelegateSupply(s, tx.from, tx.to, tx.amount);
  }

  lemma {:induction false} ApplyTxsSupply(s: State, txs: seq<Transaction>) returns (k: nat)
    requires ApplyTxs(s, txs).Success?
    ensures TrueSupply(ApplyTxs(s, txs).value) + k * TWO64 == TrueSupply(s)
  {
    hide Sum;
    if txs == [] {
      k := 0;
    } else {
      var init := txs[..|txs| - 1];
      var j := ApplyTxsSupply(s, init);
      k := ApplyTxSupply(ApplyTxs(s, init).value, txs[|txs| - 1]);
      k := k + j;
    }
  }

  lemma CreditOne(balances: map<Address, nat>, credits: map<Address, nat>, k: Address)
    requires k in credits
    ensures Credit(balances, credits)
         == Credit(balances, credits - {k})[k := Uint64(Get(balances, k) + credits[k])]
    ensures Get(Credit(balances, credits - {k}), k) == Get(balances, k)
  {
  }

  lemma {:induction false} CreditSupply(balances: map<Address, nat>, credits: map<Address, nat>) returns (k: nat)
    ensures Sum(Credit(balances, credits)) + k * TWO64 == Sum(balances) + Sum(credits)
    decreases |credits|
  {
    hide Sum;
    if credits == map[] {
      SumEmpty<Address>();
      assert Credit(balances, credits) == balances;
      k := 0;
    } else {
      var x :| x in credits;
      var rest := credits - {x};
      k := CreditSupply(balances, rest);
      CreditOne(balances, credits, x);
      SumUpdate(Credit(balances, rest), x, Uint64(Get(balances, x) + credits[x]));
      SumRemove(credits, x);
      k := k + Carry(Get(balances, x) + credits[x]);
    }
  }
}
