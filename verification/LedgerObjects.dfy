/** The ledger as Go runs it: maps written in place, loops over map keys in any
    order. Each method is proved against its function in Ledger. */
module LedgerObjects {
  import opened Wrappers
  import opened Words
  import opened Sums
  import opened Types
  import opened Ledger
  import opened Supply

  class LedgerState {
    var balances: map<Address, nat>
    var nonces: map<Address, int>
    var delegations: Bonds
    const validatorBase: map<Address, nat>

    function View(): State
      reads this
    {
      State(balances, nonces, delegations, validatorBase)
    }

    /** A copy the caller may mutate freely. */
    constructor Clone(s: State)
      ensures View() == s
    {
      balances := s.balances;
      nonces := s.nonces;
      delegations := s.delegations;
      validatorBase := s.validatorBase;
    }

    /** Changes nothing on an error: every write follows every check. */
    method ApplyTransaction(tx: Transaction) returns (err: Option<TxError>)
      modifies this
      ensures match ApplyTx(old(View()), tx)
              case Success(next) => err == None && View() == next
              case Failure(e) => err == Some(e) && View() == old(View())
    {
      hide CheckForm, Uint64, AddBond, DropBond;
      err := CheckForm(tx);
      if err.Some? {
        return;
      }
      FormFacts(tx);
      if tx.nonce != NonceOf(nonces, tx.from) {
        return Some(BadNonce);
      }
      match tx.kind {
        case Transfer =>
          if Get(balances, tx.from) < tx.amount {
            return Some(InsufficientBalance);
          }
          balances := balances[tx.from := balances[tx.from] - tx.amount];
          balances := balances[tx.to := Uint64(Get(balances, tx.to) + tx.amount)];
        case Delegate =>
          if Get(balances, tx.from) < tx.amount {
            return Some(InsufficientBalance);
          }
          balances := balances[tx.from := balances[tx.from] - tx.amount];
          Bond(tx.from, tx.to, tx.amount);
        case Undelegate =>
          if Bonded(delegations, tx.from, tx.to) < tx.amount {
            return Some(NotEnoughBonded);
          }
          Unbond(tx.from, tx.to, tx.amount);
          balances := balances[tx.from := Uint64(Get(balances, tx.from) + tx.amount)];
        case OtherKind(_) =>
          return Some(UnknownKind);
      }
      nonces := nonces[tx.from := NonceOf(nonces, tx.from) + 1];
    }

    method Bond(delegator: Address, validator: Address, amount: nat)
      modifies this`delegations
      ensures delegations == AddBond(old(delegations), delegator, validator, amount)
    {
      if delegator !in delegations {
        delegations := delegations[delegator := map[]];
      }
      var inner := delegations[delegator];
      delegations := delegations[delegator := inner[validator := Uint64(Get(inner, validator) + amount)]];
    }

    method Unbond(delegator: Address, validator: Address, amount: nat)
      requires 0 < amount <= Bonded(delegations, delegator, validator)
      modifies this`delegations
      ensures delegations == DropBond(old(delegations), delegator, validator, amount)
    {
      var inner := delegations[delegator];
      if inner[validator] == amount {
        delegations := delegations[delegator := inner - {validator}];
        if delegations[delegator] == map[] {
          delegations := delegations - {delegator};
        }
      } else {
        inner := inner[validator := inner[validator] - amount];
        delegations := delegations[delegator := inner];
      }
    }

    /** ok is false exactly where Go panics in bits.Div64. */
    method PayReward(proposer: Address) returns (ok: bool)
      modifies this
      ensures ok <==> DistributeReward(old(View()), proposer).Some?
      ensures ok ==> View() == DistributeReward(old(View()), proposer).value
    {
      hide Sum, Uint64, Credit, Shares, SharesDefined, BackersOf;
      ghost var start := View();
      ghost var backers := BackersOf(delegations, proposer);
      var self := Get(validatorBase, proposer);
      var delegators, delegated := CollectBackers(delegations, proposer);
      var total := Uint64(self + delegated);
      WordSum(self, Sum(backers));
      if total == 0 {
        balances := balances[proposer := Uint64(Get(balances, proposer) + BLOCK_REWARD)];
        CreditSingle(start.balances, proposer, BLOCK_REWARD);
        return true;
      }
      var paid;
      ok, paid := PayBackers(proposer, delegators, total);
      if ok {
        ghost var before := balances;
        var dust := Uint64(BLOCK_REWARD - paid);
        balances := balances[proposer := Uint64(Get(balances, proposer) + dust)];
        CreditSingle(before, proposer, dust);
        DustWord(Sum(Shares(backers, total)));
      }
    }

    /** Pays each delegator its share, in the order given. */
    method PayBackers(proposer: Address, delegators: seq<Address>, total: nat) returns (ok: bool, paid: nat)
      requires Distinct(delegators) && Elements(delegators) == BackersOf(delegations, proposer).Keys
      modifies this`balances
      ensures ok <==> SharesDefined(BackersOf(delegations, proposer), total)
      ensures ok ==>
                && balances == Credit(old(balances), Shares(BackersOf(delegations, proposer), total))
                && paid == Uint64(Sum(Shares(BackersOf(delegations, proposer), total)))
    {
      hide Sum, Uint64, Credit, Shares, SharesDefined, BackersOf, MulDiv, Restrict;
      ghost var backers := BackersOf(delegations, proposer);
      ghost var done: map<Address, nat> := map[];
      ok, paid := true, 0;
      NothingPaid(balances, backers, total);
      for i := 0 to |delegators|
        invariant done == Restrict(backers, Elements(delegators[..i]))
        invariant SharesDefined(done, total)
        invariant balances == Credit(old(balances), Shares(done, total))
        invariant paid == Uint64(Sum(Shares(done, total)))
      {
        var d := delegators[i];
        assert d in Elements(delegators);
        NextBacker(backers, delegators, i);
        BackerBond(delegations, proposer, d);
        var share := MulDiv(BLOCK_REWARD, Bonded(delegations, d, proposer), total);
        if share == None {
          ShareMissing(backers, total, d);
          return false, paid;
        }
        AnotherShare(old(balances), done, total, d, backers[d]);
        balances := balances[d := Uint64(Get(balances, d) + share.value)];
        paid := Uint64(paid + share.value);
        done := done[d := backers[d]];
      }
      assert delegators[..|delegators|] == delegators;
      RestrictAll(backers);
    }

    /** The supply as the code reports it, summed in any order. */
    method ReportSupply() returns (supply: nat)
      ensures supply == Uint64(TrueSupply(View()))
    {
      hide Sum, Uint64, Totals;
      var a := SumWord(balances);
      var b := 0;
      ghost var done: Bonds := map[];
      var rest := delegations.Keys;
      NoTotals();
      while rest != {}
        invariant rest <= delegations.Keys && done == delegations - rest
        invariant b == Uint64(Sum(Totals(done)))
        decreases rest
      {
        var x :| x in rest;
        var inner := SumWord(delegations[x]);
        NextTotal(delegations, rest, x);
        WordSum2(Sum(Totals(done)), Sum(delegations[x]));
        b := Uint64(b + inner);
        rest := rest - {x};
        done := delegations - rest;
      }
      assert delegations - {} == delegations;
      WordSum2(Sum(balances), Sum(Totals(delegations)));
      supply := Uint64(a + b);
    }
  }

  // ----- facts the loops use -----

  lemma FormFacts(tx: Transaction)
    requires CheckForm(tx) == None
    ensures 0 < tx.amount && (tx.kind == Transfer ==> tx.from != tx.to)
  {
  }

  lemma WordSum(x: int, y: int)
    ensures Uint64(x + Uint64(y)) == Uint64(x + y)
  {
    Uint64Absorbs(x, y);
  }

  lemma WordSum2(x: int, y: int)
    ensures Uint64(Uint64(x) + Uint64(y)) == Uint64(x + y)
    ensures Uint64(Uint64(x) + y) == Uint64(x + y)
  {
    Uint64Absorbs(x, y);
    Uint64Absorbs(Uint64(x), y);
  }

  lemma NoTotals()
    ensures Totals(map[]) == map[] && Sum<Address>(map[]) == 0 && Uint64(0) == 0
  {
  }

  lemma NothingPaid(balances: map<Address, nat>, backers: map<Address, nat>, total: nat)
    ensures Restrict(backers, Elements([])) == map[]
    ensures SharesDefined(map[], total) && Credit(balances, Shares(map[], total)) == balances
    ensures Uint64(Sum(Shares(map[], total))) == 0
  {
    SumEmpty<Address>();
    assert Shares(map[], total) == map[];
  }

  lemma RestrictAll(backers: map<Address, nat>)
    ensures Restrict(backers, backers.Keys) == backers
  {
  }

  lemma BackerBond(d: Bonds, validator: Address, x: Address)
    requires x in BackersOf(d, validator)
    ensures BackersOf(d, validator)[x] == Bonded(d, x, validator)
  {
  }

  lemma ShareMissing(backers: map<Address, nat>, total: nat, d: Address)
    requires d in backers && MulDiv(BLOCK_REWARD, backers[d], total) == None
    ensures !SharesDefined(backers, total)
  {
  }

  lemma CreditSingle(balances: map<Address, nat>, x: Address, amount: nat)
    ensures balances[x := Uint64(Get(balances, x) + amount)] == Credit(balances, map[x := amount])
  {
  }

  lemma NextBacker(backers: map<Address, nat>, order: seq<Address>, i: nat)
    requires i < |order| && Distinct(order) && order[i] in backers
    ensures
      var done := Restrict(backers, Elements(order[..i]));
      order[i] !in done && Restrict(backers, Elements(order[..i + 1])) == done[order[i] := backers[order[i]]]
  {
    assert order[..i + 1] == order[..i] + [order[i]];
    assert order[i] !in order[..i];
  }

  lemma AnotherShare(balances: map<Address, nat>, done: map<Address, nat>, total: nat, d: Address, bond: nat)
    requires SharesDefined(done, total) && d !in done && MulDiv(BLOCK_REWARD, bond, total).Some?
    ensures SharesDefined(done[d := bond], total)
    ensures
      var share := MulDiv(BLOCK_REWARD, bond, total).value;
      var paid := Credit(balances, Shares(done, total));
      && paid[d := Uint64(Get(paid, d) + share)] == Credit(balances, Shares(done[d := bond], total))
      && Uint64(Uint64(Sum(Shares(done, total))) + share) == Uint64(Sum(Shares(done[d := bond], total)))
  {
    hide MulDiv, Sum;
    var share := MulDiv(BLOCK_REWARD, bond, total).value;
    assert Shares(done[d := bond], total) == Shares(done, total)[d := share];
    SumUpdate(Shares(done, total), d, share);
    assert Shares(done[d := bond], total) - {d} == Shares(done, total);
    CreditOne(balances, Shares(done[d := bond], total), d);
    Uint64Absorbs(Sum(Shares(done, total)), share);
  }

  lemma DustWord(paid: nat)
    ensures Uint64(BLOCK_REWARD - Uint64(paid)) == Uint64(BLOCK_REWARD - paid)
  {
  }

  lemma NextTotal(d: Bonds, rest: set<Address>, x: Address)
    requires x in rest && x in d
    ensures Sum(Totals(d - (rest - {x}))) == Sum(Totals(d - rest)) + Sum(d[x])
  {
    var more := Totals(d - (rest - {x}));
    SumRemove(more, x);
    assert more - {x} == Totals(d - rest);
  }

  /** The backers of a validator, each once, and their bonds summed in uint64.
      Map iteration fixes no order, so neither does this. */
  method CollectBackers(d: Bonds, validator: Address) returns (delegators: seq<Address>, delegated: nat)
    ensures Distinct(delegators) && Elements(delegators) == BackersOf(d, validator).Keys
    ensures delegated == Uint64(Sum(BackersOf(d, validator)))
  {
    hide Sum, Uint64, BackersOf, Distinct, Elements;
    delegators, delegated := [], 0;
    var rest := d.Keys;
    ghost var done: Bonds := map[];
    NoBackers(validator);
    while rest != {}
      invariant rest <= d.Keys && done == d - rest
      invariant Distinct(delegators) && Elements(delegators) == BackersOf(done, validator).Keys
      invariant delegated == Uint64(Sum(BackersOf(done, validator)))
      decreases rest
    {
      var x :| x in rest;
      MoreBackers(d, validator, rest, x);
      if Bonded(d, x, validator) > 0 {
        assert x !in Elements(delegators);
        WordSum2(Sum(BackersOf(done, validator)), Bonded(d, x, validator));
        ElementsAppend(delegators, x);
        delegators := delegators + [x];
        delegated := Uint64(delegated + Bonded(d, x, validator));
      }
      rest := rest - {x};
      done := d - rest;
    }
    assert d - {} == d;
  }

  lemma NoBackers(validator: Address)
    ensures BackersOf(map[], validator) == map[] && Elements([]) == {} && Distinct([])
    ensures Uint64(Sum<Address>(map[])) == 0
  {
    SumEmpty<Address>();
  }

  lemma ElementsAppend(order: seq<Address>, x: Address)
    requires Distinct(order) && x !in Elements(order)
    ensures Distinct(order + [x]) && Elements(order + [x]) == Elements(order) + {x}
  {
  }

  lemma MoreBackers(d: Bonds, validator: Address, rest: set<Address>, x: Address)
    requires x in rest && x in d
    ensures
      var before, after := BackersOf(d - rest, validator), BackersOf(d - (rest - {x}), validator);
      var bond := Bonded(d, x, validator);
      x !in before && after == (if bond > 0 then before[x := bond] else before) && Sum(after) == Sum(before) + bond
  {
    var before, after := BackersOf(d - rest, validator), BackersOf(d - (rest - {x}), validator);
    var bond := Bonded(d, x, validator);
    assert after == if bond > 0 then before[x := bond] else before;
    SumUpdate(before, x, bond);
  }

  method SumWord(m: map<Address, nat>) returns (r: nat)
    ensures r == Uint64(Sum(m))
  {
    hide Sum, Uint64;
    r := 0;
    var rest := m.Keys;
    NoTotals();
    assert m - rest == map[];
    while rest != {}
      invariant rest <= m.Keys && r == Uint64(Sum(m - rest))
      decreases rest
    {
      var x :| x in rest;
      SumRemove(m - (rest - {x}), x);
      assert m - (rest - {x}) - {x} == m - rest;
      WordSum2(Sum(m - rest), m[x]);
      r := Uint64(r + m[x]);
      rest := rest - {x};
    }
    assert m - {} == m;
  }

  // ----- blocks -----

  /** Works on a copy, so the given state is never touched; all or nothing. */
  method ApplyBlock(s: State, b: Block) returns (r: Result<State, ApplyError>)
    ensures r == Apply(s, b)
  {
    hide ApplyTx, DistributeReward;
    var next := new LedgerState.Clone(s);
    for i := 0 to |b.transactions|
      invariant ApplyTxs(s, b.transactions[..i]) == Success(next.View())
    {
      assert b.transactions[..i + 1][..i] == b.transactions[..i];
      var err := next.ApplyTransaction(b.transactions[i]);
      if err.Some? {
        EarlyFailure(s, b.transactions, i + 1);
        return Failure(TxFailed(i, err.value));
      }
    }
    assert b.transactions[..|b.transactions|] == b.transactions;
    if b.header.proposer != "" {
      var ok := next.PayReward(b.header.proposer);
      if !ok {
        return Failure(RewardPanic);
      }
    }
    r := Success(next.View());
  }

  /** A list fails with the error of its first failing prefix. */
  lemma {:induction false} EarlyFailure(s: State, txs: seq<Transaction>, n: nat)
    requires n <= |txs| && ApplyTxs(s, txs[..n]).Failure?
    ensures ApplyTxs(s, txs) == ApplyTxs(s, txs[..n])
  {
    if n == |txs| {
      assert txs[..n] == txs;
    } else {
      assert txs[..|txs| - 1][..n] == txs[..n];
      EarlyFailure(s, txs[..|txs| - 1], n);
    }
  }

  method Replay(blocks: seq<Block>) returns (r: Result<State, ReplayError>)
    ensures r == ReplayBlocks(blocks)
  {
    if |blocks| == 0 {
      return Failure(NoBlocks);
    }
    if blocks[0].header.height != 0 {
      return Failure(BadGenesisHeight);
    }
    if |blocks[0].transactions| != 0 {
      return Failure(GenesisHasTransactions);
    }
    var later := blocks[1..];
    var state := GenesisState(blocks[0]);
    for i := 0 to |later|
      invariant ReplayFrom(GenesisState(blocks[0]), later[..i]) == Success(state)
    {
      assert later[..i + 1][..i] == later[..i];
      var next := ApplyBlock(state, later[i]);
      if next.Failure? {
        EarlyReplayFailure(GenesisState(blocks[0]), later, i + 1);
        return Failure(BlockFailed(next.error));
      }
      state := next.value;
    }
    assert later[..|later|] == later;
    r := Success(state);
  }

  lemma {:induction false} EarlyReplayFailure(s: State, blocks: seq<Block>, n: nat)
    requires n <= |blocks| && ReplayFrom(s, blocks[..n]).Failure?
    ensures ReplayFrom(s, blocks) == ReplayFrom(s, blocks[..n])
  {
    if n == |blocks| {
      assert blocks[..n] == blocks;
    } else {
      assert blocks[..|blocks| - 1][..n] == blocks[..n];
      EarlyReplayFailure(s, blocks[..|blocks| - 1], n);
    }
  }
}
