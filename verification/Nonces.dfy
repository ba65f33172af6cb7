/** Nonce sequencing: what acceptance says about a list's nonces, over one block
    and over whole chains, and why it makes a Merkle root unambiguous. */
module Nonces {
  import opened Types
  import opened Ledger
  import Merkle

  /** How many of the transactions a sender signed. */
  function CountFrom(txs: seq<Transaction>, sender: Address): nat {
    if txs == [] then 0 else
      CountFrom(txs[..|txs| - 1], sender) + if txs[|txs| - 1].from == sender then 1 else 0
  }

  /** Each transaction's nonce is its sender's starting nonce plus the number of
      that sender's transactions before it. */
  ghost predicate Sequenced(start: map<Address, int>, txs: seq<Transaction>) {
    forall i | 0 <= i < |txs| :: txs[i].nonce == NonceOf(start, txs[i].from) + CountFrom(txs[..i], txs[i].from)
  }

  ghost predicate Advanced(start: map<Address, int>, end: map<Address, int>, txs: seq<Transaction>) {
    forall a :: NonceOf(end, a) == NonceOf(start, a) + CountFrom(txs, a)
  }

  lemma SequencedAppend(start: map<Address, int>, mid: map<Address, int>, txs: seq<Transaction>, tx: Transaction)
    requires Sequenced(start, txs) && Advanced(start, mid, txs) && tx.nonce == NonceOf(mid, tx.from)
    ensures Sequenced(start, txs + [tx])
    ensures Advanced(start, mid[tx.from := tx.nonce + 1], txs + [tx])
  {
    var all := txs + [tx];
    assert all[..|txs|] == txs;
    forall i | 0 <= i < |all|
      ensures all[i].nonce == NonceOf(start, all[i].from) + CountFrom(all[..i], all[i].from)
    {
      if i < |txs| {
        assert all[..i] == txs[..i];
      }
    }
    forall a ensures NonceOf(mid[tx.from := tx.nonce + 1], a) == NonceOf(start, a) + CountFrom(all, a) {
      assert NonceOf(mid, a) == NonceOf(start, a) + CountFrom(txs, a);
    }
  }

  lemma NonceChecked(s: State, tx: Transaction)
    requires ApplyTx(s, tx).Success?
    ensures tx.nonce == NonceOf(s.nonces, tx.from)
    ensures ApplyTx(s, tx).value.nonces == s.nonces[tx.from := tx.nonce + 1]
  {
  }

  lemma {:induction false} AppliedSequenced(s: State, txs: seq<Transaction>)
    requires ApplyTxs(s, txs).Success?
    ensures Sequenced(s.nonces, txs)
    ensures Advanced(s.nonces, ApplyTxs(s, txs).value.nonces, txs)
  {
    hide ApplyTx;
    if txs != [] {
      var init, tx := txs[..|txs| - 1], txs[|txs| - 1];
      AppliedSequenced(s, init);
      var mid := ApplyTxs(s, init).value;
      NonceChecked(mid, tx);
      SequencedAppend(s.nonces, mid.nonces, init, tx);
      assert init + [tx] == txs;
    }
  }

  lemma {:induction false} CountMonotone(txs: seq<Transaction>, i: nat, j: nat, sender: Address)
    requires i <= j <= |txs|
    ensures CountFrom(txs[..i], sender) <= CountFrom(txs[..j], sender)
    decreases j - i
  {
    if i < j {
      CountMonotone(txs, i, j - 1, sender);
      assert txs[..j][..j - 1] == txs[..j - 1];
    }
  }

  lemma SequencedDistinct(start: map<Address, int>, txs: seq<Transaction>)
    requires Sequenced(start, txs)
    ensures Merkle.NoRepeats(txs)
  {
    forall i, j | 0 <= i < j < |txs| ensures txs[i] != txs[j] {
      CountMonotone(txs, i + 1, j, txs[i].from);
      assert txs[..i + 1][..i] == txs[..i];
    }
  }

  /** The root binds the body: of all lists that apply, from any states, at most
      one has a given root, whatever the padding would allow. */
  lemma RootBindsBody(s: State, t: State, a: seq<Transaction>, b: seq<Transaction>)
    requires ApplyTxs(s, a).Success? && ApplyTxs(t, b).Success?
    ensures Merkle.Root(a) == Merkle.Root(b) <==> a == b
  {
    AppliedSequenced(s, a);
    AppliedSequenced(t, b);
    SequencedDistinct(s.nonces, a);
    SequencedDistinct(t.nonces, b);
    Merkle.RootBindsDistinct(a, b);
  }

  // ----- whole chains -----

  function AllTxs(blocks: seq<Block>): seq<Transaction> {
    if blocks == [] then [] else AllTxs(blocks[..|blocks| - 1]) + blocks[|blocks| - 1].transactions
  }

  lemma {:induction false} SequencedJoin(start: map<Address, int>, mid: map<Address, int>, end: map<Address, int>,
                                         a: seq<Transaction>, b: seq<Transaction>)
    requires Sequenced(start, a) && Advanced(start, mid, a) && Sequenced(mid, b) && Advanced(mid, end, b)
    ensures Sequenced(start, a + b) && Advanced(start, end, a + b)
  {
    var all := a + b;
    forall i | 0 <= i < |all|
      ensures all[i].nonce == NonceOf(start, all[i].from) + CountFrom(all[..i], all[i].from)
    {
      if i < |a| {
        assert all[..i] == a[..i];
      } else {
        assert all[..i] == a + b[..i - |a|];
        CountJoin(a, b[..i - |a|], all[i].from);
        assert NonceOf(mid, all[i].from) == NonceOf(start, all[i].from) + CountFrom(a, all[i].from);
      }
    }
    forall x ensures NonceOf(end, x) == NonceOf(start, x) + CountFrom(all, x) {
      CountJoin(a, b, x);
      assert NonceOf(mid, x) == NonceOf(start, x) + CountFrom(a, x);
    }
  }

  lemma {:induction false} CountJoin(a: seq<Transaction>, b: seq<Transaction>, sender: Address)
    ensures CountFrom(a + b, sender) == CountFrom(a, sender) + CountFrom(b, sender)
  {
    if b == [] {
      assert a + b == a;
    } else {
      CountJoin(a, b[..|b| - 1], sender);
      assert (a + b)[..|a + b| - 1] == a + b[..|b| - 1];
    }
  }

  lemma RewardKeepsNonces(s: State, b: Block)
    requires Apply(s, b).Success?
    ensures Apply(s, b).value.nonces == ApplyTxs(s, b.transactions).value.nonces
  {
  }

  lemma {:induction false} ReplaySequenced(s: State, blocks: seq<Block>)
    requires ReplayFrom(s, blocks).Success?
    ensures Sequenced(s.nonces, AllTxs(blocks))
    ensures Advanced(s.nonces, ReplayFrom(s, blocks).value.nonces, AllTxs(blocks))
  {
    if blocks != [] {
      var init, b := blocks[..|blocks| - 1], blocks[|blocks| - 1];
      ReplaySequenced(s, init);
      var mid := ReplayFrom(s, init).value;
      AppliedSequenced(mid, b.transactions);
      RewardKeepsNonces(mid, b);
      SequencedJoin(s.nonces, mid.nonces, ReplayFrom(s, blocks).value.nonces, AllTxs(init), b.transactions);
    }
  }

  /** In any replayable chain each sender's nonces are 0, 1, 2, ... in chain
      order, the recorded nonce is the sender's transaction count, and no
      transaction appears twice. */
  lemma ChainNonces(blocks: seq<Block>)
    requires ReplayBlocks(blocks).Success?
    ensures
      var txs := AllTxs(blocks[1..]);
      && (forall i | 0 <= i < |txs| :: txs[i].nonce == CountFrom(txs[..i], txs[i].from))
      && (forall a :: NonceOf(ReplayBlocks(blocks).value.nonces, a) == CountFrom(txs, a))
      && Merkle.NoRepeats(txs)
  {
    ReplaySequenced(GenesisState(blocks[0]), blocks[1..]);
    SequencedDistinct(map[], AllTxs(blocks[1..]));
    assert forall a :: NonceOf(map[], a) == 0;
  }
}
