/** What a chain that passes Validate protects: its tip pins down every block, and
    every proposer signed what bears its name. */
module Tamper {
  import opened Wrappers
  import opened Types
  import opened Ledger
  import opened Chains
  import Merkle
  import Nonces

  lemma {:induction false} HeightsCount(c: ChainView, i: nat)
    requires Passes(c) && i < |c.blocks|
    ensures c.blocks[i].header.height == i
  {
    hide ReplayFrom, BodyMatches, SameLedger;
    if i > 0 {
      HeightsCount(c, i - 1);
      assert Follows(c.blocks[i - 1], c.blocks[i - 1 + 1]);
    }
  }

  /** Equal tip hashes mean equal headers all the way down. */
  lemma {:induction false} SameHeaders(c: ChainView, d: ChainView, i: nat)
    requires Passes(c) && Passes(d) && |c.blocks| == |d.blocks| && i < |c.blocks| && c.Tip().Hash() == d.Tip().Hash()
    ensures c.blocks[i].header == d.blocks[i].header
    decreases |c.blocks| - i
  {
    hide ReplayFrom, BodyMatches, SameLedger;
    if i < |c.blocks| - 1 {
      SameHeaders(c, d, i + 1);
      assert Follows(c.blocks[i], c.blocks[i + 1]) && Follows(d.blocks[i], d.blocks[i + 1]);
    }
  }

  lemma {:induction false} PrefixReplays(s: State, blocks: seq<Block>, n: nat)
    requires ReplayFrom(s, blocks).Success? && n <= |blocks|
    ensures ReplayFrom(s, blocks[..n]).Success?
    decreases |blocks|
  {
    hide Apply;
    if n < |blocks| {
      assert blocks[..|blocks| - 1][..n] == blocks[..n];
      PrefixReplays(s, blocks[..|blocks| - 1], n);
    } else {
      assert blocks[..n] == blocks;
    }
  }

  /** Every block of a passing chain applied to some ledger. */
  lemma BodyApplied(c: ChainView, i: nat) returns (s: State)
    requires Passes(c) && 0 < i < |c.blocks|
    ensures ApplyTxs(s, c.blocks[i].transactions).Success?
  {
    hide ApplyTxs, DistributeReward, Linked, SameLedger;
    var later := c.blocks[1..];
    PrefixReplays(GenesisState(c.blocks[0]), later, i);
    assert later[..i][..i - 1] == later[..i - 1] && later[..i][i - 1] == c.blocks[i];
    s := ReplayFrom(GenesisState(c.blocks[0]), later[..i - 1]).value;
  }

  lemma SameBody(c: ChainView, d: ChainView, i: nat)
    requires Passes(c) && Passes(d) && i < |c.blocks| && i < |d.blocks|
    requires c.blocks[i].header == d.blocks[i].header
    ensures c.blocks[i].transactions == d.blocks[i].transactions
  {
    hide ReplayFrom, SameLedger, Follows, ApplyTxs, Merkle.Root;
    assert BodyMatches(c.blocks[i]) && BodyMatches(d.blocks[i]);
    if i > 0 {
      var s := BodyApplied(c, i);
      var t := BodyApplied(d, i);
      Nonces.RootBindsBody(s, t, c.blocks[i].transactions, d.blocks[i].transactions);
    }
  }

  lemma {:induction false} SameReplay(s: State, blocks: seq<Block>, other: seq<Block>)
    requires |blocks| == |other|
    requires forall i | 0 <= i < |blocks| ::
               blocks[i].header == other[i].header && blocks[i].transactions == other[i].transactions
    ensures ReplayFrom(s, blocks) == ReplayFrom(s, other)
  {
    hide ApplyTxs, DistributeReward;
    if blocks != [] {
      SameReplay(s, blocks[..|blocks| - 1], other[..|other| - 1]);
    }
  }

  /** Tamper evidence. Two chains that pass Validate and whose tips hash alike have the
      same length, the same header and the same transactions at every height, and
      the same ledger: nothing below a tip can be rewritten without changing it. */
  lemma TipBindsChain(c: ChainView, d: ChainView)
    requires Passes(c) && Passes(d) && c.blocks != [] && d.blocks != [] && c.Tip().Hash() == d.Tip().Hash()
    ensures |c.blocks| == |d.blocks|
    ensures forall i | 0 <= i < |c.blocks| ::
              c.blocks[i].header == d.blocks[i].header && c.blocks[i].transactions == d.blocks[i].transactions
    ensures c.state.balances == d.state.balances && c.state.nonces == d.state.nonces
            && c.state.delegations == d.state.delegations
  {
    hide Passes, ReplayFrom;
    HeightsCount(c, |c.blocks| - 1);
    HeightsCount(d, |d.blocks| - 1);
    forall i | 0 <= i < |c.blocks|
      ensures c.blocks[i].header == d.blocks[i].header && c.blocks[i].transactions == d.blocks[i].transactions
    {
      SameHeaders(c, d, i);
      SameBody(c, d, i);
    }
    SameReplay(GenesisState(c.blocks[0]), c.blocks[1..], d.blocks[1..]);
    PassedReplay(c);
    PassedReplay(d);
    PassesMeansReplayed(c);
    PassesMeansReplayed(d);
  }

  lemma PassedReplay(c: ChainView)
    requires Passes(c)
    ensures c.blocks != [] && ReplayBlocks(c.blocks).Success?
  {
    hide ReplayFrom, Linked, SameLedger;
  }

  /** Every block of a passing chain that names a proposer carries that proposer's
      own signature over its header. */
  lemma ProposerSigned(c: ChainView, i: nat)
    requires Passes(c) && i < |c.blocks| && c.blocks[i].header.proposer != ""
    ensures
      var b := c.blocks[i];
      var key := PubKeyFromAddress(b.header.proposer);
      && key.Some? && b.signature.Signed? && b.signature.signer == key.value
      && b.signature.payload == BlockPayload(HeaderHash(b.header))
  {
    hide ReplayFrom, SameLedger, Follows, PubKeyFromAddress, Merkle.Root;
    assert BodyMatches(c.blocks[i]);
  }
}
