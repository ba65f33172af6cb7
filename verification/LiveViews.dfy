/** The cluster's live view: bounded windows kept block by block, the batch
    replay they must equal, and the proofs they can always answer with. */
module LiveViews {
  import opened Wrappers
  import opened Words
  import opened Sums
  import opened Types
  import opened Ledger
  import opened LedgerObjects
  import opened Chains
  import Merkle
  import Nonces

  const RECENT_BLOCKS := 30
  const RECENT_TXS := 40

  datatype BlockInfo = BlockInfo(height: int, hash: Digest, proposer: Address, txs: nat, time: int)

  datatype TxInfo = TxInfo(hash: Digest, height: int, kind: Kind, from: Address, to: Address, amount: nat, time: int)

  datatype LiveView = LiveView(height: int, supply: nat, balances: map<Address, nat>, nonces: map<Address, int>,
                               delegations: Bonds, recent: seq<BlockInfo>, txs: seq<TxInfo>,
                               proposed: map<Address, nat>, fullBlocks: seq<Block>)

  function Newest<T>(s: seq<T>, n: nat): seq<T> {
    if |s| > n then s[|s| - n..] else s
  }

  function Summary(b: Block): BlockInfo {
    BlockInfo(b.header.height, b.Hash(), b.header.proposer, |b.transactions|, b.header.createdAt)
  }

  function Entry(b: Block, tx: Transaction): TxInfo {
    TxInfo(LeafHash(tx), b.header.height, tx.kind, tx.from, tx.to, tx.amount, b.header.createdAt)
  }

  function Entries(b: Block): (r: seq<TxInfo>)
    ensures |r| == |b.transactions| && forall i | 0 <= i < |r| :: r[i] == Entry(b, b.transactions[i])
  {
    seq(|b.transactions|, i requires 0 <= i < |b.transactions| => Entry(b, b.transactions[i]))
  }

  // ----- one block at a time -----

  /** The view after recordBlock; a height already recorded changes nothing. */
  ghost function Record(v: LiveView, b: Block, st: State): LiveView {
    if b.header.height <= v.height then v
    else Windows(v, b, st, if b.transactions != [] then Newest(v.fullBlocks + [b], RECENT_TXS) else v.fullBlocks)
  }

  ghost function Windows(v: LiveView, b: Block, st: State, fullBlocks: seq<Block>): LiveView {
    LiveView(b.header.height, Uint64(TrueSupply(st)), st.balances, st.nonces, st.delegations,
             Newest(v.recent + [Summary(b)], RECENT_BLOCKS),
             Newest(v.txs + Entries(b), RECENT_TXS),
             v.proposed[b.header.proposer := Get(v.proposed, b.header.proposer) + 1],
             fullBlocks)
  }

  lemma Recorded(v: LiveView, b: Block, st: State)
    ensures b.header.height <= v.height ==> Record(v, b, st) == v
    ensures b.header.height > v.height && b.transactions == [] ==>
              Record(v, b, st) == Windows(v, b, st, v.fullBlocks)
    ensures b.header.height > v.height && b.transactions != [] ==>
              Record(v, b, st) == Windows(v, b, st, Newest(v.fullBlocks + [b], RECENT_TXS))
  {
  }

  // ----- all at once -----

  function Summaries(blocks: seq<Block>): seq<BlockInfo> {
    if blocks == [] then [] else Summaries(blocks[..|blocks| - 1]) + [Summary(blocks[|blocks| - 1])]
  }

  function Feed(blocks: seq<Block>): seq<TxInfo> {
    if blocks == [] then [] else Feed(blocks[..|blocks| - 1]) + Entries(blocks[|blocks| - 1])
  }

  /** The blocks that carry transactions. */
  function Carrying(blocks: seq<Block>): (r: seq<Block>)
    ensures forall b :: b in r <==> b in blocks && b.transactions != []
  {
    if blocks == [] then [] else
      var rest := Carrying(blocks[..|blocks| - 1]);
      var b := blocks[|blocks| - 1];
      assert blocks == blocks[..|blocks| - 1] + [b];
      if b.transactions != [] then rest + [b] else rest
  }

  function ProposerCounts(blocks: seq<Block>): map<Address, nat> {
    if blocks == [] then map[] else
      var rest := ProposerCounts(blocks[..|blocks| - 1]);
      var p := blocks[|blocks| - 1].header.proposer;
      rest[p := Get(rest, p) + 1]
  }

  /** The view seedLiveView builds from a chain. */
  ghost function Seed(c: ChainView): LiveView
    requires c.blocks != []
  {
    var later := c.blocks[1..];
    LiveView(c.Tip().header.height, Uint64(TrueSupply(c.state)), c.state.balances, c.state.nonces, c.state.delegations,
             Newest(Summaries(later), RECENT_BLOCKS), Newest(Feed(later), RECENT_TXS), ProposerCounts(later),
             Newest(Carrying(later), RECENT_TXS))
  }

  lemma NewestAppend<T>(s: seq<T>, t: seq<T>, n: nat)
    ensures Newest(Newest(s, n) + t, n) == Newest(s + t, n)
  {
  }

  /** Trimming as blocks arrive ends where trimming once does: recording the next
      block on the view of a chain gives the view of the longer chain. */
  lemma RecordSeeds(c: ChainView, b: Block, st: State)
    requires c.blocks != [] && b.header.height == c.Tip().header.height + 1
    ensures Record(Seed(c), b, st) == Seed(ChainView(c.blocks + [b], st))
  {
    hide Newest, Entries, Summaries, Feed, Carrying, ProposerCounts, Summary, TrueSupply, Uint64, Get;
    var later := c.blocks[1..];
    SeedMore(c, b, st);
    WindowsAgree(later, b);
  }

  lemma SeedMore(c: ChainView, b: Block, st: State)
    requires c.blocks != []
    ensures
      var later := c.blocks[1..] + [b];
      Seed(ChainView(c.blocks + [b], st))
        == LiveView(b.header.height, Uint64(TrueSupply(st)), st.balances, st.nonces, st.delegations,
                    Newest(Summaries(later), RECENT_BLOCKS), Newest(Feed(later), RECENT_TXS), ProposerCounts(later),
                    Newest(Carrying(later), RECENT_TXS))
  {
    hide Newest, Entries, Summaries, Feed, Carrying, ProposerCounts, Summary, TrueSupply, Uint64;
    assert (c.blocks + [b])[1..] == c.blocks[1..] + [b];
  }

  lemma WindowsAgree(later: seq<Block>, b: Block)
    ensures Newest(Newest(Summaries(later), RECENT_BLOCKS) + [Summary(b)], RECENT_BLOCKS)
         == Newest(Summaries(later + [b]), RECENT_BLOCKS)
    ensures Newest(Newest(Feed(later), RECENT_TXS) + Entries(b), RECENT_TXS) == Newest(Feed(later + [b]), RECENT_TXS)
    ensures ProposerCounts(later)[b.header.proposer := Get(ProposerCounts(later), b.header.proposer) + 1]
         == ProposerCounts(later + [b])
    ensures Newest(Carrying(later + [b]), RECENT_TXS)
         == if b.transactions != [] then Newest(Newest(Carrying(later), RECENT_TXS) + [b], RECENT_TXS)
            else Newest(Carrying(later), RECENT_TXS)
  {
    hide Newest, Entries, Summaries, Feed, Carrying, ProposerCounts, Summary, Get;
    OneMore(later, b);
    NewestAppend(Summaries(later), [Summary(b)], RECENT_BLOCKS);
    NewestAppend(Feed(later), Entries(b), RECENT_TXS);
    KeptWhole(Carrying(later), b);
  }

  lemma KeptWhole(full: seq<Block>, b: Block)
    ensures Newest(full + (if b.transactions != [] then [b] else []), RECENT_TXS)
         == if b.transactions != [] then Newest(Newest(full, RECENT_TXS) + [b], RECENT_TXS)
            else Newest(full, RECENT_TXS)
  {
    NewestAppend(full, [b], RECENT_TXS);
    assert full + [] == full;
  }

  lemma NothingYet()
    ensures Summaries([]) == [] && Feed([]) == [] && ProposerCounts([]) == map[] && Carrying([]) == []
  {
  }

  lemma OneMore(later: seq<Block>, b: Block)
    ensures Summaries(later + [b]) == Summaries(later) + [Summary(b)]
    ensures Feed(later + [b]) == Feed(later) + Entries(b)
    ensures ProposerCounts(later + [b])
         == ProposerCounts(later)[b.header.proposer := Get(ProposerCounts(later), b.header.proposer) + 1]
    ensures Carrying(later + [b]) == Carrying(later) + if b.transactions != [] then [b] else []
  {
    hide Entries, Summary;
    assert (later + [b])[..|later|] == later;
  }

  // ----- what the view shows -----

  lemma {:induction false} SummaryAt(blocks: seq<Block>, k: nat)
    requires k < |blocks|
    ensures |Summaries(blocks)| == |blocks|
    ensures
      var b := blocks[k];
      Summaries(blocks)[k]
        == BlockInfo(b.header.height, HeaderHash(b.header), b.header.proposer, |b.transactions|, b.header.createdAt)
    decreases |blocks|
  {
    var init := blocks[..|blocks| - 1];
    SummariesLength(init);
    if k < |init| {
      SummaryAt(init, k);
    }
  }

  lemma {:induction false} SummariesLength(blocks: seq<Block>)
    ensures |Summaries(blocks)| == |blocks|
  {
    if blocks != [] {
      SummariesLength(blocks[..|blocks| - 1]);
    }
  }

  /** The entry shows this transaction, of this block. */
  ghost predicate ShowsTx(t: TxInfo, b: Block, tx: Transaction) {
    && tx in b.transactions && t.hash == LeafHash(tx) && t.height == b.header.height && t.time == b.header.createdAt
    && t.kind == tx.kind && t.from == tx.from && t.to == tx.to && t.amount == tx.amount
  }

  ghost predicate ShowsTxOf(t: TxInfo, blocks: seq<Block>, tx: Transaction) {
    exists b :: b in blocks && ShowsTx(t, b, tx)
  }

  lemma {:induction false} FeedLength(blocks: seq<Block>)
    ensures |Feed(blocks)| == |Nonces.AllTxs(blocks)|
  {
    if blocks != [] {
      FeedLength(blocks[..|blocks| - 1]);
    }
  }

  lemma {:induction false} FeedAt(blocks: seq<Block>, k: nat) returns (b: Block)
    requires k < |Feed(blocks)|
    ensures |Feed(blocks)| == |Nonces.AllTxs(blocks)|
    ensures b in blocks && ShowsTx(Feed(blocks)[k], b, Nonces.AllTxs(blocks)[k])
    decreases |blocks|
  {
    hide ShowsTx;
    var init, last := blocks[..|blocks| - 1], blocks[|blocks| - 1];
    FeedLength(init);
    if k < |Feed(init)| {
      b := FeedAt(init, k);
    } else {
      EntryShows(last, k - |Feed(init)|);
      b := last;
    }
  }

  lemma EntryShows(b: Block, k: nat)
    requires k < |b.transactions|
    ensures ShowsTx(Entries(b)[k], b, b.transactions[k])
  {
  }

  /** The heights at which this proposer proposed. */
  function ProposedBy(blocks: seq<Block>, p: Address): set<int> {
    set k | 0 <= k < |blocks| && blocks[k].header.proposer == p
  }

  lemma {:induction false} CountsProposals(blocks: seq<Block>, p: Address)
    ensures Get(ProposerCounts(blocks), p) == |ProposedBy(blocks, p)|
  {
    if blocks != [] {
      var init, last := blocks[..|blocks| - 1], |blocks| - 1;
      CountsProposals(init, p);
      assert ProposedBy(blocks, p)
          == if blocks[last].header.proposer == p then ProposedBy(init, p) + {last} else ProposedBy(init, p);
    }
  }

  /** The view of a chain shows its tip's height and its ledger, its newest 30 blocks
      and newest 40 transactions in order, each as it is, and how many blocks each
      proposer proposed. */
  lemma ViewShows(c: ChainView)
    requires c.blocks != []
    ensures
      var v, later := Seed(c), c.blocks[1..];
      var all := Nonces.AllTxs(later);
      && v.height == c.Tip().header.height
      && v.balances == c.state.balances && v.nonces == c.state.nonces && v.delegations == c.state.delegations
      && |v.recent| == (if |later| > 30 then 30 else |later|)
      && (forall k | 0 <= k < |v.recent| ::
            var b := later[|later| - |v.recent| + k];
            v.recent[k] == BlockInfo(b.header.height, HeaderHash(b.header), b.header.proposer, |b.transactions|,
                                     b.header.createdAt))
      && |v.txs| == (if |all| > 40 then 40 else |all|)
      && (forall k | 0 <= k < |v.txs| ::
            ShowsTxOf(v.txs[k], later, all[|all| - |v.txs| + k]))
      && (forall p :: Get(v.proposed, p) == |ProposedBy(later, p)|)
      && |v.fullBlocks| <= 40 && forall b | b in v.fullBlocks :: b in later && b.transactions != []
  {
    hide Summaries, Feed, Carrying, ProposerCounts, ShowsTx, ProposedBy, TrueSupply, Newest, Nonces.AllTxs, Uint64;
    var v, later := Seed(c), c.blocks[1..];
    RecentShown(later);
    FeedShown(later);
    NewestFits(Carrying(later), 40);
    forall p ensures Get(v.proposed, p) == |ProposedBy(later, p)| {
      CountsProposals(later, p);
    }
  }

  lemma NewestFits<T>(s: seq<T>, n: nat)
    ensures |Newest(s, n)| == (if |s| > n then n else |s|)
    ensures forall k | 0 <= k < |Newest(s, n)| :: Newest(s, n)[k] == s[|s| - |Newest(s, n)| + k]
    ensures forall x | x in Newest(s, n) :: x in s
  {
  }

  lemma RecentShown(later: seq<Block>)
    ensures
      var recent := Newest(Summaries(later), 30);
      && |recent| == (if |later| > 30 then 30 else |later|)
      && forall k | 0 <= k < |recent| ::
           var b := later[|later| - |recent| + k];
           recent[k] == BlockInfo(b.header.height, HeaderHash(b.header), b.header.proposer, |b.transactions|,
                                  b.header.createdAt)
  {
    hide Newest, Summaries;
    SummariesLength(later);
    NewestFits(Summaries(later), 30);
    var recent := Newest(Summaries(later), 30);
    forall k | 0 <= k < |recent|
      ensures
        var b := later[|later| - |recent| + k];
        recent[k] == BlockInfo(b.header.height, HeaderHash(b.header), b.header.proposer, |b.transactions|,
                               b.header.createdAt)
    {
      SummaryAt(later, |later| - |recent| + k);
    }
  }

  lemma FeedShown(later: seq<Block>)
    ensures
      var txs, all := Newest(Feed(later), 40), Nonces.AllTxs(later);
      && |txs| == (if |all| > 40 then 40 else |all|)
      && |txs| <= |all|
      && forall k | 0 <= k < |txs| :: ShowsTxOf(txs[k], later, all[|all| - |txs| + k])
  {
    hide Newest, Feed, ShowsTx, Nonces.AllTxs;
    FeedLength(later);
    NewestFits(Feed(later), 40);
    var txs, all := Newest(Feed(later), 40), Nonces.AllTxs(later);
    forall k | 0 <= k < |txs| ensures ShowsTxOf(txs[k], later, all[|all| - |txs| + k]) {
      var b := FeedAt(later, |all| - |txs| + k);
      assert txs[k] == Feed(later)[|all| - |txs| + k];
      assert b in later && ShowsTx(txs[k], b, all[|all| - |txs| + k]);
    }
  }

  // ----- inclusion proofs -----

  /** Every entry still in the feed belongs to a block still kept whole. */
  lemma {:induction false} FeedCovered(blocks: seq<Block>, n: nat, t: TxInfo)
    requires t in Newest(Feed(blocks), n)
    ensures exists b :: b in Newest(Carrying(blocks), n) && t in Entries(b)
    decreases |blocks|
  {
    hide Newest, Entries, Feed, Carrying;
    NothingFed(n);
    var init, last := blocks[..|blocks| - 1], blocks[|blocks| - 1];
    var m := |last.transactions|;
    assert init + [last] == blocks;
    OneMore(init, last);
    if t in Entries(last) {
      EntryMeansRoom(Feed(init), Entries(last), Carrying(init), last, n, t);
    } else {
      OlderEntry(Feed(init), Entries(last), n, t);
      FeedCovered(init, n - m, t);
      var b :| b in Newest(Carrying(init), n - m) && t in Entries(b);
      if m > 0 {
        NewestOlder(Carrying(init), last, n, n - m, b);
      } else {
        assert Carrying(init) + [] == Carrying(init);
      }
    }
  }

  lemma NothingFed(n: nat)
    ensures Newest(Feed([]), n) == []
  {
  }

  lemma EntryMeansRoom(s: seq<TxInfo>, t: seq<TxInfo>, blocks: seq<Block>, last: Block, n: nat, x: TxInfo)
    requires x in Newest(s + t, n)
    ensures last in Newest(blocks + [last], n)
  {
    var r := Newest(blocks + [last], n);
    assert r[|r| - 1] == last;
  }

  lemma OlderEntry<T>(s: seq<T>, t: seq<T>, n: nat, x: T)
    requires x in Newest(s + t, n) && x !in t
    ensures |t| <= n && x in Newest(s, n - |t|)
  {
    var r := Newest(s + t, n);
    var k :| 0 <= k < |r| && r[k] == x;
    var at := |s + t| - |r| + k;
    assert (s + t)[at] == x;
    assert at < |s|;
    var q := Newest(s, n - |t|);
    assert q[at - (|s| - |q|)] == x;
  }

  lemma NewestOlder<T>(s: seq<T>, last: T, n: nat, fewer: nat, x: T)
    requires fewer < n && x in Newest(s, fewer)
    ensures x in Newest(s + [last], n)
  {
    var r := Newest(s, fewer);
    var k :| 0 <= k < |r| && r[k] == x;
    var q := Newest(s + [last], n);
    var at := |s| - |r| + k;
    assert (s + [last])[at] == x;
    assert q[at - (|s| + 1 - |q|)] == x;
  }

  datatype Proof = Proof(leaf: Digest, index: int, siblings: seq<Digest>, root: Digest)

  /** What a light client checks. */
  predicate Verifies(p: Proof) {
    Merkle.Fold(p.leaf, p.index, p.siblings) == p.root
  }

  /** Block.InclusionProof. None exactly when the block holds no such transaction. */
  method BlockInclusionProof(b: Block, hash: Digest) returns (p: Option<Proof>)
    ensures p.Some? <==> exists tx :: tx in b.transactions && LeafHash(tx) == hash
    ensures p.Some? ==> p.value.leaf == hash && p.value.root == b.header.txRoot
    ensures p.Some? && b.header.txRoot == Merkle.Root(b.transactions) ==> Verifies(p.value)
    ensures p.Some? ==> 0 <= p.value.index < |b.transactions| && LeafHash(b.transactions[p.value.index]) == hash
  {
    for i := 0 to |b.transactions|
      invariant forall j | 0 <= j < i :: LeafHash(b.transactions[j]) != hash
    {
      var tx := b.transactions[i];
      if LeafHash(tx) == hash {
        var siblings := Merkle.MerkleProof(b.transactions, i);
        if siblings == None {
          return None;
        }
        return Some(Proof(LeafHash(tx), i, siblings.value, b.header.txRoot));
      }
    }
    p := None;
  }

  // ----- the cluster object -----

  class Cluster {
    var height: int
    var supply: nat
    var balances: map<Address, nat>
    var nonces: map<Address, int>
    var delegations: Bonds
    var recent: seq<BlockInfo>
    var txs: seq<TxInfo>
    var proposed: map<Address, nat>
    var fullBlocks: seq<Block>
    var log: seq<Block>                // what onCommit has been called with

    ghost function View(): LiveView
      reads this
    {
      LiveView(height, supply, balances, nonces, delegations, recent, txs, proposed, fullBlocks)
    }

    /** Seeds the live view from a replayed chain. */
    constructor (c: ChainView)
      requires c.blocks != []
      ensures View() == Seed(c) && log == []
    {
      hide TrueSupply, Uint64, Summaries, Feed, ProposerCounts, Carrying;
      var total := SupplyOf(c.state);
      supply := total;
      balances, nonces, delegations := c.state.balances, c.state.nonces, c.state.delegations;
      height := c.Tip().header.height;
      log := [];
      var blocks, entries, counts, full := Replayed(c.blocks[1..]);
      blocks := Trimmed(blocks, RECENT_BLOCKS);
      entries := Trimmed(entries, RECENT_TXS);
      full := Trimmed(full, RECENT_TXS);
      recent, txs, fullBlocks := blocks, entries, full;
      proposed := counts;
    }

    /** Called by every node at every height it commits; acts on the first. */
    method RecordBlock(b: Block, st: State)
      modifies this
      ensures View() == Record(old(View()), b, st)
      ensures log == if b.header.height <= old(height) then old(log) else old(log) + [b]
    {
      hide TrueSupply, Uint64, Summary, Entries, Get, Newest, Record;
      ghost var v := View();
      Recorded(v, b, st);
      if b.header.height <= height {
        return;
      }
      height := b.header.height;
      supply := SupplyOf(st);
      balances, nonces, delegations := st.balances, st.nonces, st.delegations;
      PushBlock(b);
      log := log + [b];
    }

    /** Counts the proposer and slides the three windows. */
    method PushBlock(b: Block)
      modifies this`proposed, this`recent, this`txs, this`fullBlocks
      ensures proposed == old(proposed)[b.header.proposer := Get(old(proposed), b.header.proposer) + 1]
      ensures recent == Newest(old(recent) + [Summary(b)], RECENT_BLOCKS)
      ensures txs == Newest(old(txs) + Entries(b), RECENT_TXS)
      ensures fullBlocks == if b.transactions != [] then Newest(old(fullBlocks) + [b], RECENT_TXS) else old(fullBlocks)
    {
      hide Summary, Entries, Get, Newest;
      proposed := proposed[b.header.proposer := Get(proposed, b.header.proposer) + 1];
      recent := Trimmed(recent + [Summary(b)], RECENT_BLOCKS);
      if |b.transactions| > 0 {
        fullBlocks := Trimmed(fullBlocks + [b], RECENT_TXS);
      }
      var entries := ListEntries(b);
      txs := Trimmed(txs + entries, RECENT_TXS);
    }

    /** A proof from the first kept block at that height. */
    method InclusionProof(at: int, hash: Digest) returns (p: Option<Proof>)
      ensures p.Some? ==> p.value.leaf == hash
                          && exists b :: b in fullBlocks && b.header.height == at && p.value.root == b.header.txRoot
      ensures forall b, tx | Uniquely(fullBlocks, b) && b.header.height == at && tx in b.transactions
              && LeafHash(tx) == hash ::
                p.Some? && (b.header.txRoot == Merkle.Root(b.transactions) ==> Verifies(p.value))
    {
      for k := 0 to |fullBlocks|
        invariant forall j | 0 <= j < k :: fullBlocks[j].header.height != at
      {
        if fullBlocks[k].header.height == at {
          p := BlockInclusionProof(fullBlocks[k], hash);
          assert fullBlocks[k] in fullBlocks;
          return;
        }
      }
      p := None;
    }
  }

  method Trimmed<T>(s: seq<T>, n: nat) returns (r: seq<T>)
    ensures r == Newest(s, n)
  {
    r := s;
    if |r| > n {
      r := r[|r| - n..];
    }
  }

  method SupplyOf(st: State) returns (supply: nat)
    ensures supply == Uint64(TrueSupply(st))
  {
    var ledger := new LedgerState.Clone(st);
    supply := ledger.ReportSupply();
  }

  /** The loop over a replayed chain, before its windows are trimmed. */
  method Replayed(later: seq<Block>)
    returns (recent: seq<BlockInfo>, txs: seq<TxInfo>, proposed: map<Address, nat>, fullBlocks: seq<Block>)
    ensures recent == Summaries(later) && txs == Feed(later)
    ensures proposed == ProposerCounts(later) && fullBlocks == Carrying(later)
  {
    hide Summary, Entries, Get, Summaries, Feed, ProposerCounts, Carrying;
    recent, txs, proposed, fullBlocks := [], [], map[], [];
    NothingYet();
    for k := 0 to |later|
      invariant recent == Summaries(later[..k]) && txs == Feed(later[..k])
      invariant proposed == ProposerCounts(later[..k]) && fullBlocks == Carrying(later[..k])
    {
      var b := later[k];
      assert later[..k + 1] == later[..k] + [b];
      OneMore(later[..k], b);
      proposed := proposed[b.header.proposer := Get(proposed, b.header.proposer) + 1];
      recent := recent + [Summary(b)];
      var entries := ListEntries(b);
      txs := txs + entries;
      if |b.transactions| > 0 {
        fullBlocks := fullBlocks + [b];
      }
    }
    assert later[..|later|] == later;
  }

  method ListEntries(b: Block) returns (entries: seq<TxInfo>)
    ensures entries == Entries(b)
  {
    entries := [];
    for i := 0 to |b.transactions|
      invariant entries == Entries(b)[..i]
    {
      entries := entries + [Entry(b, b.transactions[i])];
    }
  }

  /** b is there, and no other block there shares its height. */
  ghost predicate Uniquely(blocks: seq<Block>, b: Block) {
    b in blocks && forall c | c in blocks :: c.header.height == b.header.height ==> c == b
  }

  /** Each block's root commits to its transactions, and no two share a height. */
  ghost predicate RootedApart(blocks: seq<Block>) {
    && (forall b | b in blocks :: b.header.txRoot == Merkle.Root(b.transactions))
    && forall i, j | 0 <= i < j < |blocks| :: blocks[i].header.height != blocks[j].header.height
  }

  /** On such blocks, every transaction still in the feed has its block still kept,
      alone at its height, with a root that commits to it. */
  lemma FeedProvable(c: ChainView, t: TxInfo)
    requires c.blocks != [] && RootedApart(c.blocks[1..]) && t in Seed(c).txs
    ensures exists b, tx :: && Uniquely(Seed(c).fullBlocks, b) && b.header.height == t.height
                            && tx in b.transactions && LeafHash(tx) == t.hash
                            && b.header.txRoot == Merkle.Root(b.transactions)
  {
    hide Merkle.Root, BodyMatches;
    var later := c.blocks[1..];
    FeedCovered(later, RECENT_TXS, t);
    var kept := Newest(Carrying(later), RECENT_TXS);
    var b :| b in kept && t in Entries(b);
    var i :| 0 <= i < |b.transactions| && Entries(b)[i] == t;
    forall d | d in kept ensures d in Carrying(later) && d in later {
    }
    forall d | d in kept && d.header.height == b.header.height ensures d == b {
      OneAtEachHeight(later, d, b);
    }
    assert b.transactions[i] in b.transactions;
    assert Uniquely(kept, b);
  }

  /** Linked blocks are. */
  lemma LinkedApart(blocks: seq<Block>)
    requires Linked(blocks)
    ensures RootedApart(blocks)
  {
    hide Linked, Merkle.Root;
    forall b | b in blocks ensures b.header.txRoot == Merkle.Root(b.transactions) {
      RootedBlock(blocks, b);
    }
    forall i, j | 0 <= i < j < |blocks| ensures blocks[i].header.height != blocks[j].header.height {
      HeightsClimb(blocks, i, j);
    }
  }

  lemma RootedBlock(blocks: seq<Block>, b: Block)
    requires Linked(blocks) && b in blocks
    ensures b.header.txRoot == Merkle.Root(b.transactions)
  {
    var i :| 0 <= i < |blocks| && blocks[i] == b;
    assert BodyMatches(blocks[i]);
  }

  lemma {:induction false} HeightsClimb(blocks: seq<Block>, i: nat, j: nat)
    requires Linked(blocks) && i <= j < |blocks|
    ensures blocks[j].header.height == blocks[i].header.height + (j - i)
    decreases j
  {
    if i < j {
      HeightsClimb(blocks, i, j - 1);
      assert Follows(blocks[j - 1], blocks[j - 1 + 1]);
    }
  }

  lemma OneAtEachHeight(blocks: seq<Block>, a: Block, b: Block)
    requires RootedApart(blocks) && a in blocks && b in blocks && a.header.height == b.header.height
    ensures a == b
  {
    var i :| 0 <= i < |blocks| && blocks[i] == a;
    var j :| 0 <= j < |blocks| && blocks[j] == b;
  }
}
