/** The chain: candidate checks, growth from genesis, Validate, and pruning. */
module Chains {
  import opened Wrappers
  import opened Types
  import opened Ledger
  import opened Supply
  import opened LedgerObjects
  import Merkle

  datatype ChainView = ChainView(blocks: seq<Block>, state: State) {
    function Tip(): Block
      requires blocks != []
    {
      blocks[|blocks| - 1]
    }
  }

  datatype CandidateError =
    | WrongHeight | WrongPreviousHash | WrongTxRoot | NoProposer | BadBlockSignature | CannotApply(reason: ApplyError)

  /** Reads only the tip's header and the state, never the rest of the chain. */
  ghost function CheckAgainst(tip: Header, state: State, b: Block): Result<State, CandidateError> {
    if b.header.height != tip.height + 1 then Failure(WrongHeight)
    else if b.header.previousHash != HeaderHash(tip) then Failure(WrongPreviousHash)
    else if b.header.txRoot != Merkle.Root(b.transactions) then Failure(WrongTxRoot)
    else if b.header.proposer == "" then Failure(NoProposer)
    else if !VerifyBlockSignature(b) then Failure(BadBlockSignature)
    else match Apply(state, b)
      case Success(next) => Success(next)
      case Failure(e) => Failure(CannotApply(e))
  }

  ghost function CheckCandidate(c: ChainView, b: Block): Result<State, CandidateError>
    requires c.blocks != []
  {
    CheckAgainst(c.Tip().header, c.state, b)
  }

  /** The chain after CommitBlock, unchanged when the candidate is refused. */
  ghost function Commit(c: ChainView, b: Block): ChainView
    requires c.blocks != []
  {
    match CheckCandidate(c, b)
    case Success(next) => ChainView(c.blocks + [b], next)
    case Failure(_) => c
  }

  function NextBlock(tip: Block, txs: seq<Transaction>, now: int): Block {
    Block(Header(Merkle.Root(txs), tip.Hash(), now, tip.header.height + 1, map[], map[], ""), txs, Garbage(""))
  }

  /** The chain after AddBlock, unchanged when the transactions do not apply. */
  ghost function Add(c: ChainView, txs: seq<Transaction>, now: int): ChainView
    requires c.blocks != []
  {
    var b := NextBlock(c.Tip(), txs, now);
    match Apply(c.state, b)
    case Success(next) => ChainView(c.blocks + [b], next)
    case Failure(_) => c
  }

  function GenesisBlock(alloc: map<Address, nat>, validators: map<Address, nat>, now: int): Block {
    Block(Header(ZeroHash, Raw(""), now, 0, alloc, validators, ""), [], Garbage(""))
  }

  /** What a candidate must be, whatever the order of the checks: the next block on the
      tip, rooted, signed by the proposer it names, and applicable. */
  lemma CandidateExactly(c: ChainView, b: Block, next: State)
    requires c.blocks != []
    ensures CheckCandidate(c, b) == Success(next) <==>
      && b.header.height == c.Tip().header.height + 1
      && b.header.previousHash == HeaderHash(c.Tip().header)
      && b.header.txRoot == Merkle.Root(b.transactions)
      && PubKeyFromAddress(b.header.proposer).Some? && b.signature.Signed?
      && b.signature.signer == PubKeyFromAddress(b.header.proposer).value
      && b.signature.payload == BlockPayload(HeaderHash(b.header))
      && Apply(c.state, b) == Success(next)
  {
    hide Apply, Merkle.Root, HexDecode;
  }

  /** A block added directly carries the transactions given, names no proposer, and
      mints nothing. */
  lemma AddMintsNothing(c: ChainView, txs: seq<Transaction>, now: int)
    requires c.blocks != [] && Add(c, txs, now) != c && Fits(c.state, 0)
    ensures
      var r := Add(c, txs, now);
      && |r.blocks| == |c.blocks| + 1 && r.Tip().transactions == txs && r.Tip().header.proposer == ""
      && r.Tip().header.createdAt == now && TrueSupply(r.state) == TrueSupply(c.state)
  {
    hide Apply, TrueSupply, Merkle.Root;
    var b := NextBlock(c.Tip(), txs, now);
    if Apply(c.state, b).Success? {
      var k := ApplySupply(c.state, b);
    }
  }

  // ----- comparing delegations -----

  /** What delegationsEqual computes: equal sizes, and every inner map of a
      equals b's, an absent one reading as empty. */
  ghost predicate DelegationsAgree(a: Bonds, b: Bonds) {
    |a| == |b| && forall x | x in a :: a[x] == InnerOf(b, x)
  }

  /** It misses a difference only through an empty inner map: it decides
      equality against every b exactly when a has none. */
  lemma DelegationsAgreeExact(a: Bonds)
    ensures NoEmptyInner(a) <==> forall b :: DelegationsAgree(a, b) <==> a == b
  {
    if NoEmptyInner(a) {
      forall b ensures DelegationsAgree(a, b) <==> a == b {
        AgreeingIsEqual(a, b);
      }
    } else {
      var x :| x in a && a[x] == map[];
      var y := FreshAddress(a.Keys);
      var b := (a - {x})[y := map[y := 1]];
      assert b.Keys == a.Keys - {x} + {y};
      assert |b.Keys| == |a.Keys|;
      assert y in b && y !in a;
      assert DelegationsAgree(a, b) && a != b;
    }
  }

  lemma AgreeingIsEqual(a: Bonds, b: Bonds)
    requires NoEmptyInner(a)
    ensures DelegationsAgree(a, b) <==> a == b
  {
    if DelegationsAgree(a, b) {
      assert a.Keys <= b.Keys;
      SameSizeSubset(a.Keys, b.Keys);
    }
  }

  lemma AgreesWithItself(a: Bonds)
    ensures DelegationsAgree(a, a)
  {
  }

  lemma SameSizeSubset<T>(a: set<T>, b: set<T>)
    requires a <= b && |a| == |b|
    ensures a == b
  {
    assert |b - a| == |b| - |a|;
  }

  lemma {:induction false} FreshAddress(keys: set<Address>) returns (y: Address)
    ensures y !in keys && forall k | k in keys :: |k| < |y|
    decreases keys
  {
    if keys == {} {
      y := "";
    } else {
      var k :| k in keys;
      var z := FreshAddress(keys - {k});
      y := (if |z| < |k| then k else z) + "x";
    }
  }

  // ----- Validate -----

  ghost predicate BodyMatches(b: Block) {
    (b.header.proposer != "" ==> VerifyBlockSignature(b)) && b.header.txRoot == Merkle.Root(b.transactions)
  }

  ghost predicate Follows(a: Block, b: Block) {
    a.Hash() == b.header.previousHash && a.header.height + 1 == b.header.height
  }

  ghost predicate Linked(blocks: seq<Block>) {
    && (forall i | 0 <= i < |blocks| :: BodyMatches(blocks[i]))
    && (forall i | 0 <= i < |blocks| - 1 :: Follows(blocks[i], blocks[i + 1]))
  }

  ghost predicate SameLedger(replayed: State, s: State) {
    replayed.balances == s.balances && replayed.nonces == s.nonces
    && DelegationsAgree(replayed.delegations, s.delegations)
  }

  /** The chains on which Validate reports no error. */
  ghost predicate Passes(c: ChainView) {
    && Linked(c.blocks)
    && ReplayBlocks(c.blocks).Success?
    && SameLedger(ReplayBlocks(c.blocks).value, c.state)
  }

  // ----- growth -----

  datatype Op = AddOp(txs: seq<Transaction>, now: int) | CommitOp(block: Block)

  ghost function Perform(c: ChainView, op: Op): ChainView
    requires c.blocks != []
  {
    match op
    case AddOp(txs, now) => Add(c, txs, now)
    case CommitOp(b) => Commit(c, b)
  }

  ghost function Grow(genesis: Block, ops: seq<Op>): (c: ChainView)
    ensures c.blocks != []
  {
    if ops == [] then ChainView([genesis], GenesisState(genesis))
    else Perform(Grow(genesis, ops[..|ops| - 1]), ops[|ops| - 1])
  }

  /** What every chain grown from genesis keeps. */
  ghost predicate Sound(c: ChainView) {
    && c.blocks != [] && Linked(c.blocks)
    && ReplayBlocks(c.blocks) == Success(c.state)
    && NoEmptyInner(c.state.delegations)
  }

  lemma ReplayAppend(blocks: seq<Block>, s: State, b: Block)
    requires ReplayBlocks(blocks) == Success(s) && Apply(s, b).Success?
    ensures ReplayBlocks(blocks + [b]) == Success(Apply(s, b).value)
  {
    hide Apply;
    var later := (blocks + [b])[1..];
    assert later == blocks[1..] + [b];
    assert later[..|later| - 1] == blocks[1..];
  }

  lemma LinkedAppend(blocks: seq<Block>, b: Block)
    requires blocks != [] && Linked(blocks) && BodyMatches(b) && Follows(blocks[|blocks| - 1], b)
    ensures Linked(blocks + [b])
  {
    hide BodyMatches, Follows;
  }

  lemma AppendSound(c: ChainView, b: Block, next: State)
    requires Sound(c) && BodyMatches(b) && Follows(c.Tip(), b) && Apply(c.state, b) == Success(next)
    ensures Sound(ChainView(c.blocks + [b], next))
  {
    hide Apply, BodyMatches, Follows, Linked, ReplayBlocks;
    ReplayAppend(c.blocks, c.state, b);
    LinkedAppend(c.blocks, b);
    ApplyBonds(c.state, b);
  }

  lemma {:induction false} GrownSound(alloc: map<Address, nat>, validators: map<Address, nat>, now: int, ops: seq<Op>)
    ensures Sound(Grow(GenesisBlock(alloc, validators, now), ops))
  {
    hide Apply;
    var genesis := GenesisBlock(alloc, validators, now);
    if ops == [] {
      assert [genesis][1..] == [];
    } else {
      GrownSound(alloc, validators, now, ops[..|ops| - 1]);
      var c := Grow(genesis, ops[..|ops| - 1]);
      match ops[|ops| - 1]
      case AddOp(txs, at) =>
        var b := NextBlock(c.Tip(), txs, at);
        if Apply(c.state, b).Success? {
          AppendSound(c, b, Apply(c.state, b).value);
        }
      case CommitOp(b) =>
        if CheckCandidate(c, b).Success? {
          AppendSound(c, b, CheckCandidate(c, b).value);
        }
    }
  }

  /** A chain grown from its genesis block only by AddBlock and CommitBlock
      always passes Validate, and its state is exactly its replay. */
  lemma GrownPasses(alloc: map<Address, nat>, validators: map<Address, nat>, now: int, ops: seq<Op>)
    ensures
      var c := Grow(GenesisBlock(alloc, validators, now), ops);
      Passes(c) && ReplayBlocks(c.blocks) == Success(c.state)
  {
    var c := Grow(GenesisBlock(alloc, validators, now), ops);
    GrownSound(alloc, validators, now, ops);
    AgreeingIsEqual(c.state.delegations, c.state.delegations);
  }

  /** On such a chain a passing Validate means the state is the replay, not
      merely comparable to it: drift in any ledger map is caught. */
  lemma PassesMeansReplayed(c: ChainView)
    requires Passes(c)
    ensures
      var s := ReplayBlocks(c.blocks).value;
      c.state.balances == s.balances && c.state.nonces == s.nonces && c.state.delegations == s.delegations
  {
    var s := ReplayBlocks(c.blocks).value;
    ReplayBonds(GenesisState(c.blocks[0]), c.blocks[1..]);
    AgreeingIsEqual(s.delegations, c.state.delegations);
  }

  // ----- pruning -----

  const BLOCK_RETENTION := 256

  /** A paced node forgets all but the newest blocks once it holds twice as many. */
  function Prune(c: ChainView, paced: bool): ChainView {
    if paced && |c.blocks| >= 2 * BLOCK_RETENTION then
      c.(blocks := c.blocks[|c.blocks| - BLOCK_RETENTION..])
    else c
  }

  /** One height: commit, then prune. */
  ghost function Heights(c: ChainView, blocks: seq<Block>, paced: bool): (r: ChainView)
    requires c.blocks != []
    ensures r.blocks != []
  {
    if blocks == [] then c
    else Prune(Commit(Heights(c, blocks[..|blocks| - 1], paced), blocks[|blocks| - 1]), paced)
  }

  /** kept holds the newest blocks of full. */
  ghost predicate SuffixOf(kept: ChainView, full: ChainView) {
    && 0 < |kept.blocks| <= |full.blocks|
    && kept.blocks == full.blocks[|full.blocks| - |kept.blocks|..]
    && kept.state == full.state
  }

  lemma SuffixCommits(kept: ChainView, full: ChainView, b: Block)
    requires SuffixOf(kept, full)
    ensures CheckCandidate(kept, b) == CheckCandidate(full, b)
    ensures SuffixOf(Commit(kept, b), Commit(full, b))
  {
    hide Apply;
    assert kept.Tip() == full.Tip();
    var k, f := Commit(kept, b).blocks, Commit(full, b).blocks;
    if CheckCandidate(kept, b).Success? {
      assert f[|f| - |k|..] == full.blocks[|full.blocks| - |kept.blocks|..] + [b];
    }
  }

  /** A pruning node makes the decisions of one that never prunes, and after
      every height holds a true suffix of at least min(full, 256) and fewer
      than 512 blocks. */
  lemma {:induction false} PruningIsInvisible(c: ChainView, blocks: seq<Block>, b: Block)
    requires c.blocks != []
    ensures
      var kept, full := Heights(c, blocks, true), Heights(c, blocks, false);
      && SuffixOf(kept, full)
      && CheckCandidate(kept, b) == CheckCandidate(full, b)
      && (|kept.blocks| >= |full.blocks| || |kept.blocks| >= 256)
      && (blocks != [] ==> |kept.blocks| < 512)
    decreases |blocks|
  {
    hide CheckAgainst;
    if blocks != [] {
      var init, last := blocks[..|blocks| - 1], blocks[|blocks| - 1];
      PruningIsInvisible(c, init, last);
      SuffixCommits(Heights(c, init, true), Heights(c, init, false), last);
      PruneKeepsSuffix(Commit(Heights(c, init, true), last), Commit(Heights(c, init, false), last));
    }
    SuffixCommits(Heights(c, blocks, true), Heights(c, blocks, false), b);
  }

  lemma PruneKeepsSuffix(kept: ChainView, full: ChainView)
    requires SuffixOf(kept, full)
    ensures SuffixOf(Prune(kept, true), full) && |Prune(kept, true).blocks| < 2 * BLOCK_RETENTION
    ensures |Prune(kept, true).blocks| >= |kept.blocks| || |Prune(kept, true).blocks| == BLOCK_RETENTION
  {
    var cut := |full.blocks| - |kept.blocks|;
    if |kept.blocks| >= 2 * BLOCK_RETENTION {
      assert kept.blocks[|kept.blocks| - BLOCK_RETENTION..] == full.blocks[|full.blocks| - BLOCK_RETENTION..];
    }
  }

  // ----- the chain object -----

  datatype ValidateError =
    | BlockSignature(index: nat) | TxRootMismatch(index: nat) | BrokenLink(index: nat) | BrokenHeight(index: nat)
    | DoesNotReplay(reason: ReplayError) | BalancesDiffer | NoncesDiffer | DelegationsDiffer

  /** What an error says is wrong, is. */
  ghost predicate Explains(e: ValidateError, c: ChainView) {
    match e
    case BlockSignature(i) =>
      i < |c.blocks| && c.blocks[i].header.proposer != "" && !VerifyBlockSignature(c.blocks[i])
    case TxRootMismatch(i) =>
      i < |c.blocks| && c.blocks[i].header.txRoot != Merkle.Root(c.blocks[i].transactions)
    case BrokenLink(i) =>
      i + 1 < |c.blocks| && HeaderHash(c.blocks[i].header) != c.blocks[i + 1].header.previousHash
    case BrokenHeight(i) =>
      i + 1 < |c.blocks| && c.blocks[i].header.height + 1 != c.blocks[i + 1].header.height
    case DoesNotReplay(reason) => ReplayBlocks(c.blocks) == Failure(reason)
    case BalancesDiffer =>
      ReplayBlocks(c.blocks).Success? && ReplayBlocks(c.blocks).value.balances != c.state.balances
    case NoncesDiffer =>
      ReplayBlocks(c.blocks).Success? && ReplayBlocks(c.blocks).value.nonces != c.state.nonces
    case DelegationsDiffer =>
      ReplayBlocks(c.blocks).Success? && ReplayBlocks(c.blocks).value.delegations != c.state.delegations
  }

  method DelegationsEqual(a: Bonds, b: Bonds) returns (equal: bool)
    ensures equal <==> DelegationsAgree(a, b)
  {
    if |a| != |b| {
      return false;
    }
    var rest := a.Keys;
    while rest != {}
      invariant rest <= a.Keys
      invariant forall x | x in a && x !in rest :: a[x] == InnerOf(b, x)
      decreases rest
    {
      var x :| x in rest;
      if a[x] != InnerOf(b, x) {
        return false;
      }
      rest := rest - {x};
    }
    equal := true;
  }

  class Chain {
    var Blocks: seq<Block>
    var state: State

    ghost function View(): ChainView
      reads this
    {
      ChainView(Blocks, state)
    }

    constructor (genesis: Block)
      requires genesis.header.height == 0 && genesis.transactions == []
      ensures View() == Grow(genesis, [])
      ensures ReplayBlocks([genesis]) == Success(View().state)
    {
      Blocks := [genesis];
      state := GenesisState(genesis);
      assert [genesis][1..] == [];
    }

    method AddBlock(txs: seq<Transaction>, now: int) returns (err: Option<ApplyError>)
      requires Blocks != []
      modifies this
      ensures View() == Add(old(View()), txs, now)
      ensures err == None <==> |Blocks| == |old(Blocks)| + 1
    {
      hide Apply, Merkle.Root;
      var previous := Blocks[|Blocks| - 1];
      var root := Merkle.MerkleRoot(txs);
      var b := Block(Header(root, previous.Hash(), now, previous.header.height + 1, map[], map[], ""), txs,
                     Garbage(""));
      var next := ApplyBlock(state, b);
      if next.Failure? {
        return Some(next.error);
      }
      state := next.value;
      Blocks := Blocks + [b];
      err := None;
    }

    method Check(b: Block) returns (r: Result<State, CandidateError>)
      requires Blocks != []
      ensures r == CheckCandidate(View(), b)
    {
      var tip := Blocks[|Blocks| - 1];
      if b.header.height != tip.header.height + 1 {
        return Failure(WrongHeight);
      }
      if b.header.previousHash != tip.Hash() {
        return Failure(WrongPreviousHash);
      }
      var root := Merkle.MerkleRoot(b.transactions);
      if b.header.txRoot != root {
        return Failure(WrongTxRoot);
      }
      if b.header.proposer == "" {
        return Failure(NoProposer);
      }
      if !VerifyBlockSignature(b) {
        return Failure(BadBlockSignature);
      }
      var next := ApplyBlock(state, b);
      if next.Failure? {
        return Failure(CannotApply(next.error));
      }
      r := Success(next.value);
    }

    method CommitBlock(b: Block) returns (err: Option<CandidateError>)
      requires Blocks != []
      modifies this
      ensures View() == Commit(old(View()), b)
      ensures err == match CheckCandidate(old(View()), b)
                     case Success(_) => None
                     case Failure(e) => Some(e)
    {
      var next := Check(b);
      if next.Failure? {
        return Some(next.error);
      }
      state := next.value;
      Blocks := Blocks + [b];
      err := None;
    }

    method Validate() returns (err: Option<ValidateError>)
      ensures err == None <==> Passes(View())
      ensures err.Some? ==> Explains(err.value, View())
    {
      hide VerifyFrom, Merkle.Root, ReplayBlocks, DelegationsAgree;
      for i := 0 to |Blocks|
        invariant forall j | 0 <= j < i :: BodyMatches(Blocks[j])
      {
        var b := Blocks[i];
        if b.header.proposer != "" && !VerifyBlockSignature(b) {
          assert !BodyMatches(View().blocks[i]);
          return Some(BlockSignature(i));
        }
        var root := Merkle.MerkleRoot(b.transactions);
        if b.header.txRoot != root {
          assert !BodyMatches(View().blocks[i]);
          return Some(TxRootMismatch(i));
        }
      }
      var i := 0;
      while i < |Blocks| - 1
        invariant 0 <= i && forall j | 0 <= j < i && j < |Blocks| - 1 :: Follows(Blocks[j], Blocks[j + 1])
      {
        if Blocks[i].Hash() != Blocks[i + 1].header.previousHash {
          assert !Follows(View().blocks[i], View().blocks[i + 1]);
          return Some(BrokenLink(i));
        }
        if Blocks[i].header.height + 1 != Blocks[i + 1].header.height {
          assert !Follows(View().blocks[i], View().blocks[i + 1]);
          return Some(BrokenHeight(i));
        }
        i := i + 1;
      }
      var replayed := Replay(Blocks);
      if replayed.Failure? {
        return Some(DoesNotReplay(replayed.error));
      }
      if replayed.value.balances != state.balances {
        return Some(BalancesDiffer);
      }
      if replayed.value.nonces != state.nonces {
        return Some(NoncesDiffer);
      }
      var same := DelegationsEqual(replayed.value.delegations, state.delegations);
      if !same {
        AgreesWithItself(state.delegations);
        return Some(DelegationsDiffer);
      }
      err := None;
    }
  }

  /** newChainFromGenesis: an error for a genesis block that does not replay. */
  method NewChainFromGenesis(genesis: Block) returns (r: Result<Chain, ReplayError>)
    ensures match ReplayBlocks([genesis])
            case Success(s) => r.Success? && fresh(r.value) && r.value.View() == ChainView([genesis], s)
            case Failure(e) => r == Failure(e)
    ensures r.Success? <==> genesis.header.height == 0 && genesis.transactions == []
  {
    assert [genesis][1..] == [];
    if genesis.header.height != 0 {
      return Failure(BadGenesisHeight);
    }
    if |genesis.transactions| != 0 {
      return Failure(GenesisHasTransactions);
    }
    var chain := new Chain(genesis);
    r := Success(chain);
  }
}
