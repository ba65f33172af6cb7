/** The live view over whole runs: nodes race to report what they committed, and
    a restart replays what was logged. */
module LiveRuns {
  import opened Wrappers
  import opened Types
  import opened Ledger
  import opened Chains
  import opened Consensus
  import opened Invariants
  import opened Convictions
  import opened Agreement
  import opened LiveViews
  import Merkle

  // ----- rebuilding a chain from its log -----

  /** The chain buildCluster gives every node: the first block as genesis, the
      rest committed one by one. None when any of them is refused. */
  ghost function Rebuild(blocks: seq<Block>): Option<ChainView> {
    if blocks == [] then None
    else if |blocks| == 1 then
      match ReplayBlocks(blocks)
      case Success(s) => Some(ChainView(blocks, s))
      case Failure(_) => None
    else
      match Rebuild(blocks[..|blocks| - 1])
      case None => None
      case Some(c) =>
        if c.blocks != [] && CheckCandidate(c, blocks[|blocks| - 1]).Success?
        then Some(Commit(c, blocks[|blocks| - 1])) else None
  }

  lemma RebuildMore(blocks: seq<Block>, c: ChainView, b: Block)
    requires blocks != [] && Rebuild(blocks) == Some(c) && c.blocks != []
    ensures Rebuild(blocks + [b]) == if CheckCandidate(c, b).Success? then Some(Commit(c, b)) else None
  {
    hide CheckAgainst;
    assert (blocks + [b])[..|blocks|] == blocks;
  }

  /** A log that rebuilds does so to its own blocks, linked, and to the ledger
      that replays them. */
  lemma {:induction false} RebuildSound(blocks: seq<Block>, c: ChainView)
    requires Rebuild(blocks) == Some(c)
    ensures c.blocks == blocks != [] && ReplayBlocks(blocks) == Success(c.state)
    ensures Linked(blocks[1..])
    decreases |blocks|
  {
    hide Apply, ReplayBlocks, VerifyFrom, Merkle.Root;
    if |blocks| > 1 {
      var init, b := blocks[..|blocks| - 1], blocks[|blocks| - 1];
      var before := Rebuild(init).value;
      assert blocks == init + [b];
      RebuildSound(init, before);
      ReplayAppend(init, before.state, b);
      var later := init[1..];
      assert blocks[1..] == later + [b];
      if later != [] {
        assert later[|later| - 1] == before.Tip();
        LinkedAppend(later, b);
      }
    }
  }

  /** newChainFromGenesis and the CommitBlock loop. None where it returns an error. */
  method BuildChain(blocks: seq<Block>) returns (chain: Option<Chain>)
    ensures chain.Some? <==> Rebuild(blocks).Some?
    ensures chain.Some? ==> fresh(chain.value) && chain.value.View() == Rebuild(blocks).value
  {
    hide CheckAgainst, ReplayFrom;
    if |blocks| == 0 {
      return None;
    }
    assert blocks[..1] == [blocks[0]];
    assert [blocks[0]][1..] == [];
    FirstReplay(blocks[0]);
    var first := NewChainFromGenesis(blocks[0]);
    if first.Failure? {
      NeverRebuilds(blocks, 1);
      return None;
    }
    var c := first.value;
    for k := 1 to |blocks|
      invariant fresh(c) && Rebuild(blocks[..k]) == Some(c.View()) && c.Blocks != []
    {
      assert blocks[..k + 1] == blocks[..k] + [blocks[k]];
      RebuildMore(blocks[..k], c.View(), blocks[k]);
      var err := c.CommitBlock(blocks[k]);
      if err != None {
        NeverRebuilds(blocks, k + 1);
        return None;
      }
    }
    assert blocks[..|blocks|] == blocks;
    chain := Some(c);
  }

  lemma FirstReplay(genesis: Block)
    ensures Rebuild([genesis]).Some? <==> genesis.header.height == 0 && genesis.transactions == []
    ensures Rebuild([genesis]).Some? ==> Rebuild([genesis]).value == ChainView([genesis], GenesisState(genesis))
  {
    assert [genesis][1..] == [];
  }

  lemma {:induction false} NeverRebuilds(blocks: seq<Block>, k: nat)
    requires 0 < k <= |blocks| && Rebuild(blocks[..k]) == None
    ensures Rebuild(blocks) == None
    decreases |blocks|
  {
    hide CheckAgainst, ReplayBlocks;
    if k == |blocks| {
      assert blocks[..k] == blocks;
    } else {
      var init := blocks[..|blocks| - 1];
      assert init[..k] == blocks[..k];
      NeverRebuilds(init, k);
    }
  }

  // ----- racing reports -----

  /** The live view while nodes report. `owners` names who recorded each height,
      `done` how many of its commits each node has reported. */
  datatype Watched = Watched(view: LiveView, log: seq<Block>, ledger: State, owners: seq<nat>, done: seq<nat>)

  /** Node i reports the next block it committed, if it has one. */
  ghost function Report(s: System, w: Watched, i: nat): Watched {
    if i < |s.nodes| && i < |w.done| && w.done[i] < |s.nodes[i].commits| then
      var c := s.nodes[i].commits[w.done[i]];
      var done := w.done[i := w.done[i] + 1];
      if c.block.header.height <= w.view.height then w.(done := done)
      else Watched(Record(w.view, c.block, c.ledger), w.log + [c.block], c.ledger, w.owners + [i], done)
    else w
  }

  /** The nodes' reports, interleaved in any order. */
  ghost function Watch(cfg: Config, s: System, calls: seq<nat>): Watched
    requires cfg.Valid()
  {
    if calls == [] then Watched(Seed(cfg.base), [], cfg.base.state, [], seq(|s.nodes|, _ => 0))
    else Report(s, Watch(cfg, s, calls[..|calls| - 1]), calls[|calls| - 1])
  }

  ghost predicate OwnersReported(s: System, w: Watched) {
    && |w.log| == |w.owners| && |w.done| == |s.nodes|
    && (forall i | 0 <= i < |s.nodes| :: w.done[i] <= |s.nodes[i].commits| && w.done[i] <= |w.log|)
    && forall k | 0 <= k < |w.log| :: OwnerReported(s, w, k)
  }

  ghost predicate OwnerReported(s: System, w: Watched, k: nat)
    requires k < |w.log| == |w.owners| && |w.done| == |s.nodes|
  {
    var i := w.owners[k];
    i < |s.nodes| && k < w.done[i] && k < |s.nodes[i].commits| && w.log[k] == s.nodes[i].commits[k].block
  }

  /** The chain the view shows: what the cluster started from and what was logged. */
  ghost function Shown(cfg: Config, w: Watched): ChainView {
    ChainView(cfg.base.blocks + w.log, w.ledger)
  }

  ghost predicate ViewExact(cfg: Config, s: System, w: Watched)
    requires cfg.Valid()
  {
    && OwnersReported(s, w)
    && w.view == Seed(Shown(cfg, w))
    && Shown(cfg, w).Tip().header.height == FirstHeight(cfg) + |w.log| - 1
    && if w.log == [] then w.ledger == cfg.base.state
       else
         var k := |w.log| - 1;
         OwnerReported(s, w, k) && w.ledger == s.nodes[w.owners[k]].commits[k].ledger
  }

  lemma ReportExact(cfg: Config, s: System, w: Watched, i: nat)
    requires cfg.Valid() && SystemOk(cfg, s) && ViewExact(cfg, s, w)
    ensures ViewExact(cfg, s, Report(s, w, i))
  {
    hide SystemOk, Seed, Record;
    if i < |s.nodes| && w.done[i] < |s.nodes[i].commits| {
      var k, r := w.done[i], Report(s, w, i);
      var c := s.nodes[i].commits[k];
      HeightOf(cfg, s, i, k);
      ViewHeight(Shown(cfg, w));
      ReportOwners(cfg, s, w, i);
      if r.log != w.log {
        RecordSeeds(Shown(cfg, w), c.block, c.ledger);
        assert Shown(cfg, w).blocks + [c.block] == Shown(cfg, r).blocks;
      }
    }
  }

  lemma ViewHeight(c: ChainView)
    requires c.blocks != []
    ensures Seed(c).height == c.Tip().header.height
  {
  }

  lemma ReportOwners(cfg: Config, s: System, w: Watched, i: nat)
    requires OwnersReported(s, w) && i < |s.nodes| && w.done[i] < |s.nodes[i].commits|
    requires s.nodes[i].commits[w.done[i]].block.header.height > w.view.height <==> w.done[i] >= |w.log|
    ensures OwnersReported(s, Report(s, w, i))
  {
    hide Record;
    var r := Report(s, w, i);
    forall k | 0 <= k < |r.log| ensures OwnerReported(s, r, k) {
      if k < |w.log| {
        assert OwnerReported(s, w, k);
      }
    }
  }

  lemma {:induction false} AlwaysExact(cfg: Config, s: System, calls: seq<nat>)
    requires cfg.Valid() && SystemOk(cfg, s)
    ensures ViewExact(cfg, s, Watch(cfg, s, calls))
  {
    hide SystemOk, Report, Seed;
    if calls == [] {
      assert cfg.base.blocks + [] == cfg.base.blocks;
      assert cfg.base == ChainView(cfg.base.blocks, cfg.base.state);
    } else {
      AlwaysExact(cfg, s, calls[..|calls| - 1]);
      ReportExact(cfg, s, Watch(cfg, s, calls[..|calls| - 1]), calls[|calls| - 1]);
    }
  }

  /** However the nodes' reports interleave: each height is recorded and logged
      once, in order and without gaps, as far as the furthest node has reported;
      and the view kept block by block is the one seeded from the chain logged. */
  lemma RacesAreInvisible(cfg: Config, events: seq<Event>, calls: seq<nat>)
    requires cfg.Valid()
    ensures
      var s := After(cfg, events);
      var w := Watch(cfg, s, calls);
      && w.view == Seed(ChainView(cfg.base.blocks + w.log, w.ledger))
      && (forall k | 0 <= k < |w.log| :: w.log[k].header.height == FirstHeight(cfg) + k)
      && |w.done| == |s.nodes| && (forall i | 0 <= i < |s.nodes| :: w.done[i] <= |w.log|)
      && (w.log != [] ==> exists i :: 0 <= i < |s.nodes| && w.done[i] == |w.log|)
  {
    hide After, Watch, Seed, SystemOk;
    AlwaysOk(cfg, events);
    var s := After(cfg, events);
    AlwaysExact(cfg, s, calls);
    var w := Watch(cfg, s, calls);
    forall k | 0 <= k < |w.log| ensures w.log[k].header.height == FirstHeight(cfg) + k {
      assert OwnerReported(s, w, k);
      HeightOf(cfg, s, w.owners[k], k);
    }
    if w.log != [] {
      assert OwnerReported(s, w, |w.log| - 1);
    }
  }

  // ----- proofs for the whole feed -----

  /** Cluster.InclusionProof answers for this entry with a proof that verifies. */
  ghost predicate Provable(v: LiveView, t: TxInfo) {
    exists b, tx :: && Uniquely(v.fullBlocks, b) && b.header.height == t.height
                    && tx in b.transactions && LeafHash(tx) == t.hash
                    && b.header.txRoot == Merkle.Root(b.transactions)
  }

  lemma LoggedRooted(cfg: Config, s: System, w: Watched, k: nat)
    requires cfg.Valid() && SystemOk(cfg, s) && ViewExact(cfg, s, w) && k < |w.log|
    ensures w.log[k].header.txRoot == Merkle.Root(w.log[k].transactions)
    ensures w.log[k].header.height == FirstHeight(cfg) + k
  {
    hide SystemOk, Seed, Merkle.Root, Apply, TipAt, LedgerAt;
    assert OwnerReported(s, w, k);
    CommitChecked(cfg, s, w.owners[k], k);
    HeightOf(cfg, s, w.owners[k], k);
  }

  lemma ShownApart(cfg: Config, s: System, w: Watched)
    requires cfg.Valid() && SystemOk(cfg, s) && ViewExact(cfg, s, w) && Linked(cfg.base.blocks[1..])
    ensures RootedApart(Shown(cfg, w).blocks[1..])
  {
    hide SystemOk, ViewExact, Merkle.Root, Linked;
    var older, later := cfg.base.blocks[1..], Shown(cfg, w).blocks[1..];
    ViewSize(cfg, s, w);
    assert later == older + w.log;
    LinkedApart(older);
    forall k | 0 <= k < |w.log|
      ensures w.log[k].header.txRoot == Merkle.Root(w.log[k].transactions)
      ensures w.log[k].header.height == FirstHeight(cfg) + k
    {
      LoggedRooted(cfg, s, w, k);
    }
    forall k | 0 <= k < |older| ensures older[k].header.height < FirstHeight(cfg) {
      HeightsClimb(older, k, |older| - 1);
      assert older[|older| - 1] == cfg.base.Tip();
    }
  }

  lemma ViewSize(cfg: Config, s: System, w: Watched)
    requires cfg.Valid() && ViewExact(cfg, s, w)
    ensures |Shown(cfg, w).blocks| == |cfg.base.blocks| + |w.log|
  {
  }

  /** However the nodes' reports interleave, in every run: every transaction still
      in the feed has its block there, alone at its height, to prove it from. */
  lemma FeedAlwaysProvable(cfg: Config, events: seq<Event>, calls: seq<nat>, t: TxInfo)
    requires cfg.Valid() && Linked(cfg.base.blocks[1..])
    requires t in Watch(cfg, After(cfg, events), calls).view.txs
    ensures Provable(Watch(cfg, After(cfg, events), calls).view, t)
  {
    hide After, Watch, Seed, SystemOk, Linked, OwnersReported, RootedApart;
    AlwaysOk(cfg, events);
    var s := After(cfg, events);
    AlwaysExact(cfg, s, calls);
    var w := Watch(cfg, s, calls);
    ShownApart(cfg, s, w);
    FeedProvable(Shown(cfg, w), t);
  }

  // ----- restarting from the log -----

  /** A node that committed past the log stands where the shown chain ends. */
  lemma StandsAtEnd(cfg: Config, s: System, w: Watched, i: nat)
    requires cfg.Valid() && SystemOk(cfg, s) && AllAlike(cfg, s) && ViewExact(cfg, s, w)
    requires i < |s.nodes| && |w.log| < |s.nodes[i].commits|
    ensures
      var n, k := s.nodes[i], |w.log|;
      TipAt(cfg, n, k) == Shown(cfg, w).Tip().header && LedgerAt(cfg, n, k) == w.ledger
  {
    hide SystemOk, Seed;
    if w.log != [] {
      assert StandAlike(cfg, s.nodes[i], s.nodes[w.owners[|w.log| - 1]], |w.log|);
    }
  }

  lemma NextRebuilds(cfg: Config, s: System, w: Watched, i: nat)
    requires cfg.Valid() && SystemOk(cfg, s) && AllAlike(cfg, s) && ViewExact(cfg, s, w)
    requires i < |s.nodes| && |w.log| < |s.nodes[i].commits|
    ensures
      var c := s.nodes[i].commits[|w.log|];
      CheckCandidate(Shown(cfg, w), c.block) == Success(c.ledger)
  {
    hide SystemOk, ViewExact, AllAlike, CheckAgainst, TipAt, LedgerAt;
    StandsAtEnd(cfg, s, w, i);
    CommitChecked(cfg, s, i, |w.log|);
  }

  lemma {:induction false} LogRebuilds(cfg: Config, s: System, calls: seq<nat>)
    requires cfg.Valid() && SystemOk(cfg, s) && AllAlike(cfg, s) && Rebuild(cfg.base.blocks) == Some(cfg.base)
    ensures
      var w := Watch(cfg, s, calls);
      Rebuild(cfg.base.blocks + w.log) == Some(Shown(cfg, w))
  {
    hide SystemOk, AllAlike, Rebuild, Record, Seed, CheckAgainst, ViewExact;
    if calls == [] {
      assert cfg.base.blocks + [] == cfg.base.blocks;
    } else {
      var init, i := calls[..|calls| - 1], calls[|calls| - 1];
      var w, r := Watch(cfg, s, init), Watch(cfg, s, calls);
      LogRebuilds(cfg, s, init);
      if r.log != w.log {
        AlwaysExact(cfg, s, init);
        NextAtFrontier(cfg, s, w, i);
        NextRebuilds(cfg, s, w, i);
        var b := s.nodes[i].commits[|w.log|].block;
        RebuildMore(cfg.base.blocks + w.log, Shown(cfg, w), b);
        assert cfg.base.blocks + w.log + [b] == cfg.base.blocks + r.log;
      }
    }
  }

  lemma NextAtFrontier(cfg: Config, s: System, w: Watched, i: nat)
    requires cfg.Valid() && SystemOk(cfg, s) && ViewExact(cfg, s, w) && Report(s, w, i).log != w.log
    ensures i < |s.nodes| && w.done[i] == |w.log| < |s.nodes[i].commits|
  {
    hide SystemOk, Record, Seed;
    HeightOf(cfg, s, i, w.done[i]);
    ViewHeight(Shown(cfg, w));
  }

  /** A restart loses nothing the log has: rebuilding from it succeeds, gives the
      ledger of the last logged height, and seeds the very view that was kept
      incrementally. */
  lemma RestartRestoresView(cfg: Config, events: seq<Event>, calls: seq<nat>)
    requires cfg.Valid() && Rebuild(cfg.base.blocks) == Some(cfg.base)
    requires FaultsBudgeted(After(cfg, events), Equivocators(After(cfg, events).bus))
    ensures
      var w := Watch(cfg, After(cfg, events), calls);
      var rebuilt := Rebuild(cfg.base.blocks + w.log);
      && rebuilt == Some(ChainView(cfg.base.blocks + w.log, w.ledger))
      && Seed(rebuilt.value) == w.view
      && ReplayBlocks(cfg.base.blocks + w.log) == Success(w.ledger)
  {
    hide After, Watch, Seed, SystemOk, Rebuild, FaultsBudgeted, Equivocators, AllGrounded, AllAlike, ReplayBlocks,
         Linked, OwnersReported;
    AlwaysOk(cfg, events);
    AlwaysGrounded(cfg, events);
    var s := After(cfg, events);
    BudgetedAlike(cfg, s);
    AlwaysExact(cfg, s, calls);
    LogRebuilds(cfg, s, calls);
    var w := Watch(cfg, s, calls);
    RebuildSound(cfg.base.blocks + w.log, Shown(cfg, w));
  }
}
