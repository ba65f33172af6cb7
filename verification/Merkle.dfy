/** Transaction Merkle trees: the root with duplicate-last padding, inclusion
    proofs, and what a root says about the list below it. */
module Merkle {
  import opened Wrappers
  import opened Types

  // ----- the tree -----

  /** An odd layer pairs its last element with itself. */
  function Even(layer: seq<Digest>): (r: seq<Digest>)
    ensures |r| % 2 == 0 && layer <= r
  {
    if |layer| % 2 == 1 then layer + [layer[|layer| - 1]] else layer
  }

  function Pairs(layer: seq<Digest>): (r: seq<Digest>)
    requires |layer| % 2 == 0
    ensures |r| == |layer| / 2
    ensures forall i | 0 <= i < |r| :: r[i] == NodeHash(layer[2 * i], layer[2 * i + 1])
  {
    seq(|layer| / 2, i requires 0 <= i < |layer| / 2 => NodeHash(layer[2 * i], layer[2 * i + 1]))
  }

  function Above(layer: seq<Digest>): (r: seq<Digest>)
    ensures |r| == (|layer| + 1) / 2
  {
    Pairs(Even(layer))
  }

  function Top(layer: seq<Digest>): Digest
    requires |layer| > 0
    decreases |layer|
  {
    if |layer| == 1 then layer[0] else Top(Above(layer))
  }

  function Leaves(txs: seq<Transaction>): (r: seq<Digest>)
    ensures |r| == |txs| && forall i | 0 <= i < |txs| :: r[i] == LeafHash(txs[i])
  {
    if txs == [] then [] else Leaves(txs[..|txs| - 1]) + [LeafHash(txs[|txs| - 1])]
  }

  function Root(txs: seq<Transaction>): Digest {
    if txs == [] then ZeroHash else Top(Leaves(txs))
  }

  // ----- the tree, read back -----

  /** The leaves of a digest, left to right. */
  function Frontier(d: Digest): (r: seq<Digest>)
    ensures |r| > 0
  {
    match d
    case NodeHash(left, right) => Frontier(left) + Frontier(right)
    case _ => [d]
  }

  function Frontiers(layer: seq<Digest>): seq<Digest> {
    if layer == [] then [] else Frontiers(layer[..|layer| - 1]) + Frontier(layer[|layer| - 1])
  }

  lemma {:induction false} FrontiersPairs(layer: seq<Digest>)
    requires |layer| % 2 == 0
    ensures Frontiers(Pairs(layer)) == Frontiers(layer)
  {
    if layer != [] {
      hide Frontier;
      var init := layer[..|layer| - 2];
      FrontiersPairs(init);
      assert Pairs(layer)[..|Pairs(layer)| - 1] == Pairs(init);
      assert layer[..|layer| - 1][..|layer| - 2] == init;
      assert Frontiers(layer) == Frontiers(layer[..|layer| - 1]) + Frontier(layer[|layer| - 1]);
    }
  }

  /** Nothing but repeats of what came before is ever appended. */
  ghost predicate Padded(s: seq<Digest>, r: seq<Digest>) {
    s <= r && forall d | d in r :: d in s
  }

  lemma PaddedTwice(s: seq<Digest>, r: seq<Digest>, t: seq<Digest>)
    requires Padded(s, r) && Padded(r, t)
    ensures Padded(s, t)
  {
    assert s == t[..|s|];
  }

  lemma {:induction false} FrontiersEven(layer: seq<Digest>)
    ensures Padded(Frontiers(layer), Frontiers(Even(layer)))
  {
    if |layer| % 2 == 1 {
      var last := layer[|layer| - 1];
      assert Even(layer)[..|layer|] == layer;
      assert Frontiers(Even(layer)) == Frontiers(layer) + Frontier(last);
      assert Frontiers(layer) == Frontiers(layer[..|layer| - 1]) + Frontier(last);
    }
  }

  /** The root's leaves are the layer's leaves followed by repeats of them. */
  lemma {:induction false} TopFrontier(layer: seq<Digest>)
    requires |layer| > 0
    ensures Padded(Frontiers(layer), Frontier(Top(layer)))
    decreases |layer|
  {
    if |layer| == 1 {
      assert Frontiers(layer[..0]) == [];
      assert Frontiers(layer) == Frontier(layer[0]);
    } else {
      hide Frontiers, Frontier, Even, Pairs;
      TopFrontier(Above(layer));
      FrontiersPairs(Even(layer));
      FrontiersEven(layer);
      PaddedTwice(Frontiers(layer), Frontiers(Even(layer)), Frontier(Top(layer)));
    }
  }

  lemma {:induction false} FrontiersLeaves(txs: seq<Transaction>)
    ensures Frontiers(Leaves(txs)) == Leaves(txs)
  {
    if txs != [] {
      var init, last := txs[..|txs| - 1], txs[|txs| - 1];
      FrontiersLeaves(init);
      FrontiersAppend(Leaves(init), LeafHash(last));
    }
  }

  lemma FrontiersAppend(layer: seq<Digest>, d: Digest)
    ensures Frontiers(layer + [d]) == Frontiers(layer) + Frontier(d)
  {
    assert (layer + [d])[..|layer|] == layer;
  }

  lemma RootFrontier(txs: seq<Transaction>)
    requires txs != []
    ensures Padded(Leaves(txs), Frontier(Root(txs)))
  {
    TopFrontier(Leaves(txs));
    FrontiersLeaves(txs);
  }

  // ----- what a root commits to -----

  ghost predicate NoRepeats(txs: seq<Transaction>) {
    forall i, j | 0 <= i < j < |txs| :: txs[i] != txs[j]
  }

  /** With one root, one list is a prefix of the other and the rest repeats it. */
  lemma EqualRootsPrefix(a: seq<Transaction>, b: seq<Transaction>)
    requires Root(a) == Root(b) && |a| <= |b|
    ensures a <= b && forall j | |a| <= j < |b| :: b[j] in a
  {
    if a == [] {
      if b != [] {
        RootFrontier(b);
      }
    } else {
      RootFrontier(a);
      RootFrontier(b);
      var all := Frontier(Root(a));
      forall i | 0 <= i < |a| ensures a[i] == b[i] {
        assert LeafHash(a[i]) == Leaves(a)[i] == all[i] == Leaves(b)[i] == LeafHash(b[i]);
      }
      forall j | |a| <= j < |b| ensures b[j] in a {
        assert LeafHash(b[j]) == Leaves(b)[j] == all[j];
        assert all[j] in Leaves(a);
        var i :| 0 <= i < |a| && Leaves(a)[i] == all[j];
        assert a[i] == b[j];
      }
    }
  }

  /** Lists of equal length: the root alone decides them. */
  lemma EqualRootsSameLength(a: seq<Transaction>, b: seq<Transaction>)
    requires |a| == |b|
    ensures Root(a) == Root(b) <==> a == b
  {
    if Root(a) == Root(b) {
      EqualRootsPrefix(a, b);
    }
  }

  /** Repeat-free lists: the root alone decides them, length included. */
  lemma RootBindsDistinct(a: seq<Transaction>, b: seq<Transaction>)
    requires NoRepeats(a) && NoRepeats(b)
    ensures Root(a) == Root(b) <==> a == b
  {
    if Root(a) == Root(b) {
      if |a| <= |b| {
        PrefixIsAll(a, b);
      } else {
        PrefixIsAll(b, a);
      }
    }
  }

  lemma LongerRepeats(a: seq<Transaction>, b: seq<Transaction>)
    requires Root(a) == Root(b) && |a| < |b|
    ensures !NoRepeats(b)
  {
    EqualRootsPrefix(a, b);
    assert b[|a|] in a;
  }

  lemma PrefixIsAll(a: seq<Transaction>, b: seq<Transaction>)
    requires Root(a) == Root(b) && |a| <= |b| && NoRepeats(b)
    ensures a == b
  {
    if |a| < |b| {
      LongerRepeats(a, b);
    } else {
      EqualRootsPrefix(a, b);
    }
  }

  /** The ambiguity is real: repeating the last transaction of an odd list of at
      least three leaves the root unchanged. */
  lemma RootCollides(txs: seq<Transaction>)
    requires |txs| % 2 == 1 && |txs| >= 3
    ensures Root(txs + [txs[|txs| - 1]]) == Root(txs)
  {
    var more := txs + [txs[|txs| - 1]];
    assert Leaves(more) == Even(Leaves(txs)) == Even(Leaves(more));
    assert Above(Leaves(more)) == Above(Leaves(txs));
  }

  /** The list a tree is really built over. The list is c blocks of k; an odd
      count repeats the last block, and two blocks then make one. */
  function Complete<T>(s: seq<T>, k: nat, c: nat): (r: seq<T>)
    requires 0 < c && |s| == c * k
    ensures s <= r
    decreases c
  {
    if c == 1 then s
    else
      Doubling(k, c);
      if c % 2 == 1 then Complete(s + s[(c - 1) * k..], 2 * k, (c + 1) / 2) else Complete(s, 2 * k, c / 2)
  }

  lemma Doubling(k: nat, c: nat)
    requires 0 < c
    ensures 0 <= (c - 1) * k == c * k - k
    ensures c % 2 == 1 ==> c * k + k == (c + 1) / 2 * (2 * k)
    ensures c % 2 == 0 ==> c * k == c / 2 * (2 * k)
  {
    var h := (c + 1) / 2;
    assert h * (2 * k) == 2 * h * k;
    assert c * k + k == (c + 1) * k;
  }

  /** Both children of every node hold equally many leaves. */
  ghost predicate Perfect(d: Digest) {
    d.NodeHash? ==> Perfect(d.left) && Perfect(d.right) && |Frontier(d.left)| == |Frontier(d.right)|
  }

  lemma {:induction false} PerfectDetermined(d: Digest, e: Digest)
    requires Perfect(d) && Perfect(e) && Frontier(d) == Frontier(e)
    ensures d == e
  {
    if d.NodeHash? && e.NodeHash? {
      var half := |Frontier(d.left)|;
      assert Frontier(d)[..half] == Frontier(d.left) && Frontier(d)[half..] == Frontier(d.right);
      assert |Frontier(e.left)| == half;
      assert Frontier(e)[..half] == Frontier(e.left) && Frontier(e)[half..] == Frontier(e.right);
      PerfectDetermined(d.left, e.left);
      PerfectDetermined(d.right, e.right);
    }
  }

  ghost predicate PerfectLayer(layer: seq<Digest>, k: nat) {
    forall d | d in layer :: Perfect(d) && |Frontier(d)| == k
  }

  lemma {:induction false} FrontiersLength(layer: seq<Digest>, k: nat)
    requires PerfectLayer(layer, k)
    ensures |Frontiers(layer)| == |layer| * k
  {
    if layer != [] {
      FrontiersLength(layer[..|layer| - 1], k);
      assert layer[|layer| - 1] in layer;
      assert |layer| * k == (|layer| - 1) * k + k;
    }
  }

  lemma AbovePerfect(layer: seq<Digest>, k: nat)
    requires |layer| > 1 && PerfectLayer(layer, k)
    ensures PerfectLayer(Above(layer), 2 * k)
  {
    forall d | d in Above(layer) ensures Perfect(d) && |Frontier(d)| == 2 * k {
      var i :| 0 <= i < |Above(layer)| && Above(layer)[i] == d;
      assert Even(layer)[2 * i] in layer && Even(layer)[2 * i + 1] in layer;
    }
  }

  /** An odd layer repeats its last block of leaves. */
  lemma EvenLeaves(layer: seq<Digest>, k: nat)
    requires |layer| > 1 && PerfectLayer(layer, k)
    ensures |Frontiers(layer)| == |layer| * k && 0 <= (|layer| - 1) * k <= |layer| * k
    ensures Frontiers(Even(layer))
         == if |layer| % 2 == 1 then Frontiers(layer) + Frontiers(layer)[(|layer| - 1) * k..] else Frontiers(layer)
  {
    hide Perfect, Frontier, Frontiers;
    var init, last := layer[..|layer| - 1], layer[|layer| - 1];
    assert layer == init + [last];
    Doubling(k, |layer|);
    FrontiersLength(layer, k);
    FrontiersLength(init, k);
    FrontiersAppend(init, last);
    FrontiersAppend(layer, last);
  }

  lemma CompleteStep<T>(s: seq<T>, k: nat, c: nat)
    requires c > 1 && |s| == c * k && 0 <= (c - 1) * k <= |s|
    ensures
      var next := if c % 2 == 1 then s + s[(c - 1) * k..] else s;
      |next| == (c + 1) / 2 * (2 * k) && Complete(s, k, c) == Complete(next, 2 * k, (c + 1) / 2)
  {
    Doubling(k, c);
  }

  /** One layer up, completion goes on from the even layer's leaves. */
  lemma EvenCompletes(layer: seq<Digest>, k: nat)
    requires |layer| > 1 && PerfectLayer(layer, k)
    ensures |Frontiers(layer)| == |layer| * k
    ensures |Frontiers(Even(layer))| == (|layer| + 1) / 2 * (2 * k)
    ensures Complete(Frontiers(layer), k, |layer|) == Complete(Frontiers(Even(layer)), 2 * k, (|layer| + 1) / 2)
  {
    hide PerfectLayer, Frontiers, Even, Complete;
    EvenLeaves(layer, k);
    CompleteStep(Frontiers(layer), k, |layer|);
  }

  /** The tree is perfect and its leaves are the completed list. */
  lemma {:induction false} TopComplete(layer: seq<Digest>, k: nat)
    requires |layer| > 0 && PerfectLayer(layer, k)
    ensures |Frontiers(layer)| == |layer| * k
    ensures Perfect(Top(layer)) && Frontier(Top(layer)) == Complete(Frontiers(layer), k, |layer|)
    decreases |layer|
  {
    hide Even, Pairs, Perfect, PerfectLayer, Frontiers, Frontier;
    FrontiersLength(layer, k);
    if |layer| == 1 {
      OnlyLeaf(layer, k);
    } else {
      hide Complete;
      AbovePerfect(layer, k);
      TopComplete(Above(layer), 2 * k);
      FrontiersPairs(Even(layer));
      EvenCompletes(layer, k);
    }
  }

  lemma OnlyLeaf(layer: seq<Digest>, k: nat)
    requires |layer| == 1 && PerfectLayer(layer, k)
    ensures Perfect(layer[0]) && Frontiers(layer) == Frontier(layer[0])
  {
    assert layer[0] in layer;
    assert Frontiers(layer[..0]) == [];
  }

  lemma {:induction false} CompleteLeaves(txs: seq<Transaction>, k: nat, c: nat)
    requires 0 < c && |txs| == c * k
    ensures Complete(Leaves(txs), k, c) == Leaves(Complete(txs, k, c))
    decreases c
  {
    if c > 1 {
      Doubling(k, c);
      if c % 2 == 1 {
        CompleteLeaves(txs + txs[(c - 1) * k..], 2 * k, (c + 1) / 2);
        assert Leaves(txs) + Leaves(txs)[(c - 1) * k..] == Leaves(txs + txs[(c - 1) * k..]);
      } else {
        CompleteLeaves(txs, 2 * k, c / 2);
      }
    }
  }

  function Completed(txs: seq<Transaction>): seq<Transaction> {
    if txs == [] then [] else Complete(txs, 1, |txs|)
  }

  /** The tree over a list has the completed list for leaves. */
  lemma RootComplete(txs: seq<Transaction>)
    requires txs != []
    ensures Perfect(Root(txs)) && Frontier(Root(txs)) == Leaves(Completed(txs))
  {
    TopComplete(Leaves(txs), 1);
    FrontiersLeaves(txs);
    CompleteLeaves(txs, 1, |txs|);
  }

  /** Exactly which lists share a root: those that complete to the same list. */
  lemma RootsEqualExactly(a: seq<Transaction>, b: seq<Transaction>)
    ensures Root(a) == Root(b) <==> Completed(a) == Completed(b)
  {
    hide Complete, Top, Perfect;
    if a != [] && b != [] {
      RootComplete(a);
      RootComplete(b);
      if Frontier(Root(a)) == Frontier(Root(b)) {
        PerfectDetermined(Root(a), Root(b));
        LeavesInjective(Completed(a), Completed(b));
      }
    } else if a != [] {
      OnlyEmptyIsZero(a);
    } else if b != [] {
      OnlyEmptyIsZero(b);
    }
  }

  lemma OnlyEmptyIsZero(txs: seq<Transaction>)
    requires txs != []
    ensures Root(txs) != ZeroHash
  {
    RootFrontier(txs);
  }

  lemma LeavesInjective(a: seq<Transaction>, b: seq<Transaction>)
    requires Leaves(a) == Leaves(b)
    ensures a == b
  {
    forall i | 0 <= i < |a| ensures a[i] == b[i] {
      assert Leaves(a)[i] == Leaves(b)[i];
    }
  }

  // ----- inclusion proofs -----

  function Sibling(layer: seq<Digest>, index: nat): Digest
    requires index < |layer|
  {
    if |layer| % 2 != 0 && index == |layer| - 1 then layer[index]
    else if index % 2 == 0 then layer[index + 1]
    else layer[index - 1]
  }

  function Path(layer: seq<Digest>, index: nat): seq<Digest>
    requires index < |layer|
    decreases |layer|
  {
    if |layer| == 1 then [] else [Sibling(layer, index)] + Path(Above(layer), index / 2)
  }

  /** Go's integer division by two truncates towards zero. */
  function Halve(index: int): int {
    if index < 0 then -(-index / 2) else index / 2
  }

  function FoldOne(current: Digest, index: int, sibling: Digest): Digest {
    if index % 2 == 0 then NodeHash(current, sibling) else NodeHash(sibling, current)
  }

  function Fold(current: Digest, index: int, path: seq<Digest>): Digest
    decreases |path|
  {
    if path == [] then current else Fold(FoldOne(current, index, path[0]), Halve(index), path[1..])
  }

  /** The number of levels above the leaves. */
  function Depth(n: nat): nat
    requires n > 0
  {
    if n == 1 then 0 else 1 + Depth((n + 1) / 2)
  }

  lemma SiblingFolds(layer: seq<Digest>, index: nat)
    requires index < |layer| && |layer| > 1
    ensures FoldOne(layer[index], index, Sibling(layer, index)) == Above(layer)[index / 2]
  {
    var even := Even(layer);
    assert Above(layer)[index / 2] == NodeHash(even[2 * (index / 2)], even[2 * (index / 2) + 1]);
  }

  lemma {:induction false} PathFolds(layer: seq<Digest>, index: nat)
    requires index < |layer|
    ensures Fold(layer[index], index, Path(layer, index)) == Top(layer)
    ensures |Path(layer, index)| == Depth(|layer|)
    decreases |layer|
  {
    if |layer| > 1 {
      var path := Path(layer, index);
      PathFolds(Above(layer), index / 2);
      SiblingFolds(layer, index);
      assert path[0] == Sibling(layer, index) && path[1..] == Path(Above(layer), index / 2);
    }
  }

  lemma {:induction false} FoldKeepsLeaf(current: Digest, index: int, path: seq<Digest>, d: Digest)
    requires d in Frontier(current)
    ensures d in Frontier(Fold(current, index, path))
    decreases |path|
  {
    if path != [] {
      FoldKeepsLeaf(FoldOne(current, index, path[0]), Halve(index), path[1..], d);
    }
  }

  /** Any sibling path, of any length, from any index: what folds to the root is
      in the list. */
  lemma FoldSound(txs: seq<Transaction>, tx: Transaction, index: int, path: seq<Digest>)
    requires Fold(LeafHash(tx), index, path) == Root(txs)
    ensures tx in txs
  {
    FoldKeepsLeaf(LeafHash(tx), index, path, LeafHash(tx));
    if txs != [] {
      RootFrontier(txs);
      assert LeafHash(tx) in Leaves(txs);
    }
  }

  lemma ChildPosition(layer: seq<Digest>, d: Digest, index: nat, sibling: Digest)
    requires index < |layer| && FoldOne(d, index, sibling) == Above(layer)[index / 2]
    ensures d == layer[index]
  {
    var even := Even(layer);
    assert Above(layer)[index / 2] == NodeHash(even[2 * (index / 2)], even[2 * (index / 2) + 1]);
  }

  /** A path of full depth also fixes the position. */
  lemma {:induction false} FoldPosition(layer: seq<Digest>, d: Digest, index: nat, path: seq<Digest>)
    requires index < |layer| && |path| == Depth(|layer|)
    requires Fold(d, index, path) == Top(layer)
    ensures d == layer[index]
    decreases |layer|
  {
    if |layer| > 1 {
      FoldPosition(Above(layer), FoldOne(d, index, path[0]), index / 2, path[1..]);
      ChildPosition(layer, d, index, path[0]);
    }
  }

  /** Membership is exactly provability. */
  lemma InclusionExact(txs: seq<Transaction>, tx: Transaction)
    ensures tx in txs <==> exists index: int, path :: Fold(LeafHash(tx), index, path) == Root(txs)
  {
    if tx in txs {
      var i :| 0 <= i < |txs| && txs[i] == tx;
      PathFolds(Leaves(txs), i);
    }
    if index: int, path :| Fold(LeafHash(tx), index, path) == Root(txs) {
      FoldSound(txs, tx, index, path);
    }
  }

  // ----- the loops -----

  method NextLayer(layer: seq<Digest>) returns (next: seq<Digest>)
    ensures next == Above(layer)
  {
    var even := layer;
    if |even| % 2 != 0 {
      even := even + [even[|even| - 1]];
    }
    next := [];
    var i := 0;
    while i < |even|
      invariant 0 <= i <= |even| && i % 2 == 0
      invariant next == Pairs(even)[..i / 2]
    {
      next := next + [NodeHash(even[i], even[i + 1])];
      i := i + 2;
    }
  }

  method WalkTree(layer: seq<Digest>) returns (r: seq<Digest>)
    ensures r == if layer == [] then [] else [Top(layer)]
    decreases |layer|
  {
    if |layer| <= 1 {
      return layer;
    }
    var next := NextLayer(layer);
    r := WalkTree(next);
  }

  method MerkleRoot(txs: seq<Transaction>) returns (root: Digest)
    ensures root == Root(txs)
  {
    if |txs| == 0 {
      return ZeroHash;
    }
    var top := WalkTree(Leaves(txs));
    root := top[0];
  }

  lemma PathEnds(layer: seq<Digest>, at: nat)
    requires at < |layer| == 1
    ensures Path(layer, at) == []
  {
  }

  lemma PathStep(proof: seq<Digest>, layer: seq<Digest>, at: nat)
    requires at < |layer| && |layer| > 1
    ensures proof + Path(layer, at) == proof + [Sibling(layer, at)] + Path(Above(layer), at / 2)
  {
    hide Above, Sibling;
  }

  /** Fails exactly on an index outside the list, and otherwise returns a path
      that folds the indexed transaction up to the root. */
  method MerkleProof(txs: seq<Transaction>, index: int) returns (r: Option<seq<Digest>>)
    ensures r.Some? <==> 0 <= index < |txs|
    ensures r.Some? ==> |r.value| == Depth(|txs|) && Fold(LeafHash(txs[index]), index, r.value) == Root(txs)
    ensures r.Some? ==> r.value == Path(Leaves(txs), index)
  {
    hide Path, Above, Fold, Top;
    if |txs| == 0 || index < 0 || index >= |txs| {
      return None;
    }
    var layer, at := Leaves(txs), index;
    var proof: seq<Digest> := [];
    while |layer| > 1
      invariant 0 <= at < |layer|
      invariant proof + Path(layer, at) == Path(Leaves(txs), index)
      decreases |layer|
    {
      var sibling;
      if |layer| % 2 != 0 && at == |layer| - 1 {
        sibling := layer[at];
      } else if at % 2 == 0 {
        sibling := layer[at + 1];
      } else {
        sibling := layer[at - 1];
      }
      PathStep(proof, layer, at);
      proof := proof + [sibling];
      layer := NextLayer(layer);
      at := at / 2;
    }
    assert proof + [] == proof;
    PathEnds(layer, at);
    PathFolds(Leaves(txs), index);
    r := Some(proof);
  }

  method VerifyMerkleProof(leaf: Digest, index: int, proof: seq<Digest>, root: Digest) returns (ok: bool)
    ensures ok <==> Fold(leaf, index, proof) == root
  {
    var current, at := leaf, index;
    for k := 0 to |proof|
      invariant Fold(current, at, proof[k..]) == Fold(leaf, index, proof)
    {
      assert proof[k..][1..] == proof[k + 1..];
      if at % 2 == 0 {
        current := NodeHash(current, proof[k]);
      } else {
        current := NodeHash(proof[k], current);
      }
      at := Halve(at);
    }
    ok := current == root;
  }

  /** The smallest trees: nothing, a leaf, a pair, and a pair beside the last leaf
      paired with itself. */
  lemma SmallRoots(a: Transaction, b: Transaction, c: Transaction)
    ensures Root([]) == ZeroHash && Root([a]) == LeafHash(a)
    ensures Root([a, b]) == NodeHash(LeafHash(a), LeafHash(b))
    ensures Root([a, b, c]) == NodeHash(NodeHash(LeafHash(a), LeafHash(b)), NodeHash(LeafHash(c), LeafHash(c)))
  {
    hide Above, Top, Leaves;
    var la, lb, lc := LeafHash(a), LeafHash(b), LeafHash(c);
    FewLeaves(a, b, c);
    TopOne(la);
    AboveTwo(la, lb);
    TopTwo([la, lb]);
    TopOne(NodeHash(la, lb));
    AboveThree(la, lb, lc);
    TopTwo([la, lb, lc]);
    AboveTwo(NodeHash(la, lb), NodeHash(lc, lc));
    TopTwo([NodeHash(la, lb), NodeHash(lc, lc)]);
    TopOne(NodeHash(NodeHash(la, lb), NodeHash(lc, lc)));
  }

  lemma FewLeaves(a: Transaction, b: Transaction, c: Transaction)
    ensures Leaves([a]) == [LeafHash(a)] && Leaves([a, b]) == [LeafHash(a), LeafHash(b)]
    ensures Leaves([a, b, c]) == [LeafHash(a), LeafHash(b), LeafHash(c)]
  {
  }

  lemma TopOne(d: Digest)
    ensures Top([d]) == d
  {
  }

  lemma TopTwo(layer: seq<Digest>)
    requires |layer| > 1
    ensures Top(layer) == Top(Above(layer))
  {
    hide Above;
  }

  lemma AboveTwo(d: Digest, e: Digest)
    ensures Above([d, e]) == [NodeHash(d, e)]
  {
  }

  lemma AboveThree(d: Digest, e: Digest, f: Digest)
    ensures Above([d, e, f]) == [NodeHash(d, e), NodeHash(f, f)]
  {
    assert Even([d, e, f]) == [d, e, f, f];
  }
}
