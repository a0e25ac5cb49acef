/** core/util/fixed_merkle_tree.go: a ten-node path proves what one of the 1024 leaves hashes to. */
module FixedPaths {
  import opened Levels
  import opened Merkle
  import opened Hashing
  import opened FixedTrees

  datatype FixedMerklePath = FixedMerklePath(leafHash: Bytes, rootHash: Bytes, nodes: seq<Bytes>, leafInd: int)

  /** Go's division by two cuts towards zero. */
  function GoHalf(i: int): int {
    if i >= 0 then i / 2 else -(-i / 2)
  }

  function Abs(i: int): nat {
    if i >= 0 then i else -i
  }

  /** A negative index takes the same turns as its absolute value. */
  method VerifyMerklePath(hash: Bytes -> Bytes, fp: FixedMerklePath) returns (ok: bool)
    ensures ok == (Fold(LoneHashed(hash), fp.leafHash, Abs(fp.leafInd), fp.nodes) == fp.rootHash)
  {
    var leafInd, digest := fp.leafInd, fp.leafHash;
    ghost var rule := LoneHashed(hash);
    var i := 0;
    while i < |fp.nodes|
      invariant 0 <= i <= |fp.nodes|
      invariant Fold(rule, digest, Abs(leafInd), fp.nodes[i..]) == Fold(rule, fp.leafHash, Abs(fp.leafInd), fp.nodes)
    {
      assert fp.nodes[i..][1..] == fp.nodes[i + 1..];
      assert Abs(leafInd) % 2 == leafInd % 2 && Abs(GoHalf(leafInd)) == Abs(leafInd) / 2;
      if leafInd % 2 == 0 {
        digest := hash(digest + fp.nodes[i]);
      } else {
        digest := hash(fp.nodes[i] + digest);
      }
      leafInd := GoHalf(leafInd);
      i := i + 1;
    }
    ok := digest == fp.rootHash;
  }

  /** The neighbours of leaf i and of its ancestors below the root. */
  function SiblingPath(hash: Bytes -> Bytes, leaves: seq<Bytes>, i: nat): (path: seq<Bytes>)
    requires |leaves| == LEAVES && i < LEAVES
    ensures |path| == 10
    ensures forall l :: 0 <= l < 10 ==> path[l] == AncestorSibling(hash, leaves, i, l)
  {
    seq(10, l requires 0 <= l < 10 => AncestorSibling(hash, leaves, i, l))
  }

  function AncestorSibling(hash: Bytes -> Bytes, leaves: seq<Bytes>, i: nat, l: nat): Bytes
    requires i < |leaves|
  {
    ShiftBelowWidth(|leaves|, i, l);
    Sibling(Level(LoneHashed(hash), leaves, l), Shift(i, l))
  }

  /** Every leaf's sibling path verifies. */
  lemma FixedPathComplete(hash: Bytes -> Bytes, leaves: seq<Bytes>, i: nat)
    requires |leaves| == LEAVES && i < LEAVES
    ensures Fold(LoneHashed(hash), leaves[i], i, SiblingPath(hash, leaves, i)) == FixedRoot(hash, leaves)
  {
    FixedWidths();
    SiblingPathIsOne(hash, leaves, i);
    FoldSiblingPath(LoneHashed(hash), leaves, i, SiblingPath(hash, leaves, i));
  }

  lemma SiblingPathIsOne(hash: Bytes -> Bytes, leaves: seq<Bytes>, i: nat)
    requires |leaves| == LEAVES && i < LEAVES
    ensures IsSiblingPath(LoneHashed(hash), leaves, i, SiblingPath(hash, leaves, i))
  {
    forall l | 0 <= l < 10
      ensures Shift(i, l) < |Level(LoneHashed(hash), leaves, l)|
      ensures SiblingPath(hash, leaves, i)[l] == Sibling(Level(LoneHashed(hash), leaves, l), Shift(i, l))
    {
      ShiftBelowWidth(LEAVES, i, l);
      assert SiblingPath(hash, leaves, i)[l] == AncestorSibling(hash, leaves, i, l);
    }
  }

  // ----- soundness

  /** Everything hashed while a path is folded. */
  ghost function FoldInputs(hash: Bytes -> Bytes, digest: Bytes, index: nat, path: seq<Bytes>): iset<Bytes>
    decreases |path|
  {
    if path == [] then iset{}
    else
      var input := if index % 2 == 1 then path[0] + digest else digest + path[0];
      iset{input} + FoldInputs(hash, hash(input), index / 2, path[1..])
  }

  /** Everything hashed in the h levels above these nodes. */
  ghost function TreeInputs(hash: Bytes -> Bytes, nodes: seq<Bytes>, h: nat): iset<Bytes>
    decreases h
  {
    if h == 0 then iset{}
    else ParentInputs(nodes) + TreeInputs(hash, Parents(LoneHashed(hash), nodes), h - 1)
  }

  /** If two byte strings, one of hash size, hash to a parent, they are that parent's children. */
  lemma SameChildren(hash: Bytes -> Bytes, nodes: seq<Bytes>, k: nat, left: Bytes, right: Bytes)
    requires 2 * k + 1 < |nodes| && AllHashSized(nodes)
    requires |left| == HASH_SIZE || |right| == HASH_SIZE
    requires CollisionFree(hash, iset{left + right} + ParentInputs(nodes))
    requires k < |Parents(LoneHashed(hash), nodes)| && hash(left + right) == Parents(LoneHashed(hash), nodes)[k]
    ensures left == nodes[2 * k] && right == nodes[2 * k + 1]
  {
    ParentInput(hash, nodes, k);
    assert NoCollision(hash, left + right, nodes[2 * k] + nodes[2 * k + 1]);
    JoinedEqual(left, right, nodes[2 * k], nodes[2 * k + 1]);
  }

  /** A path of h nodes that folds to the top of a full tree of height h is a true path. */
  lemma {:induction false} TruePath(hash: Bytes -> Bytes, nodes: seq<Bytes>, h: nat, digest: Bytes, index: nat, path: seq<Bytes>)
    requires FixedSize(hash) && |nodes| == Pow2(h) && AllHashSized(nodes)
    requires index < |nodes| && |path| == h && |digest| == HASH_SIZE
    requires CollisionFree(hash, TreeInputs(hash, nodes, h) + FoldInputs(hash, digest, index, path))
    requires |Level(LoneHashed(hash), nodes, h)| >= 1
    requires Fold(LoneHashed(hash), digest, index, path) == Level(LoneHashed(hash), nodes, h)[0]
    ensures digest == nodes[index]
    ensures IsSiblingPath(LoneHashed(hash), nodes, index, path)
    decreases h
  {
    hide Parents, Level, Fold, TreeInputs, FoldInputs, ParentInputs, CollisionFree, IsSiblingPath;
    if h == 0 {
      TruePathAtTop(hash, nodes, digest, index, path);
    } else {
      var input := PathStep(hash, nodes, h, digest, index, path);
      TruePath(hash, Parents(LoneHashed(hash), nodes), h - 1, hash(input), index / 2, path[1..]);
      var k := index / 2;
      if index % 2 == 1 {
        assert index == 2 * k + 1;
        SameChildren(hash, nodes, k, path[0], digest);
      } else {
        assert index == 2 * k && 2 * k + 1 < |nodes|;
        SameChildren(hash, nodes, k, digest, path[0]);
      }
      SiblingPathBelow(LoneHashed(hash), nodes, index, path);
    }
  }

  lemma TruePathAtTop(hash: Bytes -> Bytes, nodes: seq<Bytes>, digest: Bytes, index: nat, path: seq<Bytes>)
    requires |nodes| == Pow2(0) && index < |nodes| && path == []
    requires Fold(LoneHashed(hash), digest, index, path) == Level(LoneHashed(hash), nodes, 0)[0]
    ensures digest == nodes[index] && IsSiblingPath(LoneHashed(hash), nodes, index, path)
  {
  }

  /** The lowest step of a path: what is hashed there and what is left for the levels above. */
  lemma PathStep(hash: Bytes -> Bytes, nodes: seq<Bytes>, h: nat, digest: Bytes, index: nat, path: seq<Bytes>)
      returns (input: Bytes)
    requires FixedSize(hash) && |nodes| == Pow2(h) && h > 0 && |path| == h
    requires CollisionFree(hash, TreeInputs(hash, nodes, h) + FoldInputs(hash, digest, index, path))
    ensures input == if index % 2 == 1 then path[0] + digest else digest + path[0]
    ensures |nodes| == 2 * Pow2(h - 1)
    ensures AllHashSized(Parents(LoneHashed(hash), nodes))
    ensures Fold(LoneHashed(hash), digest, index, path) == Fold(LoneHashed(hash), hash(input), index / 2, path[1..])
    ensures Level(LoneHashed(hash), nodes, h) == Level(LoneHashed(hash), Parents(LoneHashed(hash), nodes), h - 1)
    ensures CollisionFree(hash, TreeInputs(hash, Parents(LoneHashed(hash), nodes), h - 1)
                                + FoldInputs(hash, hash(input), index / 2, path[1..]))
    ensures CollisionFree(hash, iset{input} + ParentInputs(nodes))
  {
    input := if index % 2 == 1 then path[0] + digest else digest + path[0];
    var parents := Parents(LoneHashed(hash), nodes);
    var known := TreeInputs(hash, nodes, h) + FoldInputs(hash, digest, index, path);
    ParentsHashSized(hash, nodes);
    LevelShift(LoneHashed(hash), nodes, h - 1);
    FewerInputs(hash, known, TreeInputs(hash, parents, h - 1) + FoldInputs(hash, hash(input), index / 2, path[1..]));
    FewerInputs(hash, known, iset{input} + ParentInputs(nodes));
  }

  lemma SiblingPathBelow(rule: Rule, nodes: seq<Bytes>, i: nat, path: seq<Bytes>)
    requires i < |nodes| && path != [] && path[0] == Sibling(nodes, i)
    requires IsSiblingPath(rule, Parents(rule, nodes), i / 2, path[1..])
    ensures IsSiblingPath(rule, nodes, i, path)
  {
    hide Parents, Sibling;
    forall l | 0 <= l < |path|
      ensures Shift(i, l) < |Level(rule, nodes, l)| && path[l] == Sibling(Level(rule, nodes, l), Shift(i, l))
    {
      if l > 0 {
        LevelShift(rule, nodes, l - 1);
        ShiftShift(i, l - 1);
        assert path[1..][l - 1] == path[l];
      }
    }
  }

  /** Only the last h bits of an index are looked at on a path of h nodes. */
  lemma {:induction false} FoldLowBits(hash: Bytes -> Bytes, digest: Bytes, index: nat, path: seq<Bytes>)
    ensures index % Pow2(|path|) < Pow2(|path|)
    ensures Fold(LoneHashed(hash), digest, index, path) == Fold(LoneHashed(hash), digest, index % Pow2(|path|), path)
    ensures FoldInputs(hash, digest, index, path) == FoldInputs(hash, digest, index % Pow2(|path|), path)
    decreases |path|
  {
    if path != [] {
      var low := index % Pow2(|path|);
      HalfOfLowBits(index, Pow2(|path| - 1));
      var input := if index % 2 == 1 then path[0] + digest else digest + path[0];
      FoldLowBits(hash, hash(input), index / 2, path[1..]);
    }
  }

  lemma HalfOfLowBits(i: nat, m: nat)
    requires m > 0
    ensures i % (2 * m) % 2 == i % 2 && i % (2 * m) / 2 == i / 2 % m
  {
    var q, r := i / 2 / m, i / 2 % m;
    assert i / 2 == q * m + r && i == 2 * (q * m + r) + i % 2;
    assert i == q * (2 * m) + (2 * r + i % 2);
    Remainder(i, 2 * m, q, 2 * r + i % 2);
  }

  lemma Remainder(i: nat, m: nat, q: nat, r: nat)
    requires r < m && i == q * m + r
    ensures i % m == r
  {
    var d := i / m - q;
    assert i == i / m * m + i % m;
    assert d * m == r - i % m;
  }

  lemma {:induction false} LevelOfLevel(rule: Rule, leaves: seq<Bytes>, k: nat, l: nat)
    ensures Level(rule, Level(rule, leaves, k), l) == Level(rule, leaves, k + l)
  {
    if l > 0 {
      LevelOfLevel(rule, leaves, k, l - 1);
    }
  }

  /** The inputs above a level are among those above the leaves. */
  lemma {:induction false} InputsAbove(hash: Bytes -> Bytes, nodes: seq<Bytes>, k: nat, h: nat)
    requires k <= h
    ensures TreeInputs(hash, Level(LoneHashed(hash), nodes, k), h - k) <= TreeInputs(hash, nodes, h)
    decreases k
  {
    hide Parents, ParentInputs;
    if k > 0 {
      InputsAbove(hash, Parents(LoneHashed(hash), nodes), k - 1, h - 1);
      LevelShift(LoneHashed(hash), nodes, k - 1);
    }
  }

  /** An accepted path of at most ten nodes carries a node of the tree and that node's own neighbours: with h nodes
      the node is that of level 10-h which the last h bits of the index number. */
  lemma FixedPathSound(hash: Bytes -> Bytes, leaves: seq<Bytes>, fp: FixedMerklePath)
    requires FixedSize(hash) && |leaves| == LEAVES && AllHashSized(leaves)
    requires |fp.nodes| <= 10 && |fp.leafHash| == HASH_SIZE
    requires CollisionFree(hash, TreeInputs(hash, leaves, 10) + FoldInputs(hash, fp.leafHash, Abs(fp.leafInd), fp.nodes))
    requires Fold(LoneHashed(hash), fp.leafHash, Abs(fp.leafInd), fp.nodes) == FixedRoot(hash, leaves)
    ensures var level, i := Level(LoneHashed(hash), leaves, 10 - |fp.nodes|), Abs(fp.leafInd) % Pow2(|fp.nodes|);
            |level| == Pow2(|fp.nodes|) && i < |level| && fp.leafHash == level[i]
            && IsSiblingPath(LoneHashed(hash), level, i, fp.nodes)
  {
    hide Parents, Fold, TreeInputs, FoldInputs, CollisionFree, IsSiblingPath, Width;
    var h := |fp.nodes|;
    var level := Level(LoneHashed(hash), leaves, 10 - h);
    FixedWidths();
    RootAtTen(hash, leaves);
    PowerWidth(10, 10 - h);
    FoldLowBits(hash, fp.leafHash, Abs(fp.leafInd), fp.nodes);
    LevelHashSized(hash, leaves, 10 - h);
    LevelOfLevel(LoneHashed(hash), leaves, 10 - h, h);
    InputsAbove(hash, leaves, 10 - h, 10);
    var i := Abs(fp.leafInd) % Pow2(h);
    var inputs := FoldInputs(hash, fp.leafHash, i, fp.nodes);
    FewerInputs(hash, TreeInputs(hash, leaves, 10) + inputs, TreeInputs(hash, level, h) + inputs);
    TruePath(hash, level, h, fp.leafHash, i, fp.nodes);
  }

  /** The path of ten nodes is the one that the tree gives for the leaf. */
  lemma TenNodesAreThePath(hash: Bytes -> Bytes, leaves: seq<Bytes>, i: nat, path: seq<Bytes>)
    requires |leaves| == LEAVES && i < LEAVES && |path| == 10 && IsSiblingPath(LoneHashed(hash), leaves, i, path)
    ensures path == SiblingPath(hash, leaves, i)
  {
    forall l | 0 <= l < 10
      ensures path[l] == SiblingPath(hash, leaves, i)[l]
    {
      assert SiblingPath(hash, leaves, i)[l] == AncestorSibling(hash, leaves, i, l);
    }
  }

  /** So an accepted path of ten nodes carries the true hash of its leaf and is the path that the tree gives for it. */
  lemma LeafPathSound(hash: Bytes -> Bytes, leaves: seq<Bytes>, fp: FixedMerklePath)
    requires FixedSize(hash) && |leaves| == LEAVES && AllHashSized(leaves)
    requires |fp.nodes| == 10 && |fp.leafHash| == HASH_SIZE && Abs(fp.leafInd) < LEAVES
    requires CollisionFree(hash, TreeInputs(hash, leaves, 10) + FoldInputs(hash, fp.leafHash, Abs(fp.leafInd), fp.nodes))
    requires Fold(LoneHashed(hash), fp.leafHash, Abs(fp.leafInd), fp.nodes) == FixedRoot(hash, leaves)
    ensures fp.leafHash == leaves[Abs(fp.leafInd)] && fp.nodes == SiblingPath(hash, leaves, Abs(fp.leafInd))
  {
    hide Parents, Fold, TreeInputs, FoldInputs, CollisionFree, IsSiblingPath, Width, FixedRoot, SiblingPath, Pow2, AllHashSized;
    FixedPathSound(hash, leaves, fp);
    FixedWidths();
    assert Level(LoneHashed(hash), leaves, 0) == leaves;
    assert Abs(fp.leafInd) % LEAVES == Abs(fp.leafInd);
    TenNodesAreThePath(hash, leaves, Abs(fp.leafInd), fp.nodes);
  }

  /** The length of the leaf hash is not looked at either. It decides: an accepted path carries a node of the tree
      exactly when its leaf hash has 32 bytes. */
  lemma LengthDecides(hash: Bytes -> Bytes, leaves: seq<Bytes>, fp: FixedMerklePath)
    requires FixedSize(hash) && |leaves| == LEAVES && AllHashSized(leaves) && |fp.nodes| <= 10
    requires CollisionFree(hash, TreeInputs(hash, leaves, 10) + FoldInputs(hash, fp.leafHash, Abs(fp.leafInd), fp.nodes))
    requires Fold(LoneHashed(hash), fp.leafHash, Abs(fp.leafInd), fp.nodes) == FixedRoot(hash, leaves)
    ensures |fp.leafHash| == HASH_SIZE <==> fp.leafHash in Level(LoneHashed(hash), leaves, 10 - |fp.nodes|)
  {
    hide Parents, Fold, TreeInputs, FoldInputs, CollisionFree, IsSiblingPath, Width, FixedRoot, Pow2, Level;
    LevelHashSized(hash, leaves, 10 - |fp.nodes|);
    if |fp.leafHash| == HASH_SIZE {
      FixedPathSound(hash, leaves, fp);
    }
  }

  /** A fold can stop after k nodes and go on from what it has then. */
  lemma {:induction false} FoldSplits(hash: Bytes -> Bytes, digest: Bytes, index: nat, path: seq<Bytes>, k: nat)
    requires k <= |path|
    ensures var middle := Fold(LoneHashed(hash), digest, index, path[..k]);
            && Fold(LoneHashed(hash), digest, index, path) == Fold(LoneHashed(hash), middle, Shift(index, k), path[k..])
            && FoldInputs(hash, middle, Shift(index, k), path[k..]) <= FoldInputs(hash, digest, index, path)
    decreases k
  {
    if k == 0 {
      assert path[0..] == path;
    } else {
      var input := if index % 2 == 1 then path[0] + digest else digest + path[0];
      FoldSplits(hash, hash(input), index / 2, path[1..], k - 1);
      assert path[..k][1..] == path[1..][..k - 1] && path[..k][0] == path[0];
      assert path[1..][k - 1..] == path[k..];
      ShiftShift(index, k - 1);
    }
  }

  lemma {:induction false} FoldHashSized(hash: Bytes -> Bytes, digest: Bytes, index: nat, path: seq<Bytes>)
    requires FixedSize(hash) && (path == [] ==> |digest| == HASH_SIZE)
    ensures |Fold(LoneHashed(hash), digest, index, path)| == HASH_SIZE
    decreases |path|
  {
    if path != [] {
      FoldHashSized(hash, hash(if index % 2 == 1 then path[0] + digest else digest + path[0]), index / 2, path[1..]);
    }
  }

  /** With more than ten nodes, the last ten are the sibling path of a leaf, and the nodes before them lead from what
      the path carries, whatever its length, to the hash of that leaf. */
  lemma LongPathSound(hash: Bytes -> Bytes, leaves: seq<Bytes>, fp: FixedMerklePath)
    requires FixedSize(hash) && |leaves| == LEAVES && AllHashSized(leaves) && |fp.nodes| > 10
    requires CollisionFree(hash, TreeInputs(hash, leaves, 10) + FoldInputs(hash, fp.leafHash, Abs(fp.leafInd), fp.nodes))
    requires Fold(LoneHashed(hash), fp.leafHash, Abs(fp.leafInd), fp.nodes) == FixedRoot(hash, leaves)
    ensures var k := |fp.nodes| - 10;
            var i := Shift(Abs(fp.leafInd), k) % LEAVES;
            && Fold(LoneHashed(hash), fp.leafHash, Abs(fp.leafInd), fp.nodes[..k]) == leaves[i]
            && fp.nodes[k..] == SiblingPath(hash, leaves, i)
  {
    hide Parents, Fold, TreeInputs, FoldInputs, CollisionFree, IsSiblingPath, Width, FixedRoot, SiblingPath, Pow2,
         AllHashSized, FixedSize, Shift, Level;
    var k, index := |fp.nodes| - 10, Abs(fp.leafInd);
    var middle := Fold(LoneHashed(hash), fp.leafHash, index, fp.nodes[..k]);
    var upper := FixedMerklePath(middle, fp.rootHash, fp.nodes[k..], Shift(index, k));
    FoldSplits(hash, fp.leafHash, index, fp.nodes, k);
    FoldHashSized(hash, fp.leafHash, index, fp.nodes[..k]);
    var known := TreeInputs(hash, leaves, 10);
    FewerInputs(hash, known + FoldInputs(hash, fp.leafHash, index, fp.nodes),
                known + FoldInputs(hash, middle, Shift(index, k), fp.nodes[k..]));
    FixedPathSound(hash, leaves, upper);
    BottomLevel(hash, leaves);
    TenNodesAreThePath(hash, leaves, Shift(index, k) % LEAVES, upper.nodes);
  }

  lemma BottomLevel(hash: Bytes -> Bytes, leaves: seq<Bytes>)
    ensures Level(LoneHashed(hash), leaves, 0) == leaves && Pow2(10) == LEAVES
  {
    FixedWidths();
  }

  /** For example, a leaf that is the hash of two parts: its first part is accepted with the second as an eleventh node. */
  lemma PartOfLeafAccepted(hash: Bytes -> Bytes, leaves: seq<Bytes>, i: nat, a: Bytes, b: Bytes)
    requires |leaves| == LEAVES && i < LEAVES && leaves[i] == hash(a + b)
    ensures Fold(LoneHashed(hash), a, 2 * i, [b] + SiblingPath(hash, leaves, i)) == FixedRoot(hash, leaves)
  {
    FixedPathComplete(hash, leaves, i);
    var path := [b] + SiblingPath(hash, leaves, i);
    assert path[1..] == SiblingPath(hash, leaves, i) && path[0] == b;
    assert 2 * i % 2 == 0 && 2 * i / 2 == i;
  }

  /** A byte can move from the first node to a leaf hash to its left, and the path is accepted as before. */
  lemma ByteMoved(hash: Bytes -> Bytes, digest: Bytes, index: nat, path: seq<Bytes>)
    requires path != [] && path[0] != [] && index % 2 == 0
    ensures Fold(LoneHashed(hash), digest + path[0][..1], index, [path[0][1..]] + path[1..])
            == Fold(LoneHashed(hash), digest, index, path)
  {
    assert digest + path[0][..1] + path[0][1..] == digest + path[0];
    assert ([path[0][1..]] + path[1..])[1..] == path[1..];
  }
}
