/** core/util/merkle_tree.go: a tree kept in one flat array, level after level, with an odd last node paired
    with itself. The pair hash is a parameter: the source builds the tree with DecodeAndMHash, but its
    VerifyMerklePath folds with MHash, so that a path is only ever claimed to verify with the pair hash of its tree. */
module FlatTrees {
  import opened Levels
  import opened Merkle
  import opened Hashing

  datatype MTPath = MTPath(nodes: seq<Bytes>, leafIndex: int)

  /** The loop of VerifyMerklePath, for any pair hash. */
  method VerifyMerklePath(pair: (Bytes, Bytes) -> Bytes, hash: Bytes, path: MTPath, root: Bytes) returns (ok: bool)
    ensures ok == (Fold(SelfPaired(pair), hash, path.leafIndex, path.nodes) == root)
  {
    var mthash, idx := hash, path.leafIndex;
    var i := 0;
    while i < |path.nodes|
      invariant 0 <= i <= |path.nodes|
      invariant Fold(SelfPaired(pair), mthash, idx, path.nodes[i..]) == Fold(SelfPaired(pair), hash, path.leafIndex, path.nodes)
    {
      if idx % 2 == 1 {
        mthash := pair(path.nodes[i], mthash);
      } else {
        mthash := pair(mthash, path.nodes[i]);
      }
      assert (idx - idx % 2) / 2 == idx / 2;
      assert path.nodes[i..][1..] == path.nodes[i + 1..];
      idx := (idx - idx % 2) / 2;
      i := i + 1;
    }
    ok := mthash == root;
  }

  // ----- the array

  /** Number of levels; a single leaf is paired with itself, so it has a root of its own. */
  function LevelCount(leaves: nat): nat {
    if leaves == 1 then 2 else if leaves == 0 then 1 else CeilLog2(leaves) + 1
  }

  function TreeSize(leaves: nat): nat {
    if leaves == 1 then 2 else if leaves == 0 then 1 else Offset(leaves, CeilLog2(leaves) + 1)
  }

  /** Level l of the tree starts at Offset and holds the l-th round of parents. */
  ghost predicate HoldsLevel(pair: (Bytes, Bytes) -> Bytes, leaves: seq<Bytes>, tree: seq<Bytes>, l: nat) {
    && Offset(|leaves|, l) + Width(|leaves|, l) <= |tree|
    && tree[Offset(|leaves|, l)..Offset(|leaves|, l) + Width(|leaves|, l)] == Level(SelfPaired(pair), leaves, l)
  }

  ghost predicate HoldsLevels(pair: (Bytes, Bytes) -> Bytes, leaves: seq<Bytes>, tree: seq<Bytes>, top: nat) {
    forall l :: 0 <= l <= top ==> HoldsLevel(pair, leaves, tree, l)
  }

  /** `tree` is the flat form of the tree over `leaves`. */
  ghost predicate IsFlat(pair: (Bytes, Bytes) -> Bytes, leaves: seq<Bytes>, tree: seq<Bytes>) {
    && |tree| == TreeSize(|leaves|)
    && (|leaves| == 1 ==> tree == [leaves[0], pair(leaves[0], leaves[0])])
    && (|leaves| >= 2 ==> HoldsLevels(pair, leaves, tree, CeilLog2(|leaves|)))
  }

  /** The root that a tree over `leaves` must have: a single leaf is still paired with itself once. */
  function FlatRoot(pair: (Bytes, Bytes) -> Bytes, leaves: seq<Bytes>): Bytes
    requires |leaves| >= 1
  {
    if |leaves| == 1 then pair(leaves[0], leaves[0]) else Root(SelfPaired(pair), leaves)
  }

  /** The last slot of the array is the root. */
  lemma LastSlotIsRoot(pair: (Bytes, Bytes) -> Bytes, leaves: seq<Bytes>, tree: seq<Bytes>)
    requires |leaves| >= 1 && IsFlat(pair, leaves, tree)
    ensures |tree| >= 1 && tree[|tree| - 1] == FlatRoot(pair, leaves)
  {
    if |leaves| >= 2 {
      var top := CeilLog2(|leaves|);
      RoundsReachOne(|leaves|);
      assert HoldsLevel(pair, leaves, tree, top);
    }
  }

  lemma SmallLogs()
    ensures CeilLog2(2) == 1 && CeilLog2(3) == 2
  {
    assert Pow2(0) == 1 && Pow2(1) == 2 && Pow2(2) == 4;
    CeilLog2Unique(2, 1);
    CeilLog2Unique(3, 2);
  }

  lemma NoOffset(n: nat)
    ensures Offset(n, 0) == 0
  {
  }

  lemma SmallOffsets()
    ensures Offset(2, 2) == 3 && Offset(3, 3) == 6
  {
    hide Offset, Width;
    NoOffset(1);
    OffsetShift(1, 0);
    OffsetShift(2, 1);
    OffsetShift(3, 2);
  }

  /** The smallest trees; a single leaf takes a slot for its root. */
  lemma SmallTrees()
    ensures LevelCount(0) == 1 && LevelCount(1) == 2 && LevelCount(2) == 2 && LevelCount(3) == 3
    ensures TreeSize(0) == 1 && TreeSize(1) == 2 && TreeSize(2) == 3 && TreeSize(3) == 6
  {
    hide CeilLog2, CeilLog2From, Offset;
    SmallLogs();
    SmallOffsets();
  }

  class MerkleTree {
    const pair: (Bytes, Bytes) -> Bytes
    var tree: array<Bytes>
    var leavesCount: nat
    var levels: nat

    constructor (pair: (Bytes, Bytes) -> Bytes)
      ensures this.pair == pair && fresh(tree)
    {
      this.pair := pair;
      tree := new Bytes[0];
      leavesCount, levels := 0, 0;
    }

    /** Slots and levels for a number of leaves. */
    method ComputeSize(leaves: nat) returns (tsize: nat, levels: nat)
      ensures tsize == TreeSize(leaves) && levels == LevelCount(leaves)
    {
      if leaves == 1 {
        return 2, 2;
      }
      tsize, levels := 0, 0;
      var ll := leaves;
      ghost var top := if leaves == 0 then 0 else CeilLog2(leaves);
      if leaves > 0 {
        RoundsReachOne(leaves);
      }
      while ll > 1
        invariant levels <= top && ll == Width(leaves, levels) && tsize == Offset(leaves, levels)
      {
        tsize := tsize + ll;
        ll := (ll + 1) / 2;
        levels := levels + 1;
      }
      assert leaves > 0 ==> levels == top;
      tsize := tsize + 1;
      levels := levels + 1;
    }

    method CopyLeaves(hashes: seq<Bytes>)
      requires |hashes| <= tree.Length
      modifies tree
      ensures tree[..|hashes|] == hashes
    {
      var idx := 0;
      while idx < |hashes|
        invariant 0 <= idx <= |hashes|
        invariant tree[..idx] == hashes[..idx]
      {
        tree[idx] := hashes[idx];
        idx := idx + 1;
      }
    }

    /** Fills the array level by level, in place. */
    method ComputeTree(hashes: seq<Bytes>)
      modifies this
      ensures fresh(tree) && leavesCount == |hashes| && levels == LevelCount(|hashes|)
      ensures IsFlat(pair, hashes, tree[..])
    {
      var tsize: nat;
      tsize, levels := ComputeSize(|hashes|);
      leavesCount := |hashes|;
      SizeCoversLeaves(|hashes|);
      tree := new Bytes[tsize](_ => []);
      CopyLeaves(hashes);
      if |hashes| == 1 {
        tree[1] := pair(tree[0], tree[0]);
        assert tree[..] == [hashes[0], pair(hashes[0], hashes[0])];
        return;
      }
      if |hashes| == 0 {
        return;  // the loop below does not run
      }
      FillLevels(hashes);
    }

    /** The levels above the leaves. */
    method FillLevels(ghost leaves: seq<Bytes>)
      requires leavesCount == |leaves| >= 2 && tree.Length == TreeSize(|leaves|)
      requires |leaves| <= tree.Length && tree[..|leaves|] == leaves
      modifies tree
      ensures IsFlat(pair, leaves, tree[..])
    {
      ghost var top, l := CeilLog2(|leaves|), 0;
      var pl0, plsize := 0, leavesCount;
      while plsize > 1
        invariant 0 <= l <= top
        invariant pl0 == Offset(|leaves|, l) && plsize == Width(|leaves|, l)
        invariant HoldsLevels(pair, leaves, tree[..], l)
        decreases plsize
      {
        AddLevel(pl0, plsize, leaves, l);
        pl0, plsize := pl0 + plsize, (plsize + 1) / 2;
        l := l + 1;
      }
      LevelBelowTop(|leaves|, l);
    }

    method AddLevel(pl0: nat, plsize: nat, ghost leaves: seq<Bytes>, ghost l: nat)
      requires |leaves| >= 2 && tree.Length == TreeSize(|leaves|) && l <= CeilLog2(|leaves|)
      requires pl0 == Offset(|leaves|, l) && plsize == Width(|leaves|, l) > 1
      requires HoldsLevels(pair, leaves, tree[..], l)
      modifies tree
      ensures l + 1 <= CeilLog2(|leaves|) && HoldsLevels(pair, leaves, tree[..], l + 1)
    {
      hide HoldsLevels, Parents, CeilLog2;
      LevelBelowTop(|leaves|, l);
      OffsetMonotone(|leaves|, l + 2, CeilLog2(|leaves|) + 1);
      ghost var before := tree[..];
      FillLevel(pl0, plsize);
      LevelAdded(pair, leaves, before, tree[..], l);
    }

    /** One round of the outer loop. The inner loop always reads pairs: in an odd level its last turn reads one
        slot into the next level and leaves a provisional value, which the assignment after it replaces. */
    method FillLevel(pl0: nat, plsize: nat)
      requires plsize > 1 && pl0 + plsize + Half(plsize) <= tree.Length
      modifies tree
      ensures tree[..pl0 + plsize] == old(tree[..pl0 + plsize])
      ensures tree[pl0 + plsize..pl0 + plsize + Half(plsize)] == Parents(SelfPaired(pair), tree[pl0..pl0 + plsize])
    {
      hide Parents, IsRow;
      var l0 := pl0 + plsize;
      ghost var below, level := tree[..l0], tree[pl0..l0];
      var i, j := 0, 0;
      RowStart(pair, level);
      assert tree[l0..l0] == [];
      while i < plsize
        invariant i == 2 * j && j <= Half(plsize)
        invariant tree[..l0] == below
        invariant IsRow(pair, level, tree[l0..l0 + j], j)
      {
        ghost var row := tree[l0..l0 + j];
        assert tree[pl0 + i] == below[pl0 + i] == level[i];
        assert i + 1 < plsize ==> tree[pl0 + i + 1] == below[pl0 + i + 1] == level[i + 1];
        tree[l0 + j] := pair(tree[pl0 + i], tree[pl0 + i + 1]);
        RowStep(pair, level, row, j, tree[l0 + j]);
        assert tree[l0..l0 + j + 1] == row + [tree[l0 + j]];
        i, j := i + 2, j + 1;
      }
      if plsize % 2 == 1 {
        ghost var row := tree[l0..l0 + plsize / 2];
        assert tree[pl0 + plsize - 1] == below[pl0 + plsize - 1] == level[plsize - 1];
        RowEnd(pair, level, tree[l0..l0 + j]);
        tree[l0 + plsize / 2] := pair(tree[pl0 + plsize - 1], tree[pl0 + plsize - 1]);
        assert tree[l0..l0 + j] == row + [tree[l0 + plsize / 2]];
      } else {
        RowWhole(pair, level, tree[l0..l0 + j]);
      }
      assert tree[pl0..l0] == tree[..l0][pl0..] == level;
    }

    /** The root of whatever leaves the array is the tree of. */
    method GetRoot() returns (root: Bytes)
      requires tree.Length >= 1
      ensures forall leaves :: |leaves| >= 1 && IsFlat(pair, leaves, tree[..]) ==> root == FlatRoot(pair, leaves)
    {
      root := tree[tree.Length - 1];
      forall leaves | |leaves| >= 1 && IsFlat(pair, leaves, tree[..])
        ensures root == FlatRoot(pair, leaves)
      {
        LastSlotIsRoot(pair, leaves, tree[..]);
      }
    }

    /** Takes a ready array over; only its size is checked. */
    method SetTree(leaves: nat, newTree: array<Bytes>) returns (ok: bool)
      modifies this
      ensures ok == (newTree.Length == TreeSize(leaves))
      ensures ok ==> tree == newTree && leavesCount == leaves && levels == LevelCount(leaves)
      ensures !ok ==> unchanged(this)
    {
      var size, newLevels := ComputeSize(leaves);
      if size != newTree.Length {
        return false;
      }
      levels, tree, leavesCount := newLevels, newTree, leaves;
      return true;
    }

    /** The index of the first leaf with this hash, or -1. */
    method GetLeafIndex(hash: Bytes) returns (r: int)
      requires leavesCount <= tree.Length
      ensures if hash in tree[..leavesCount] then 0 <= r < leavesCount && tree[r] == hash && hash !in tree[..r] else r == -1
    {
      var i := 0;
      while i < leavesCount
        invariant 0 <= i <= leavesCount && hash !in tree[..i]
      {
        if tree[i] == hash {
          return i;
        }
        i := i + 1;
      }
      return -1;
    }

    /** The neighbour of a node in the level that starts at l0, or the node itself where it has none. */
    method NeighbourInLevel(l0: nat, width: nat, idx: nat) returns (node: Bytes)
      requires idx < width && l0 + width <= tree.Length
      ensures node == tree[l0 + SiblingIndex(width, idx)]
    {
      if idx % 2 == 1 {
        node := tree[l0 + idx - 1];
      } else if l0 + idx + 1 < l0 + width {
        node := tree[l0 + idx + 1];
      } else {
        node := tree[l0 + idx];
      }
    }

    /** The path of the first leaf with this hash; the empty path when there is none. */
    method GetPath(hash: Bytes) returns (mpath: MTPath)
      requires tree.Length == TreeSize(leavesCount) && levels == LevelCount(leavesCount)
      ensures leavesCount <= tree.Length
      ensures if hash in tree[..leavesCount] then
                && 0 <= mpath.leafIndex < leavesCount && tree[mpath.leafIndex] == hash
                && hash !in tree[..mpath.leafIndex] && IsPathOf(pair, tree[..], leavesCount, mpath.leafIndex, mpath.nodes)
              else mpath == MTPath([], 0)
    {
      SizeCoversLeaves(leavesCount);
      var hidx := GetLeafIndex(hash);
      if hidx < 0 {
        return MTPath([], 0);
      }
      mpath := GetPathByIndex(hidx);
    }

    /** One turn of the loop below: the parent's index in the next level, and the parent's neighbour there. */
    method SiblingAbove(pl0: nat, plsize: nat, idx: nat, ghost index: nat, ghost l: nat) returns (up: nat, node: Bytes)
      requires index < leavesCount && tree.Length == TreeSize(leavesCount) && l + 1 < LevelCount(leavesCount) - 1
      requires pl0 == Offset(leavesCount, l) && plsize == Width(leavesCount, l) && idx == Shift(index, l)
      ensures up == Shift(index, l + 1) && IsSlot(tree[..], leavesCount, index, l + 1, node)
    {
      hide TreeSize, LevelCount, SiblingIndex;
      LevelFits(leavesCount, index, l + 1);
      up := (idx - idx % 2) / 2;
      node := NeighbourInLevel(pl0 + plsize, (plsize + 1) / 2, up);
    }

    /** Collects a leaf's neighbours on its way up. An array of the right size is all that is needed. */
    method GetPathByIndex(index: nat) returns (mpath: MTPath)
      requires index < leavesCount && levels == LevelCount(leavesCount) && tree.Length == TreeSize(leavesCount)
      ensures mpath.leafIndex == index && IsPathOf(pair, tree[..], leavesCount, index, mpath.nodes)
    {
      hide CeilLog2, SiblingIndex, TreeSize, IsFlat, IsSiblingPath, AreSlots, IsSlot, IsPathOf;
      SizeCoversLeaves(leavesCount);
      var path := new Bytes[levels - 1](_ => []);
      var idx := index;
      LevelFits(leavesCount, index, 0);
      path[0] := NeighbourInLevel(0, leavesCount, idx);
      SlotsStart(tree[..], leavesCount, index, path[..1]);
      var pl0, plsize, pi := 0, leavesCount, 1;
      while plsize > 2
        invariant 1 <= pi <= path.Length == LevelCount(leavesCount) - 1
        invariant pl0 == Offset(leavesCount, pi - 1) && plsize == Width(leavesCount, pi - 1)
        invariant pi > 1 ==> Width(leavesCount, pi - 2) > 2
        invariant idx == Shift(index, pi - 1)
        invariant AreSlots(tree[..], leavesCount, index, path[..pi])
        decreases plsize
      {
        LevelsAhead(leavesCount, pi - 1);
        ghost var before := path[..pi];
        var node: Bytes;
        idx, node := SiblingAbove(pl0, plsize, idx, index, pi - 1);
        path[pi] := node;
        assert path[..pi + 1] == before + [node];
        SlotsStep(tree[..], leavesCount, index, before, node);
        pl0, plsize, pi := pl0 + plsize, (plsize + 1) / 2, pi + 1;
      }
      LevelsDone(leavesCount, pi - 1);
      assert path[..pi] == path[..];
      SlotsAreSiblings(pair, tree[..], leavesCount, index, path[..]);
      return MTPath(path[..], index);
    }
  }

  /** The position of a node's neighbour in its level, or its own where it has none. */
  function SiblingIndex(width: nat, i: nat): (j: nat)
    ensures i < width ==> j < width
  {
    if i % 2 == 1 then i - 1 else if i + 1 < width then i + 1 else i
  }

  /** The path holds the slots of the neighbours of a leaf and of its ancestors. */
  ghost predicate AreSlots(tree: seq<Bytes>, n: nat, index: nat, path: seq<Bytes>) {
    forall l :: 0 <= l < |path| ==> IsSlot(tree, n, index, l, path[l])
  }

  ghost predicate IsSlot(tree: seq<Bytes>, n: nat, index: nat, l: nat, node: Bytes) {
    var slot := Offset(n, l) + SiblingIndex(Width(n, l), Shift(index, l));
    slot < |tree| && tree[slot] == node
  }

  /** One slot for each level below the top; the sibling path of the leaf whenever the array is the tree of its leaves. */
  ghost predicate IsPathOf(pair: (Bytes, Bytes) -> Bytes, tree: seq<Bytes>, n: nat, index: nat, path: seq<Bytes>)
    requires index < n
  {
    && |path| == LevelCount(n) - 1 && AreSlots(tree, n, index, path)
    && forall leaves :: |leaves| == n && IsFlat(pair, leaves, tree) ==> IsSiblingPath(SelfPaired(pair), leaves, index, path)
  }

  lemma SlotsStart(tree: seq<Bytes>, n: nat, index: nat, path: seq<Bytes>)
    requires |path| == 1 && index < n <= |tree| && path[0] == tree[SiblingIndex(n, index)]
    ensures AreSlots(tree, n, index, path)
  {
    assert Offset(n, 0) == 0 && Width(n, 0) == n && Shift(index, 0) == index;
  }

  lemma SlotsStep(tree: seq<Bytes>, n: nat, index: nat, path: seq<Bytes>, node: Bytes)
    requires AreSlots(tree, n, index, path) && IsSlot(tree, n, index, |path|, node)
    ensures AreSlots(tree, n, index, path + [node])
  {
    forall l | 0 <= l < |path| + 1
      ensures IsSlot(tree, n, index, l, (path + [node])[l])
    {
      if l < |path| {
        assert IsSlot(tree, n, index, l, path[l]);
      }
    }
  }

  /** Every level below the top has its slots inside the array, and the leaf's ancestor is one of its nodes. */
  lemma LevelFits(n: nat, index: nat, l: nat)
    requires index < n && l < LevelCount(n) - 1
    ensures Shift(index, l) < Width(n, l) && Offset(n, l) + Width(n, l) <= TreeSize(n)
  {
    ShiftBelowWidth(n, index, l);
    if n >= 2 {
      OffsetMonotone(n, l + 1, CeilLog2(n) + 1);
    }
  }

  lemma SlotsAreSiblings(pair: (Bytes, Bytes) -> Bytes, tree: seq<Bytes>, n: nat, index: nat, path: seq<Bytes>)
    requires index < n && |path| == LevelCount(n) - 1 && AreSlots(tree, n, index, path)
    ensures IsPathOf(pair, tree, n, index, path)
  {
    forall leaves | |leaves| == n && IsFlat(pair, leaves, tree)
      ensures IsSiblingPath(SelfPaired(pair), leaves, index, path)
    {
      forall l | 0 <= l < |path|
        ensures Shift(index, l) < |Level(SelfPaired(pair), leaves, l)|
        ensures path[l] == Sibling(Level(SelfPaired(pair), leaves, l), Shift(index, l))
      {
        assert IsSlot(tree, n, index, l, path[l]);
        SlotIsSibling(pair, leaves, tree, index, l, path[l]);
      }
    }
  }

  lemma SlotIsSibling(pair: (Bytes, Bytes) -> Bytes, leaves: seq<Bytes>, tree: seq<Bytes>, index: nat, l: nat, node: Bytes)
    requires index < |leaves| && l < LevelCount(|leaves|) - 1
    requires IsFlat(pair, leaves, tree) && IsSlot(tree, |leaves|, index, l, node)
    ensures Shift(index, l) < |Level(SelfPaired(pair), leaves, l)|
    ensures node == Sibling(Level(SelfPaired(pair), leaves, l), Shift(index, l))
  {
    hide Parents, Shift;
    LevelFits(|leaves|, index, l);
    var from, level := Offset(|leaves|, l), Level(SelfPaired(pair), leaves, l);
    if |leaves| == 1 {
      assert level == leaves;
    } else {
      assert HoldsLevel(pair, leaves, tree, l);
      assert level == tree[from..from + |level|];
    }
  }

  /** The first j slots of the next level, with the last one still provisional when an odd level is used up. */
  ghost predicate IsRow(pair: (Bytes, Bytes) -> Bytes, level: seq<Bytes>, row: seq<Bytes>, j: nat) {
    && |row| == j
    && (2 * j <= |level| ==> row + Parents(SelfPaired(pair), level[2 * j..]) == Parents(SelfPaired(pair), level))
    && (2 * j == |level| + 1 ==>
          row[..j - 1] + [pair(level[|level| - 1], level[|level| - 1])] == Parents(SelfPaired(pair), level))
  }

  lemma RowStart(pair: (Bytes, Bytes) -> Bytes, level: seq<Bytes>)
    ensures |level| > 0 ==> IsRow(pair, level, [], 0)
  {
    assert level[0..] == level;
  }

  lemma RowStep(pair: (Bytes, Bytes) -> Bytes, level: seq<Bytes>, row: seq<Bytes>, j: nat, slot: Bytes)
    requires 2 * j < |level| && IsRow(pair, level, row, j)
    requires 2 * j + 1 < |level| ==> slot == pair(level[2 * j], level[2 * j + 1])
    ensures IsRow(pair, level, row + [slot], j + 1)
  {
    var rest := level[2 * j..];
    if 2 * j + 1 < |level| {
      assert rest[2..] == level[2 * (j + 1)..];
      assert Parents(SelfPaired(pair), rest) == [slot] + Parents(SelfPaired(pair), rest[2..]);
    } else {
      assert rest == [level[|level| - 1]];
      assert (row + [slot])[..j] == row;
    }
  }

  lemma RowEnd(pair: (Bytes, Bytes) -> Bytes, level: seq<Bytes>, row: seq<Bytes>)
    requires |level| % 2 == 1 && IsRow(pair, level, row, Half(|level|))
    ensures row[..|level| / 2] + [pair(level[|level| - 1], level[|level| - 1])] == Parents(SelfPaired(pair), level)
  {
  }

  lemma RowWhole(pair: (Bytes, Bytes) -> Bytes, level: seq<Bytes>, row: seq<Bytes>)
    requires |level| % 2 == 0 && IsRow(pair, level, row, Half(|level|))
    ensures row == Parents(SelfPaired(pair), level)
  {
    assert level[|level|..] == [];
  }

  lemma SliceKept(before: seq<Bytes>, after: seq<Bytes>, a: nat, b: nat, c: nat)
    requires a <= b <= c <= |before| && c <= |after| && after[..c] == before[..c]
    ensures after[a..b] == before[a..b]
  {
    assert after[a..b] == after[..c][a..b] == before[..c][a..b];
  }

  /** Filling in the next level keeps the levels below it. */
  lemma LevelAdded(pair: (Bytes, Bytes) -> Bytes, leaves: seq<Bytes>, before: seq<Bytes>, after: seq<Bytes>, l: nat)
    requires HoldsLevels(pair, leaves, before, l)
    requires |after| == |before| && Offset(|leaves|, l + 2) <= |after|
    requires Offset(|leaves|, l) <= Offset(|leaves|, l + 1) <= Offset(|leaves|, l + 2)
    requires after[..Offset(|leaves|, l + 1)] == before[..Offset(|leaves|, l + 1)]
    requires after[Offset(|leaves|, l + 1)..Offset(|leaves|, l + 2)]
             == Parents(SelfPaired(pair), before[Offset(|leaves|, l)..Offset(|leaves|, l + 1)])
    ensures HoldsLevels(pair, leaves, after, l + 1)
  {
    var n := |leaves|;
    assert HoldsLevel(pair, leaves, before, l);
    forall k | 0 <= k <= l
      ensures HoldsLevel(pair, leaves, after, k)
    {
      assert HoldsLevel(pair, leaves, before, k);
      OffsetMonotone(n, k + 1, l + 1);
      SliceKept(before, after, Offset(n, k), Offset(n, k + 1), Offset(n, l + 1));
    }
  }

  lemma SizeCoversLeaves(leaves: nat)
    ensures TreeSize(leaves) >= leaves && LevelCount(leaves) >= 1 && TreeSize(leaves) >= 1
  {
    if leaves >= 2 {
      TreeSizeBounds(leaves);
    }
  }

  /** A level wider than two is at least two levels below the top. */
  lemma LevelsAhead(n: nat, l: nat)
    requires n >= 1 && Width(n, l) > 2
    ensures l + 1 < CeilLog2(n)
  {
    if l + 1 >= CeilLog2(n) {
      WidthStaysOne(n, l + 1);
    }
  }

  /** A level of one or two nodes is the top or right below it. */
  lemma LevelsDone(n: nat, l: nat)
    requires n >= 1 && Width(n, l) <= 2 && (l > 0 ==> Width(n, l - 1) > 2)
    ensures l + 1 == LevelCount(n) - 1
  {
    RoundsReachOne(n);
    assert Width(n, l + 1) == Half(Width(n, l));
    if l > 0 {
      LevelsAhead(n, l - 1);
    }
  }

  /** The path of any leaf folds to the root of its tree. */
  lemma PathFoldsToRoot(pair: (Bytes, Bytes) -> Bytes, leaves: seq<Bytes>, index: nat, path: seq<Bytes>)
    requires index < |leaves| && |path| == LevelCount(|leaves|) - 1
    requires IsSiblingPath(SelfPaired(pair), leaves, index, path)
    ensures Fold(SelfPaired(pair), leaves[index], index, path) == FlatRoot(pair, leaves)
  {
    FoldSiblingPath(SelfPaired(pair), leaves, index, path);
    if |leaves| == 1 {
      assert path[0] == Sibling(leaves, 0);
      assert path == [leaves[0]];
    } else {
      RoundsReachOne(|leaves|);
    }
  }

  /** Slots and levels of two or more leaves. */
  lemma FlatSizeBounds(leaves: nat)
    requires leaves >= 2
    ensures LevelCount(leaves) == CeilLog2(leaves) + 1
    ensures 2 * leaves - 1 <= TreeSize(leaves) <= 2 * leaves - 2 + LevelCount(leaves)
  {
    TreeSizeBounds(leaves);
  }

  /** A computed tree, reloaded into another object, gives every leaf a path that verifies against the root. */
  method EveryPathVerifies(pair: (Bytes, Bytes) -> Bytes, leaves: seq<Bytes>, index: nat) returns (reloaded: bool, ok: bool)
    requires index < |leaves|
    ensures reloaded && ok
  {
    var tree := new MerkleTree(pair);
    tree.ComputeTree(leaves);
    SizeCoversLeaves(|leaves|);
    var root := tree.GetRoot();
    var copy := new MerkleTree(pair);
    reloaded := copy.SetTree(tree.leavesCount, tree.tree);
    var path := copy.GetPathByIndex(index);
    PathFoldsToRoot(pair, leaves, index, path.nodes);
    ok := VerifyMerklePath(pair, leaves[index], path, root);
  }

  // ----- what a root commits to

  /** The two values that are combined into the t-th parent. */
  function Children(nodes: seq<Bytes>, t: nat): (Bytes, Bytes)
    requires t < Half(|nodes|)
  {
    (nodes[2 * t], if 2 * t + 1 < |nodes| then nodes[2 * t + 1] else nodes[2 * t])
  }

  ghost function LevelPairs(nodes: seq<Bytes>): iset<(Bytes, Bytes)> {
    iset t | 0 <= t < Half(|nodes|) :: Children(nodes, t)
  }

  /** Everything that is combined on the way to the root. */
  ghost function TreePairs(pair: (Bytes, Bytes) -> Bytes, nodes: seq<Bytes>): iset<(Bytes, Bytes)>
    decreases |nodes|
  {
    if |nodes| <= 1 then LevelPairs(nodes) else LevelPairs(nodes) + TreePairs(pair, Parents(SelfPaired(pair), nodes))
  }

  /** No two of these pairs collide. */
  ghost predicate PairsApart(pair: (Bytes, Bytes) -> Bytes, pairs: iset<(Bytes, Bytes)>) {
    forall x, y {:trigger Apart(pair, x, y)} :: x in pairs && y in pairs ==> Apart(pair, x, y)
  }

  ghost predicate Apart(pair: (Bytes, Bytes) -> Bytes, x: (Bytes, Bytes), y: (Bytes, Bytes)) {
    pair(x.0, x.1) == pair(y.0, y.1) ==> x == y
  }

  lemma ParentOfChildren(pair: (Bytes, Bytes) -> Bytes, nodes: seq<Bytes>, t: nat)
    requires t < Half(|nodes|)
    ensures Parents(SelfPaired(pair), nodes)[t] == pair(Children(nodes, t).0, Children(nodes, t).1)
    ensures Children(nodes, t) in LevelPairs(nodes)
  {
    ParentsAt(SelfPaired(pair), nodes, t);
  }

  /** Two levels of one width with equal parents are equal. */
  lemma SameParentsSameNodes(pair: (Bytes, Bytes) -> Bytes, a: seq<Bytes>, b: seq<Bytes>, pairs: iset<(Bytes, Bytes)>)
    requires |a| == |b| && LevelPairs(a) <= pairs && LevelPairs(b) <= pairs && PairsApart(pair, pairs)
    requires Parents(SelfPaired(pair), a) == Parents(SelfPaired(pair), b)
    ensures a == b
  {
    hide Parents, LevelPairs;
    forall i | 0 <= i < |a|
      ensures a[i] == b[i]
    {
      var t := i / 2;
      ParentOfChildren(pair, a, t);
      ParentOfChildren(pair, b, t);
      assert Apart(pair, Children(a, t), Children(b, t));
      assert Children(a, t) == Children(b, t);
    }
  }

  /** The root of two or more nodes is that of their parents. */
  lemma RootOfParents(pair: (Bytes, Bytes) -> Bytes, nodes: seq<Bytes>)
    requires |nodes| >= 2
    ensures Root(SelfPaired(pair), nodes) == Root(SelfPaired(pair), Parents(SelfPaired(pair), nodes))
  {
    hide Parents, Level, CeilLog2, Width, Root;
    var l := CeilLog2(Half(|nodes|));
    CeilLog2Half(|nodes|);
    LevelShift(SelfPaired(pair), nodes, l);
    RootAt(pair, nodes, l + 1);
    RootAt(pair, Parents(SelfPaired(pair), nodes), l);
  }

  lemma RootAt(pair: (Bytes, Bytes) -> Bytes, nodes: seq<Bytes>, l: nat)
    requires |nodes| >= 1 && l == CeilLog2(|nodes|)
    ensures |Level(SelfPaired(pair), nodes, l)| == 1 && Root(SelfPaired(pair), nodes) == Level(SelfPaired(pair), nodes, l)[0]
  {
    hide Parents;
    RoundsReachOne(|nodes|);
  }

  lemma {:induction false} SameRootSameNodes(pair: (Bytes, Bytes) -> Bytes, a: seq<Bytes>, b: seq<Bytes>,
                                             pairs: iset<(Bytes, Bytes)>)
    requires |a| == |b| >= 1 && TreePairs(pair, a) <= pairs && TreePairs(pair, b) <= pairs && PairsApart(pair, pairs)
    requires Root(SelfPaired(pair), a) == Root(SelfPaired(pair), b)
    ensures a == b
    decreases |a|
  {
    hide Parents, PairsApart, LevelPairs, Root;
    if |a| == 1 {
      LoneRoot(pair, a);
      LoneRoot(pair, b);
    } else {
      RootOfParents(pair, a);
      RootOfParents(pair, b);
      SameRootSameNodes(pair, Parents(SelfPaired(pair), a), Parents(SelfPaired(pair), b), pairs);
      SameParentsSameNodes(pair, a, b, pairs);
    }
  }

  lemma LoneRoot(pair: (Bytes, Bytes) -> Bytes, nodes: seq<Bytes>)
    requires |nodes| == 1
    ensures Root(SelfPaired(pair), nodes) == nodes[0] && nodes == [nodes[0]]
  {
    CeilLog2Unique(1, 0);
  }

  /** Together with the leaf count a root fixes the leaves. */
  lemma FlatRootCommits(pair: (Bytes, Bytes) -> Bytes, a: seq<Bytes>, b: seq<Bytes>)
    requires |a| == |b| >= 1 && PairsApart(pair, TreePairs(pair, a) + TreePairs(pair, b))
    requires FlatRoot(pair, a) == FlatRoot(pair, b)
    ensures a == b
  {
    if |a| == 1 {
      ParentOfChildren(pair, a, 0);
      ParentOfChildren(pair, b, 0);
      assert Apart(pair, Children(a, 0), Children(b, 0));
    } else {
      SameRootSameNodes(pair, a, b, TreePairs(pair, a) + TreePairs(pair, b));
    }
  }

  /** The count is needed: an odd number of leaves has the root that it has with its last leaf twice. */
  lemma LastLeafTwice(pair: (Bytes, Bytes) -> Bytes, leaves: seq<Bytes>)
    requires |leaves| % 2 == 1
    ensures FlatRoot(pair, leaves) == FlatRoot(pair, leaves + [leaves[|leaves| - 1]])
  {
    hide Parents, Root;
    var longer := leaves + [leaves[|leaves| - 1]];
    SameParentsTwice(pair, leaves, longer);
    RootOfParents(pair, longer);
    if |leaves| == 1 {
      LoneRoot(pair, Parents(SelfPaired(pair), longer));
      ParentsAt(SelfPaired(pair), longer, 0);
    } else {
      RootOfParents(pair, leaves);
    }
  }

  /** The two lists have one parent each for every parent of the other. */
  lemma SameParentsTwice(pair: (Bytes, Bytes) -> Bytes, leaves: seq<Bytes>, longer: seq<Bytes>)
    requires IsLastTwice(leaves, longer)
    ensures Parents(SelfPaired(pair), leaves) == Parents(SelfPaired(pair), longer)
  {
    hide Parents, Parent, IsLastTwice;
    var x, y := Parents(SelfPaired(pair), leaves), Parents(SelfPaired(pair), longer);
    SameHalf(leaves, longer);
    forall t | 0 <= t < |x|
      ensures x[t] == y[t]
    {
      ParentsAt(SelfPaired(pair), leaves, t);
      ParentsAt(SelfPaired(pair), longer, t);
      SameParentTwice(pair, leaves, longer, t);
    }
  }

  ghost predicate IsLastTwice(leaves: seq<Bytes>, longer: seq<Bytes>) {
    && |leaves| % 2 == 1 && |longer| == |leaves| + 1
    && (forall i :: 0 <= i < |leaves| ==> longer[i] == leaves[i]) && longer[|leaves|] == leaves[|leaves| - 1]
  }

  lemma SameHalf(leaves: seq<Bytes>, longer: seq<Bytes>)
    requires IsLastTwice(leaves, longer)
    ensures Half(|leaves|) == Half(|longer|)
  {
  }

  lemma SameParentTwice(pair: (Bytes, Bytes) -> Bytes, leaves: seq<Bytes>, longer: seq<Bytes>, t: nat)
    requires IsLastTwice(leaves, longer) && t < Half(|leaves|) && t < Half(|longer|)
    ensures Parent(SelfPaired(pair), leaves, t) == Parent(SelfPaired(pair), longer, t)
  {
  }
}
