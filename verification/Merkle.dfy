/** The tree that every Merkle structure of core/util computes, level by level. The three structures
    differ only in how they combine two nodes and what they do with an odd last node. A node is a hash value:
    32 raw bytes, or a hex string in MerkleTree, which is a byte string in Go as well. */
module Merkle {
  import opened Levels
  import opened Hashing

  /** How a parent is made from two children, and from a last child without a neighbour: ValidationTree hashes
      that child by itself, MerkleTree pairs it with itself. */
  datatype Rule = LoneHashed(hash: Bytes -> Bytes) | SelfPaired(pair: (Bytes, Bytes) -> Bytes) {
    function Pair(a: Bytes, b: Bytes): Bytes {
      match this
      case LoneHashed(hash) => hash(a + b)
      case SelfPaired(pair) => pair(a, b)
    }

    function Lone(a: Bytes): Bytes {
      match this
      case LoneHashed(hash) => hash(a)
      case SelfPaired(pair) => pair(a, a)
    }
  }

  /** Neighbours are combined two by two. */
  function Parents(rule: Rule, nodes: seq<Bytes>): (parents: seq<Bytes>)
    ensures |parents| == Half(|nodes|)
  {
    if |nodes| == 0 then []
    else if |nodes| == 1 then [rule.Lone(nodes[0])]
    else [rule.Pair(nodes[0], nodes[1])] + Parents(rule, nodes[2..])
  }

  lemma ParentsAhead(rule: Rule, nodes: seq<Bytes>, j: nat)
    requires j + 1 < |nodes|
    ensures Parents(rule, nodes[j..]) == [rule.Pair(nodes[j], nodes[j + 1])] + Parents(rule, nodes[j + 2..])
  {
    assert nodes[j..][2..] == nodes[j + 2..];
  }

  lemma ParentsLeft(rule: Rule, nodes: seq<Bytes>, j: nat)
    requires j <= |nodes| <= j + 1
    ensures Parents(rule, nodes[j..]) == if j == |nodes| then [] else [rule.Lone(nodes[j])]
  {
  }

  /** The i-th parent by index. */
  function Parent(rule: Rule, nodes: seq<Bytes>, i: nat): Bytes
    requires i < Half(|nodes|)
  {
    if 2 * i + 1 < |nodes| then rule.Pair(nodes[2 * i], nodes[2 * i + 1]) else rule.Lone(nodes[2 * i])
  }

  lemma {:induction false} ParentsAt(rule: Rule, nodes: seq<Bytes>, i: nat)
    requires i < Half(|nodes|)
    ensures Parents(rule, nodes)[i] == Parent(rule, nodes, i)
  {
    if i > 0 {
      ParentsAt(rule, nodes[2..], i - 1);
    }
  }

  lemma PairAt(rule: Rule, nodes: seq<Bytes>, k: nat)
    requires 2 * k + 1 < |nodes|
    ensures k < |Parents(rule, nodes)| && Parents(rule, nodes)[k] == rule.Pair(nodes[2 * k], nodes[2 * k + 1])
  {
    ParentsAt(rule, nodes, k);
  }

  /** The l-th level above the leaves. */
  function Level(rule: Rule, leaves: seq<Bytes>, l: nat): (nodes: seq<Bytes>)
    ensures |nodes| == Width(|leaves|, l)
  {
    if l == 0 then leaves else Parents(rule, Level(rule, leaves, l - 1))
  }

  function Root(rule: Rule, leaves: seq<Bytes>): Bytes
    requires |leaves| >= 1
  {
    RoundsReachOne(|leaves|);
    Level(rule, leaves, CeilLog2(|leaves|))[0]
  }

  /** Three leaves: the two rules differ in what they do with the last. */
  lemma ThreeLeaves(rule: Rule, a: Bytes, b: Bytes, c: Bytes)
    ensures Root(rule, [a, b, c]) ==
            match rule
            case LoneHashed(hash) => hash(hash(a + b) + hash(c))
            case SelfPaired(pair) => pair(pair(a, b), pair(c, c))
  {
    CeilLog2Unique(3, 2);
    assert Pow2(0) == 1 && Pow2(1) == 2 && Pow2(2) == 4;
    var leaves := [a, b, c];
    assert leaves[2..] == [c];
    var level := Level(rule, leaves, 1);
    assert level == Parents(rule, Level(rule, leaves, 0)) == [rule.Pair(a, b), rule.Lone(c)];
    assert Level(rule, leaves, 2) == Parents(rule, level);
  }

  lemma {:induction false} LevelShift(rule: Rule, leaves: seq<Bytes>, l: nat)
    ensures Level(rule, leaves, l + 1) == Level(rule, Parents(rule, leaves), l)
  {
    if l > 0 {
      LevelShift(rule, leaves, l - 1);
    }
  }

  /** Parents of the first n pairs, followed by those of the rest. */
  lemma {:induction false} ParentsConcat(rule: Rule, a: seq<Bytes>, b: seq<Bytes>, n: nat)
    requires |a| == 2 * n
    ensures Parents(rule, a + b) == Parents(rule, a) + Parents(rule, b)
    decreases n
  {
    if n == 0 {
      assert a + b == b;
    } else {
      assert (a + b)[2..] == a[2..] + b;
      ParentsConcat(rule, a[2..], b, n - 1);
      var first := [rule.Pair(a[0], a[1])];
      assert Parents(rule, a + b) == first + Parents(rule, a[2..] + b);
      assert Parents(rule, a) == first + Parents(rule, a[2..]);
    }
  }

  /** Cutting between two pairs cuts the parents. */
  lemma ParentsSplit(rule: Rule, nodes: seq<Bytes>, n: nat)
    requires 2 * n <= |nodes|
    ensures n <= |Parents(rule, nodes)|
    ensures Parents(rule, nodes)[..n] == Parents(rule, nodes[..2 * n])
    ensures Parents(rule, nodes)[n..] == Parents(rule, nodes[2 * n..])
  {
    ParentsConcat(rule, nodes[..2 * n], nodes[2 * n..], n);
    assert nodes[..2 * n] + nodes[2 * n..] == nodes;
  }

  /** Parents of a run that starts at an even node and ends at an even position or at the end of the level. */
  lemma ParentsOfRun(rule: Rule, level: seq<Bytes>, lo: nat, hi: nat)
    requires lo < hi <= |level| && lo % 2 == 0 && (hi % 2 == 0 || hi == |level|)
    ensures Parents(rule, level[lo..hi]) == Parents(rule, level)[lo / 2..Half(hi)]
  {
    hide Parents;
    var m := lo / 2;
    assert lo == 2 * m;
    ParentsSplit(rule, level, m);
    if hi == |level| {
      assert level[lo..hi] == level[lo..];
    } else {
      ParentsSplit(rule, level[lo..], hi / 2 - m);
      assert level[lo..][..hi - lo] == level[lo..hi];
    }
  }

  // ----- the divide-and-conquer definition of the same tree

  /** The value of a node that stands `height` levels above `leaves`: its right child exists only when
      the leaves do not fit under its left child. */
  function TopDown(rule: Rule, leaves: seq<Bytes>, height: nat): Bytes
    requires 1 <= |leaves| <= Pow2(height)
    decreases height
  {
    if height == 0 then
      leaves[0]
    else
      var half := Pow2(height - 1);
      if |leaves| <= half then
        rule.Lone(TopDown(rule, leaves, height - 1))
      else
        rule.Pair(TopDown(rule, leaves[..half], height - 1), TopDown(rule, leaves[half..], height - 1))
  }

  lemma {:induction false} TopDownStep(rule: Rule, leaves: seq<Bytes>, height: nat)
    requires 1 <= |leaves| <= Pow2(height + 1)
    ensures TopDown(rule, leaves, height + 1) == TopDown(rule, Parents(rule, leaves), height)
    decreases height
  {
    if height == 0 {
      assert |leaves| == 1 || |leaves| == 2;
    } else if |leaves| <= Pow2(height) {
      TopDownStep(rule, leaves, height - 1);
    } else {
      var half := Pow2(height);
      TopDownStep(rule, leaves[..half], height - 1);
      TopDownStep(rule, leaves[half..], height - 1);
      ParentsSplit(rule, leaves, Pow2(height - 1));
    }
  }

  lemma {:induction false} TopDownOfLevel(rule: Rule, leaves: seq<Bytes>, height: nat)
    requires 1 <= |leaves| <= Pow2(height)
    ensures |Level(rule, leaves, height)| == 1
    ensures Level(rule, leaves, height)[0] == TopDown(rule, leaves, height)
    decreases height
  {
    if height > 0 {
      LevelShift(rule, leaves, height - 1);
      TopDownStep(rule, leaves, height - 1);
      TopDownOfLevel(rule, Parents(rule, leaves), height - 1);
    }
  }

  /** Climbing level by level and splitting top-down compute the same root. */
  lemma RootIsTopDown(rule: Rule, leaves: seq<Bytes>)
    requires |leaves| >= 1
    ensures Root(rule, leaves) == TopDown(rule, leaves, CeilLog2(|leaves|))
  {
    TopDownOfLevel(rule, leaves, CeilLog2(|leaves|));
  }

  // ----- single-leaf paths

  /** Folds a path from a leaf upwards: the path node goes left of an odd index and right of an even one. */
  function Fold(rule: Rule, digest: Bytes, index: int, path: seq<Bytes>): Bytes
    decreases |path|
  {
    if path == [] then digest
    else
      var next := if index % 2 == 1 then rule.Pair(path[0], digest) else rule.Pair(digest, path[0]);
      Fold(rule, next, index / 2, path[1..])
  }

  /** The neighbour of node i, or node i itself where it has none. */
  function Sibling(nodes: seq<Bytes>, i: nat): Bytes
    requires i < |nodes|
  {
    if i % 2 == 1 then nodes[i - 1] else if i + 1 < |nodes| then nodes[i + 1] else nodes[i]
  }

  /** index / 2^l by repeated halving. */
  function Shift(i: nat, l: nat): nat {
    if l == 0 then i else Shift(i, l - 1) / 2
  }

  lemma {:induction false} ShiftShift(i: nat, l: nat)
    ensures Shift(i, l + 1) == Shift(i / 2, l)
  {
    if l > 0 {
      ShiftShift(i, l - 1);
    }
  }

  lemma {:induction false} ShiftBelowWidth(n: nat, i: nat, l: nat)
    requires i < n
    ensures Shift(i, l) < Width(n, l)
  {
    if l > 0 {
      ShiftBelowWidth(n, i, l - 1);
    }
  }

  /** `path` holds, for each of the first |path| levels, the neighbour of leaf i's ancestor. */
  ghost predicate IsSiblingPath(rule: Rule, leaves: seq<Bytes>, i: nat, path: seq<Bytes>)
    requires i < |leaves|
  {
    forall l :: 0 <= l < |path| ==>
      Shift(i, l) < |Level(rule, leaves, l)| && path[l] == Sibling(Level(rule, leaves, l), Shift(i, l))
  }

  /** In the levels below `height` a node can be paired with its Sibling: each node has a neighbour, or a node
      without one is paired with itself anyway. */
  ghost predicate SiblingsPair(rule: Rule, leaves: seq<Bytes>, height: nat) {
    rule.SelfPaired? || forall l :: 0 <= l < height ==> |Level(rule, leaves, l)| % 2 == 0
  }

  /** Folding a leaf's sibling path gives its ancestor |path| levels up. */
  lemma {:induction false} FoldSiblingPath(rule: Rule, leaves: seq<Bytes>, i: nat, path: seq<Bytes>)
    requires i < |leaves|
    requires IsSiblingPath(rule, leaves, i, path) && SiblingsPair(rule, leaves, |path|)
    ensures Shift(i, |path|) < |Level(rule, leaves, |path|)|
    ensures Fold(rule, leaves[i], i, path) == Level(rule, leaves, |path|)[Shift(i, |path|)]
    decreases |path|
  {
    hide Parents, Sibling, IsSiblingPath, SiblingsPair;
    if path != [] {
      var parents := Parents(rule, leaves);
      FirstSibling(rule, leaves, i, path);
      SiblingMakesParent(rule, leaves, i);
      SiblingPathAbove(rule, leaves, i, path);
      FoldSiblingPath(rule, parents, i / 2, path[1..]);
      LevelShift(rule, leaves, |path| - 1);
      ShiftShift(i, |path| - 1);
    }
  }

  lemma FirstSibling(rule: Rule, leaves: seq<Bytes>, i: nat, path: seq<Bytes>)
    requires i < |leaves| && path != []
    requires IsSiblingPath(rule, leaves, i, path) && SiblingsPair(rule, leaves, |path|)
    ensures path[0] == Sibling(leaves, i) && (rule.SelfPaired? || |leaves| % 2 == 0)
  {
    assert Level(rule, leaves, 0) == leaves && Shift(i, 0) == i;
  }

  lemma SiblingMakesParent(rule: Rule, nodes: seq<Bytes>, i: nat)
    requires i < |nodes| && (rule.SelfPaired? || |nodes| % 2 == 0)
    ensures Parents(rule, nodes)[i / 2]
            == if i % 2 == 1 then rule.Pair(Sibling(nodes, i), nodes[i]) else rule.Pair(nodes[i], Sibling(nodes, i))
  {
    var k := i / 2;
    if i % 2 == 1 {
      assert i == 2 * k + 1;
      PairAt(rule, nodes, k);
    } else if i + 1 < |nodes| {
      assert i == 2 * k;
      PairAt(rule, nodes, k);
    } else {
      assert i == 2 * k == |nodes| - 1;
      ParentsAt(rule, nodes, k);
    }
  }

  lemma SiblingPathAbove(rule: Rule, leaves: seq<Bytes>, i: nat, path: seq<Bytes>)
    requires i < |leaves| && path != []
    requires IsSiblingPath(rule, leaves, i, path) && SiblingsPair(rule, leaves, |path|)
    ensures IsSiblingPath(rule, Parents(rule, leaves), i / 2, path[1..])
    ensures SiblingsPair(rule, Parents(rule, leaves), |path| - 1)
  {
    var parents := Parents(rule, leaves);
    forall l | 0 <= l < |path| - 1
      ensures Shift(i / 2, l) < |Level(rule, parents, l)|
      ensures path[1..][l] == Sibling(Level(rule, parents, l), Shift(i / 2, l))
      ensures Level(rule, parents, l) == Level(rule, leaves, l + 1)
    {
      LevelShift(rule, leaves, l);
      ShiftShift(i, l);
      assert path[1..][l] == path[l + 1];
    }
  }

  // ----- what is hashed

  /** The byte strings that are hashed into the parents of these nodes. */
  ghost function ParentInputs(nodes: seq<Bytes>): iset<Bytes> {
    if |nodes| == 0 then iset{}
    else if |nodes| == 1 then iset{nodes[0]}
    else iset{nodes[0] + nodes[1]} + ParentInputs(nodes[2..])
  }

  ghost predicate AllHashSized(nodes: seq<Bytes>) {
    forall i :: 0 <= i < |nodes| ==> |nodes[i]| == HASH_SIZE
  }

  lemma {:induction false} ParentsHashSized(hash: Bytes -> Bytes, nodes: seq<Bytes>)
    requires FixedSize(hash)
    ensures AllHashSized(Parents(LoneHashed(hash), nodes))
  {
    if |nodes| > 1 {
      ParentsHashSized(hash, nodes[2..]);
    }
  }

  lemma {:induction false} LevelHashSized(hash: Bytes -> Bytes, leaves: seq<Bytes>, l: nat)
    requires FixedSize(hash) && AllHashSized(leaves)
    ensures AllHashSized(Level(LoneHashed(hash), leaves, l))
  {
    if l > 0 {
      ParentsHashSized(hash, Level(LoneHashed(hash), leaves, l - 1));
    }
  }

  /** What is hashed into the t-th parent. */
  function InputAt(nodes: seq<Bytes>, t: nat): Bytes
    requires t < Half(|nodes|)
  {
    if 2 * t + 1 < |nodes| then nodes[2 * t] + nodes[2 * t + 1] else nodes[2 * t]
  }

  lemma {:induction false} ParentInput(hash: Bytes -> Bytes, nodes: seq<Bytes>, t: nat)
    requires t < Half(|nodes|)
    ensures InputAt(nodes, t) in ParentInputs(nodes) && Parents(LoneHashed(hash), nodes)[t] == hash(InputAt(nodes, t))
  {
    if t > 0 {
      ParentInput(hash, nodes[2..], t - 1);
    }
  }

  /** Without collisions equal parents are made from equal inputs. */
  lemma EqualInputs(hash: Bytes -> Bytes, a: seq<Bytes>, b: seq<Bytes>, s: nat, t: nat)
    requires s < Half(|a|) && t < Half(|b|) && CollisionFree(hash, ParentInputs(a) + ParentInputs(b))
    requires Parents(LoneHashed(hash), a)[s] == Parents(LoneHashed(hash), b)[t]
    ensures InputAt(a, s) == InputAt(b, t)
  {
    ParentInput(hash, a, s);
    ParentInput(hash, b, t);
    assert NoCollision(hash, InputAt(a, s), InputAt(b, t));
  }

  lemma JoinedEqual(a: Bytes, b: Bytes, c: Bytes, d: Bytes)
    requires a + b == c + d && (|a| == |c| || |b| == |d|)
    ensures a == c && b == d
  {
    assert |a| == |c|;
    assert a == (a + b)[..|a|] && c == (c + d)[..|c|];
    assert b == (a + b)[|a|..] && d == (c + d)[|c|..];
  }
}
