/** core/util/validation_tree.go: checking a run of consecutive 64KB blocks against the root of the whole
    file with one set of sibling hashes per level. */
module RangeProofs {
  import opened Levels
  import opened Merkle
  import opened Hashing
  import opened Options
  import opened ValidationTrees

  const LEFT: int := 0
  const RIGHT: int := 1

  /** IndexPanic: a level of Nodes or Index is missing or too short, which the source does not check. */
  datatype Verdict = Accepted | EmptyData | RootMismatch | IndexPanic

  /** The hashes of one level with the supplied siblings put to their left and right. */
  function Extend(hashes: seq<Bytes>, nodes: seq<Bytes>, index: seq<int>): Option<seq<Bytes>> {
    if |index| == 2 then
      if |nodes| >= 2 then Some([nodes[0]] + hashes + [nodes[1]]) else None
    else if |index| == 1 then
      if |nodes| == 0 then None
      else if index[0] == RIGHT then Some(hashes + [nodes[0]])
      else Some([nodes[0]] + hashes)
    else
      Some(hashes)
  }

  function ExtendAt(hashes: seq<Bytes>, nodes: seq<seq<Bytes>>, index: seq<seq<int>>, i: nat): Option<seq<Bytes>> {
    if |nodes| <= i then Some(hashes)
    else if |index| <= i then None
    else Extend(hashes, nodes[i], index[i])
  }

  /** The hashes left after the levels i, i+1, ..., top-1. */
  function Climb(hash: Bytes -> Bytes, hashes: seq<Bytes>, nodes: seq<seq<Bytes>>, index: seq<seq<int>>, i: nat, top: nat)
    : Option<seq<Bytes>>
    requires i <= top
    decreases top - i
  {
    if i == top then Some(hashes)
    else
      match ExtendAt(hashes, nodes, index, i)
      case None => None
      case Some(extended) => Climb(hash, Parents(LoneHashed(hash), extended), nodes, index, i + 1, top)
  }

  function Judge(rootHash: Bytes, top: Option<seq<Bytes>>): Verdict {
    match top
    case None => IndexPanic
    case Some(hashes) =>
      if hashes == [] then EmptyData else if hashes[0] == rootHash then Accepted else RootMismatch
  }

  /** What is left of `data` at the top of a tree over `leaves` leaves. */
  function TopHashes(hash: Bytes -> Bytes, data: Bytes, nodes: seq<seq<Bytes>>, index: seq<seq<int>>, leaves: nat)
    : Option<seq<Bytes>>
    requires leaves >= 1
  {
    Climb(hash, BlockHashes(hash, data), nodes, index, 0, CeilLog2(leaves))
  }

  /** The first loop of VerifyMultipleBlocks: each 64KB of data is hashed, the rest as a last shorter block. */
  method HashBlocks(hash: Bytes -> Bytes, data: Bytes) returns (hashes: seq<Bytes>)
    ensures hashes == BlockHashes(hash, data)
  {
    hashes := [];
    var i := 0;
    while i < |data|
      invariant 0 <= i && i == |hashes| * BLOCK
      invariant |hashes| <= BlockCount(|data|)
      invariant forall k :: 0 <= k < |hashes| ==> hashes[k] == hash(Block(data, k))
    {
      var endIndex := i + BLOCK;
      if endIndex > |data| {
        endIndex := |data|;
      }
      hashes := hashes + [hash(data[i..endIndex])];
      i := i + BLOCK;
    }
  }

  /** Level i has siblings, but no index for them or fewer of them than the index says. */
  ghost predicate TooShort(nodes: seq<seq<Bytes>>, index: seq<seq<int>>, i: nat) {
    && i < |nodes|
    && (|index| <= i || (|index[i]| == 1 && |nodes[i]| == 0) || (|index[i]| == 2 && |nodes[i]| < 2))
  }

  /** Level i adds no sibling. */
  ghost predicate AddsNone(nodes: seq<seq<Bytes>>, index: seq<seq<int>>, i: nat) {
    i >= |nodes| || (i < |index| && (|index[i]| == 0 || |index[i]| > 2))
  }

  ghost predicate AddNone(nodes: seq<seq<Bytes>>, index: seq<seq<int>>, top: nat) {
    forall i {:trigger AddsNone(nodes, index, i)} :: 0 <= i < top ==> AddsNone(nodes, index, i)
  }

  /** Whether a level is too short does not depend on the hashes, and hashes only get lost if there are none. */
  lemma {:induction false} ClimbFails(hash: Bytes -> Bytes, hashes: seq<Bytes>, nodes: seq<seq<Bytes>>,
                                      index: seq<seq<int>>, i: nat, top: nat)
    requires i <= top
    ensures var r := Climb(hash, hashes, nodes, index, i, top);
            && (r.None? <==> exists l :: i <= l < top && TooShort(nodes, index, l))
            && (r == Some([]) <==> r.Some? && hashes == [] && forall l :: i <= l < top ==> AddsNone(nodes, index, l))
    decreases top - i
  {
    if i < top {
      var extended := ExtendAt(hashes, nodes, index, i);
      assert extended.None? <==> TooShort(nodes, index, i);
      if extended.Some? {
        assert extended.value == [] <==> hashes == [] && AddsNone(nodes, index, i);
        ClimbFails(hash, Parents(LoneHashed(hash), extended.value), nodes, index, i + 1, top);
      }
    }
  }

  lemma OutcomeIff(hash: Bytes -> Bytes, data: Bytes, rootHash: Bytes, nodes: seq<seq<Bytes>>, index: seq<seq<int>>, top: nat)
    ensures var r := Judge(rootHash, Climb(hash, BlockHashes(hash, data), nodes, index, 0, top));
            && (r.IndexPanic? <==> exists i :: 0 <= i < top && TooShort(nodes, index, i))
            && (r.EmptyData? <==> !r.IndexPanic? && data == [] && AddNone(nodes, index, top))
  {
    hide Climb;
    ClimbFails(hash, BlockHashes(hash, data), nodes, index, 0, top);
    assert BlockHashes(hash, data) == [] <==> data == [];
  }

  class MerklePathForMultiLeafVerification {
    const hash: Bytes -> Bytes
    const RootHash: Bytes
    const Nodes: seq<seq<Bytes>>
    const Index: seq<seq<int>>
    const DataSize: nat
    var totalLeaves: nat
    var requiredDepth: nat

    /** The two cached counts are unset or right. */
    ghost predicate Valid()
      reads this
    {
      && DataSize > 0
      && (totalLeaves == 0 || totalLeaves == BlockCount(DataSize))
      && (requiredDepth == 0 || requiredDepth == CeilLog2(BlockCount(DataSize)) + 1)
    }

    constructor (hash: Bytes -> Bytes, rootHash: Bytes, nodes: seq<seq<Bytes>>, index: seq<seq<int>>, dataSize: nat)
      requires dataSize > 0
      ensures Valid()
      ensures this.hash == hash && RootHash == rootHash && Nodes == nodes && Index == index && DataSize == dataSize
    {
      this.hash, RootHash, Nodes, Index, DataSize := hash, rootHash, nodes, index, dataSize;
      totalLeaves, requiredDepth := 0, 0;
    }

    method CalculateRequiredLevels()
      requires Valid()
      modifies this
      ensures Valid()
      ensures requiredDepth == CeilLog2(BlockCount(DataSize)) + 1
    {
      if totalLeaves == 0 {
        totalLeaves := BlockCount(DataSize);
      }
      requiredDepth := CeilLog2(totalLeaves) + 1;
    }

    /** The siblings that the proof supplies for level i are put around the hashes; None where indexing panics. */
    method AddSiblings(hashes: seq<Bytes>, i: nat) returns (r: Option<seq<Bytes>>)
      ensures r == ExtendAt(hashes, Nodes, Index, i)
      ensures r.None? <==> TooShort(Nodes, Index, i)
      ensures r.Some? && i < |Nodes| && |Index[i]| == 2 ==> r.value == [Nodes[i][0]] + hashes + [Nodes[i][1]]
      ensures r.Some? && i < |Nodes| && |Index[i]| == 1 ==>
        r.value == if Index[i][0] == 1 then hashes + [Nodes[i][0]] else [Nodes[i][0]] + hashes
      ensures r.Some? && AddsNone(Nodes, Index, i) ==> r.value == hashes
    {
      var extended := hashes;
      if |Nodes| > i {
        if |Index| <= i {
          return None;
        }
        if |Index[i]| == 2 {
          if |Nodes[i]| < 2 {
            return None;
          }
          extended := [Nodes[i][0]] + extended;
          extended := extended + [Nodes[i][1]];
        } else if |Index[i]| == 1 {
          if |Nodes[i]| == 0 {
            return None;
          }
          if Index[i][0] == RIGHT {
            extended := extended + [Nodes[i][0]];
          } else {
            extended := [Nodes[i][0]] + extended;
          }
        }
      }
      return Some(extended);
    }

    /** Hashes the blocks of data, adds the siblings level by level and compares the first hash left. */
    method VerifyMultipleBlocks(data: Bytes) returns (r: Verdict)
      requires Valid()
      modifies this
      ensures Valid()
      ensures r == Judge(RootHash, TopHashes(hash, data, Nodes, Index, BlockCount(DataSize)))
      ensures r.IndexPanic? <==> exists i :: 0 <= i < CeilLog2(BlockCount(DataSize)) && TooShort(Nodes, Index, i)
      ensures r.EmptyData? <==> !r.IndexPanic? && data == [] && AddNone(Nodes, Index, CeilLog2(BlockCount(DataSize)))
    {
      hide TooShort, AddNone, AddsNone, ExtendAt, Extend, Parents, BlockHashes, CeilLog2;
      OutcomeIff(hash, data, RootHash, Nodes, Index, CeilLog2(BlockCount(DataSize)));
      var hashes := HashBlocks(hash, data);
      if requiredDepth == 0 {
        CalculateRequiredLevels();
      }
      ghost var top := requiredDepth - 1;
      var i := 0;
      while i < requiredDepth - 1
        invariant 0 <= i <= top && requiredDepth == top + 1 && Valid()
        invariant Climb(hash, hashes, Nodes, Index, i, top) == TopHashes(hash, data, Nodes, Index, BlockCount(DataSize))
      {
        var extended := AddSiblings(hashes, i);
        if extended.None? {
          return IndexPanic;
        }
        hashes := extended.value;
        hashes := NextLevel(hash, hashes);
        i := i + 1;
      }
      if |hashes| == 0 {
        return EmptyData;
      }
      if RootHash != hashes[0] {
        return RootMismatch;
      }
      return Accepted;
    }
  }

  // ----- completeness

  /** Siblings that the run s..e of a level needs: the left one iff s is odd, the right one iff e is even
      and not the last node. */
  function NeededNodes(level: seq<Bytes>, s: nat, e: nat): seq<Bytes>
    requires s <= e < |level|
  {
    (if s % 2 == 1 then [level[s - 1]] else []) + (if e % 2 == 0 && e + 1 < |level| then [level[e + 1]] else [])
  }

  function NeededIndex(width: nat, s: nat, e: nat): seq<int>
    requires s <= e < width
  {
    (if s % 2 == 1 then [LEFT] else []) + (if e % 2 == 0 && e + 1 < width then [RIGHT] else [])
  }

  lemma ShiftsInRange(n: nat, s: nat, e: nat, l: nat)
    requires s <= e < n
    ensures Shift(s, l) <= Shift(e, l) < Width(n, l)
  {
    ShiftBelowWidth(n, e, l);
    ShiftMonotone(s, e, l);
  }

  lemma {:induction false} ShiftMonotone(s: nat, e: nat, l: nat)
    requires s <= e
    ensures Shift(s, l) <= Shift(e, l)
  {
    if l > 0 {
      ShiftMonotone(s, e, l - 1);
    }
  }

  function NeededNodesAt(hash: Bytes -> Bytes, leaves: seq<Bytes>, s: nat, e: nat, l: nat): seq<Bytes>
    requires s <= e < |leaves|
  {
    ShiftsInRange(|leaves|, s, e, l);
    NeededNodes(Level(LoneHashed(hash), leaves, l), Shift(s, l), Shift(e, l))
  }

  function NeededIndexAt(n: nat, s: nat, e: nat, l: nat): seq<int>
    requires s <= e < n
  {
    ShiftsInRange(n, s, e, l);
    NeededIndex(Width(n, l), Shift(s, l), Shift(e, l))
  }

  /** Nodes and Index as an honest server fills them for the leaves s..e, up to the given level. */
  function HonestNodes(hash: Bytes -> Bytes, leaves: seq<Bytes>, s: nat, e: nat, levels: nat): seq<seq<Bytes>>
    requires s <= e < |leaves|
  {
    seq(levels, l requires 0 <= l < levels => NeededNodesAt(hash, leaves, s, e, l))
  }

  function HonestIndex(n: nat, s: nat, e: nat, levels: nat): seq<seq<int>>
    requires s <= e < n
  {
    seq(levels, l requires 0 <= l < levels => NeededIndexAt(n, s, e, l))
  }

  /** No sibling is needed from the given level up to the root, so these levels may be left out. */
  ghost predicate NoneNeededFrom(n: nat, s: nat, e: nat, levels: nat)
    requires s <= e < n
  {
    forall l :: levels <= l < CeilLog2(n) ==> NeededIndexAt(n, s, e, l) == []
  }

  /** Extending a run with its needed siblings and pairing up gives the run of parents. */
  lemma ExtendRun(hash: Bytes -> Bytes, level: seq<Bytes>, s: nat, e: nat)
    requires s <= e < |level|
    ensures var extended := Extend(level[s..e + 1], NeededNodes(level, s, e), NeededIndex(|level|, s, e));
            extended.Some? &&
            Parents(LoneHashed(hash), extended.value) == Parents(LoneHashed(hash), level)[s / 2..e / 2 + 1]
  {
    hide Extend, NeededNodes, NeededIndex, Parents;
    var rule := LoneHashed(hash);
    var lo := s - s % 2;
    var hi := if e % 2 == 0 && e + 1 < |level| then e + 2 else e + 1;
    ExtendToPairs(level, s, e);
    ParentsOfRun(rule, level, lo, hi);
    assert Half(hi) == e / 2 + 1;
  }

  /** With its needed siblings a run starts at an even node and ends at a pair's end or at the level's end. */
  lemma ExtendToPairs(level: seq<Bytes>, s: nat, e: nat)
    requires s <= e < |level|
    ensures var hi := if e % 2 == 0 && e + 1 < |level| then e + 2 else e + 1;
            Extend(level[s..e + 1], NeededNodes(level, s, e), NeededIndex(|level|, s, e)) == Some(level[s - s % 2..hi])
  {
    var run := level[s..e + 1];
    if s % 2 == 1 {
      assert [level[s - 1]] + run == level[s - 1..e + 1];
    }
    if e % 2 == 0 && e + 1 < |level| {
      assert level[s - s % 2..e + 1] + [level[e + 1]] == level[s - s % 2..e + 2];
    }
  }

  lemma ExtendAtHonest(hash: Bytes -> Bytes, leaves: seq<Bytes>, s: nat, e: nat, levels: nat, l: nat, hashes: seq<Bytes>)
    requires s <= e < |leaves| && l < CeilLog2(|leaves|)
    requires NoneNeededFrom(|leaves|, s, e, levels)
    ensures ExtendAt(hashes, HonestNodes(hash, leaves, s, e, levels), HonestIndex(|leaves|, s, e, levels), l)
            == Extend(hashes, NeededNodesAt(hash, leaves, s, e, l), NeededIndexAt(|leaves|, s, e, l))
  {
    if l >= levels {
      assert NeededIndexAt(|leaves|, s, e, l) == [];
    }
  }

  /** What the verifier holds at level l of an honest proof. */
  function RunAt(hash: Bytes -> Bytes, leaves: seq<Bytes>, s: nat, e: nat, l: nat): seq<Bytes>
    requires s <= e < |leaves|
  {
    ShiftsInRange(|leaves|, s, e, l);
    Level(LoneHashed(hash), leaves, l)[Shift(s, l)..Shift(e, l) + 1]
  }

  lemma ClimbOne(hash: Bytes -> Bytes, leaves: seq<Bytes>, s: nat, e: nat, l: nat)
    requires s <= e < |leaves|
    ensures var extended := Extend(RunAt(hash, leaves, s, e, l), NeededNodesAt(hash, leaves, s, e, l),
                                   NeededIndexAt(|leaves|, s, e, l));
            extended.Some? && Parents(LoneHashed(hash), extended.value) == RunAt(hash, leaves, s, e, l + 1)
  {
    ShiftsInRange(|leaves|, s, e, l);
    ShiftsInRange(|leaves|, s, e, l + 1);
    var level, lo, hi := Level(LoneHashed(hash), leaves, l), Shift(s, l), Shift(e, l);
    ExtendRun(hash, level, lo, hi);
    assert RunAt(hash, leaves, s, e, l) == level[lo..hi + 1];
    assert NeededNodesAt(hash, leaves, s, e, l) == NeededNodes(level, lo, hi);
    assert NeededIndexAt(|leaves|, s, e, l) == NeededIndex(|level|, lo, hi);
    assert RunAt(hash, leaves, s, e, l + 1) == Parents(LoneHashed(hash), level)[lo / 2..hi / 2 + 1];
  }

  lemma RunAtTop(hash: Bytes -> Bytes, leaves: seq<Bytes>, s: nat, e: nat)
    requires s <= e < |leaves|
    ensures RunAt(hash, leaves, s, e, CeilLog2(|leaves|)) == [Root(LoneHashed(hash), leaves)]
  {
    RoundsReachOne(|leaves|);
    ShiftsInRange(|leaves|, s, e, CeilLog2(|leaves|));
  }

  /** `run` is extended with the siblings of level l and paired up into `next`. */
  ghost predicate ClimbsTo(hash: Bytes -> Bytes, run: seq<Bytes>, nodes: seq<seq<Bytes>>, index: seq<seq<int>>, l: nat,
                           next: seq<Bytes>)
  {
    var extended := ExtendAt(run, nodes, index, l);
    extended.Some? && Parents(LoneHashed(hash), extended.value) == next
  }

  ghost predicate IsClimb(hash: Bytes -> Bytes, runs: seq<seq<Bytes>>, nodes: seq<seq<Bytes>>, index: seq<seq<int>>) {
    forall l :: 0 <= l < |runs| - 1 ==> ClimbsTo(hash, runs[l], nodes, index, l, runs[l + 1])
  }

  lemma {:induction false} ClimbAlong(hash: Bytes -> Bytes, runs: seq<seq<Bytes>>, nodes: seq<seq<Bytes>>,
                                      index: seq<seq<int>>, l: nat)
    requires l < |runs|
    requires IsClimb(hash, runs, nodes, index)
    ensures Climb(hash, runs[l], nodes, index, l, |runs| - 1) == Some(runs[|runs| - 1])
    decreases |runs| - l
  {
    if l < |runs| - 1 {
      ClimbAlong(hash, runs, nodes, index, l + 1);
    }
  }

  function HonestRuns(hash: Bytes -> Bytes, leaves: seq<Bytes>, s: nat, e: nat): (runs: seq<seq<Bytes>>)
    requires s <= e < |leaves|
    ensures |runs| == CeilLog2(|leaves|) + 1
    ensures forall l :: 0 <= l < |runs| ==> runs[l] == RunAt(hash, leaves, s, e, l)
  {
    seq(CeilLog2(|leaves|) + 1, l requires 0 <= l => RunAt(hash, leaves, s, e, l))
  }

  lemma HonestRunsClimb(hash: Bytes -> Bytes, leaves: seq<Bytes>, s: nat, e: nat, levels: nat)
    requires s <= e < |leaves|
    requires NoneNeededFrom(|leaves|, s, e, levels)
    ensures IsClimb(hash, HonestRuns(hash, leaves, s, e), HonestNodes(hash, leaves, s, e, levels),
                    HonestIndex(|leaves|, s, e, levels))
  {
    var runs := HonestRuns(hash, leaves, s, e);
    forall l | 0 <= l < |runs| - 1
      ensures ClimbsTo(hash, runs[l], HonestNodes(hash, leaves, s, e, levels), HonestIndex(|leaves|, s, e, levels), l,
                       runs[l + 1])
    {
      ExtendAtHonest(hash, leaves, s, e, levels, l, RunAt(hash, leaves, s, e, l));
      ClimbOne(hash, leaves, s, e, l);
    }
  }

  lemma ClimbHonest(hash: Bytes -> Bytes, leaves: seq<Bytes>, s: nat, e: nat, levels: nat)
    requires s <= e < |leaves|
    requires NoneNeededFrom(|leaves|, s, e, levels)
    ensures Climb(hash, leaves[s..e + 1], HonestNodes(hash, leaves, s, e, levels), HonestIndex(|leaves|, s, e, levels),
                  0, CeilLog2(|leaves|))
            == Some([Root(LoneHashed(hash), leaves)])
  {
    var runs := HonestRuns(hash, leaves, s, e);
    HonestRunsClimb(hash, leaves, s, e, levels);
    ClimbAlong(hash, runs, HonestNodes(hash, leaves, s, e, levels), HonestIndex(|leaves|, s, e, levels), 0);
    HonestRunsEnds(hash, leaves, s, e);
  }

  lemma HonestRunsEnds(hash: Bytes -> Bytes, leaves: seq<Bytes>, s: nat, e: nat)
    requires s <= e < |leaves|
    ensures HonestRuns(hash, leaves, s, e)[0] == leaves[s..e + 1]
    ensures HonestRuns(hash, leaves, s, e)[CeilLog2(|leaves|)] == [Root(LoneHashed(hash), leaves)]
  {
    RunAtTop(hash, leaves, s, e);
  }

  /** The bytes of the blocks s..e of a file. */
  function BlockRun(data: Bytes, s: nat, e: nat): Bytes
    requires s <= e < BlockCount(|data|)
  {
    data[s * BLOCK..BlockEnd(data, e)]
  }

  lemma SliceOfSlice(data: Bytes, a: nat, b: nat, c: nat, d: nat)
    requires a <= b <= |data| && c <= d <= b - a
    ensures data[a..b][c..d] == data[a + c..a + d]
  {
    forall i | 0 <= i < d - c
      ensures data[a..b][c..d][i] == data[a + c + i]
    {
      assert data[a..b][c..d][i] == data[a..b][c + i];
    }
  }

  lemma BlockOfRun(data: Bytes, s: nat, e: nat, k: nat)
    requires s <= e < BlockCount(|data|) && k <= e - s
    ensures k < BlockCount(|BlockRun(data, s, e)|)
    ensures Block(BlockRun(data, s, e), k) == Block(data, s + k)
  {
    assert e * BLOCK < BlockEnd(data, e);
    assert BlockEnd(BlockRun(data, s, e), k) == BlockEnd(data, s + k) - s * BLOCK;
    SliceOfSlice(data, s * BLOCK, BlockEnd(data, e), k * BLOCK, BlockEnd(data, s + k) - s * BLOCK);
  }

  lemma BlockHashesOfRun(hash: Bytes -> Bytes, data: Bytes, s: nat, e: nat)
    requires s <= e < BlockCount(|data|)
    ensures BlockHashes(hash, BlockRun(data, s, e)) == BlockHashes(hash, data)[s..e + 1]
  {
    var run := BlockRun(data, s, e);
    assert BlockCount(|run|) == e + 1 - s;
    forall k | 0 <= k < e + 1 - s
      ensures Block(run, k) == Block(data, s + k)
    {
      BlockOfRun(data, s, e, k);
    }
  }

  /** Every range of every file is accepted with the honest siblings; levels that need none may be left out
      from any point on where no level above needs any. */
  lemma RangeProofComplete(hash: Bytes -> Bytes, file: Bytes, s: nat, e: nat, levels: nat)
    requires s <= e < BlockCount(|file|)
    requires NoneNeededFrom(BlockCount(|file|), s, e, levels)
    ensures Judge(ValidationRoot(hash, file),
                  TopHashes(hash, BlockRun(file, s, e), HonestNodes(hash, BlockHashes(hash, file), s, e, levels),
                            HonestIndex(BlockCount(|file|), s, e, levels), BlockCount(|file|)))
            == Accepted
  {
    var leaves := BlockHashes(hash, file);
    BlockHashesOfRun(hash, file, s, e);
    ClimbHonest(hash, leaves, s, e, levels);
  }

  /** A request for the whole file needs no siblings at all. */
  lemma WholeFileNeedsNone(n: nat)
    requires n >= 1
    ensures NoneNeededFrom(n, 0, n - 1, 0)
  {
    forall l | 0 <= l < CeilLog2(n)
      ensures Shift(0, l) == 0 && Shift(n - 1, l) == Width(n, l) - 1
    {
      EndsOfLevel(n, l);
    }
  }

  lemma {:induction false} EndsOfLevel(n: nat, l: nat)
    requires n >= 1
    ensures Shift(0, l) == 0 && Shift(n - 1, l) == Width(n, l) - 1
  {
    if l > 0 {
      EndsOfLevel(n, l - 1);
      WidthPositive(n, l - 1);
    }
  }

  // ----- soundness

  ghost function BlockInputs(data: Bytes): iset<Bytes> {
    iset k | 0 <= k < BlockCount(|data|) :: Block(data, k)
  }

  /** Everything hashed below level `top` of the tree over these leaves. */
  ghost function LevelInputs(hash: Bytes -> Bytes, leaves: seq<Bytes>, top: nat): iset<Bytes> {
    if top == 0 then iset{}
    else LevelInputs(hash, leaves, top - 1) + ParentInputs(Level(LoneHashed(hash), leaves, top - 1))
  }

  /** Everything hashed while the verifier climbs from level i to the top. */
  ghost function ClimbInputs(hash: Bytes -> Bytes, hashes: seq<Bytes>, nodes: seq<seq<Bytes>>, index: seq<seq<int>>,
                             i: nat, top: nat): iset<Bytes>
    requires i <= top
    decreases top - i
  {
    if i == top then iset{}
    else
      match ExtendAt(hashes, nodes, index, i)
      case None => iset{}
      case Some(extended) =>
        ParentInputs(extended) + ClimbInputs(hash, Parents(LoneHashed(hash), extended), nodes, index, i + 1, top)
  }

  /** Everything hashed to build the file's tree or to check the proof. */
  ghost function AllInputs(hash: Bytes -> Bytes, file: Bytes, data: Bytes, nodes: seq<seq<Bytes>>, index: seq<seq<int>>)
    : iset<Bytes>
    requires |file| > 0
  {
    var top := CeilLog2(BlockCount(|file|));
    BlockInputs(file) + LevelInputs(hash, BlockHashes(hash, file), top)
    + BlockInputs(data) + ClimbInputs(hash, BlockHashes(hash, data), nodes, index, 0, top)
  }

  lemma {:induction false} LevelInputsAt(hash: Bytes -> Bytes, leaves: seq<Bytes>, l: nat, top: nat)
    requires l < top
    ensures ParentInputs(Level(LoneHashed(hash), leaves, l)) <= LevelInputs(hash, leaves, top)
    decreases top
  {
    if l < top - 1 {
      LevelInputsAt(hash, leaves, l, top - 1);
    }
  }

  /** The hashes stand in the extended list after at most one sibling and before at most one. */
  lemma ExtendKeeps(hashes: seq<Bytes>, nodes: seq<seq<Bytes>>, index: seq<seq<int>>, i: nat) returns (d: nat)
    requires ExtendAt(hashes, nodes, index, i).Some?
    ensures d == LeftAdded(|nodes|, index, i) <= 1
    ensures var extended := ExtendAt(hashes, nodes, index, i).value;
            d + |hashes| <= |extended| <= d + |hashes| + 1 && forall j :: 0 <= j < |hashes| ==> extended[d + j] == hashes[j]
  {
    d := LeftAdded(|nodes|, index, i);
  }

  /** `run` occurs in `level` from position p on. */
  ghost predicate IsRunAt(run: seq<Bytes>, level: seq<Bytes>, p: nat) {
    p + |run| <= |level| && run == level[p..p + |run|]
  }

  /** How many siblings a proof of this shape puts to the left of level i. */
  function LeftAdded(nodeLevels: nat, index: seq<seq<int>>, i: nat): nat {
    if nodeLevels <= i || |index| <= i then 0
    else if |index[i]| == 2 || (|index[i]| == 1 && index[i][0] != RIGHT) then 1
    else 0
  }

  /** How many of the hashes at the top have something of the first `count` hashes of level i below them. It depends
      on the shape of the proof alone. */
  function Reach(count: nat, nodeLevels: nat, index: seq<seq<int>>, i: nat, top: nat): nat
    requires i <= top
    decreases top - i
  {
    if i == top then count else Reach(Half(count + LeftAdded(nodeLevels, index, i)), nodeLevels, index, i + 1, top)
  }

  /** Where the first hash of a run stands when its parents stand from position q on: after the left sibling, if there
      is one, unless the parent is that of a lone last node, beside which only an empty sibling fits. */
  function StartBelow(width: nat, q: nat, d: nat): nat {
    if d == 1 && 2 * q + 1 == width then 2 * q else 2 * q + d
  }

  /** Where a run of level l starts that leads to the root: the shape of the proof and the widths of the levels fix it. */
  function StartAt(n: nat, nodeLevels: nat, index: seq<seq<int>>, l: nat, top: nat): nat
    requires l <= top
    decreases top - l
  {
    if l == top then 0
    else StartBelow(Width(n, l), StartAt(n, nodeLevels, index, l + 1, top), LeftAdded(nodeLevels, index, l))
  }

  ghost predicate StandsAt(node: Bytes, level: seq<Bytes>, at: int) {
    0 <= at < |level| && level[at] == node
  }

  /** Each hash below a parent that is the tree's own is the tree's own as well, whatever was supplied beside it: its
      32 bytes leave room for one more hash in a pair, or for nothing beside a lone node. */
  lemma OwnNode(hash: Bytes -> Bytes, extended: seq<Bytes>, level: seq<Bytes>, d: nat, m: nat, q: nat, i: nat)
    requires AllHashSized(level) && CollisionFree(hash, ParentInputs(extended) + ParentInputs(level))
    requires d <= 1 && d <= i < d + m <= |extended| <= d + m + 1
    requires forall j :: d <= j < d + m ==> |extended[j]| == HASH_SIZE
    requires q + i / 2 < Half(|level|)
    requires Parents(LoneHashed(hash), extended)[i / 2] == Parents(LoneHashed(hash), level)[q + i / 2]
    ensures StandsAt(extended[i], level, StartBelow(|level|, q, d) + i - d)
  {
    hide Parents, ParentInputs;
    var t := i / 2;
    EqualInputs(hash, extended, level, t, q + t);
    OwnInput(extended, level, d, m, q, i);
  }

  lemma OwnInput(extended: seq<Bytes>, level: seq<Bytes>, d: nat, m: nat, q: nat, i: nat)
    requires AllHashSized(level)
    requires d <= 1 && d <= i < d + m <= |extended| <= d + m + 1
    requires forall j :: d <= j < d + m ==> |extended[j]| == HASH_SIZE
    requires q + i / 2 < Half(|level|) && InputAt(extended, i / 2) == InputAt(level, q + i / 2)
    ensures StandsAt(extended[i], level, StartBelow(|level|, q, d) + i - d)
  {
    var t := i / 2;
    var x, y := 2 * t, 2 * (q + t);
    assert (i == x || i == x + 1) && |extended[i]| == HASH_SIZE && |level[y]| == HASH_SIZE;
    assert InputAt(extended, t) == if x + 1 < |extended| then extended[x] + extended[x + 1] else extended[x];
    assert InputAt(level, q + t) == if y + 1 < |level| then level[y] + level[y + 1] else level[y];
    if y + 1 < |level| {
      assert |level[y + 1]| == HASH_SIZE;
      if x + 1 < |extended| {
        JoinedEqual(extended[x], extended[x + 1], level[y], level[y + 1]);
      }
    } else if x + 1 < |extended| {
      if i == x {
        assert extended[x + 1] == [] && extended[x] + extended[x + 1] == extended[x];
      } else {
        assert extended[x] == [] && extended[x] + extended[x + 1] == extended[x + 1];
      }
    }
  }

  /** If the parents of the first hashes are a run of the next level, these hashes are a run of this one. */
  lemma StepDown(hash: Bytes -> Bytes, level: seq<Bytes>, hashes: seq<Bytes>, nodes: seq<seq<Bytes>>, index: seq<seq<int>>,
                 l: nat, count: nat, up: nat, q: nat) returns (p: nat)
    requires AllHashSized(level) && AllHashSized(hashes) && 0 < count <= |hashes|
    requires ExtendAt(hashes, nodes, index, l).Some?
    requires CollisionFree(hash, ParentInputs(ExtendAt(hashes, nodes, index, l).value) + ParentInputs(level))
    requires up == Half(count + LeftAdded(|nodes|, index, l))
    requires up <= |Parents(LoneHashed(hash), ExtendAt(hashes, nodes, index, l).value)|
    requires IsRunAt(Parents(LoneHashed(hash), ExtendAt(hashes, nodes, index, l).value)[..up],
                     Parents(LoneHashed(hash), level), q)
    ensures IsRunAt(hashes[..count], level, p) && p == StartBelow(|level|, q, LeftAdded(|nodes|, index, l))
  {
    hide Parents, ParentInputs, ExtendAt, LeftAdded, StartBelow, CollisionFree;
    var d := ExtendKeeps(hashes, nodes, index, l);
    var extended := ExtendAt(hashes, nodes, index, l).value;
    var parents, above := Parents(LoneHashed(hash), extended), Parents(LoneHashed(hash), level);
    p := StartBelow(|level|, q, d);
    forall j | d <= j < d + |hashes|
      ensures |extended[j]| == HASH_SIZE
    {
      assert extended[d + (j - d)] == hashes[j - d];
    }
    forall j | 0 <= j < count
      ensures StandsAt(hashes[j], level, p + j)
    {
      var t := (d + j) / 2;
      assert t < up && parents[t] == parents[..up][t] == above[q..q + up][t] == above[q + t];
      OwnNode(hash, extended, level, d, |hashes|, q, d + j);
    }
    assert StandsAt(hashes[count - 1], level, p + (count - 1));
  }

  /** If only the first hash at the top has something of these hashes below it, and it is the root, then they are a
      run of the tree's level l. */
  lemma {:induction false} ClimbedRun(hash: Bytes -> Bytes, leaves: seq<Bytes>, hashes: seq<Bytes>, nodes: seq<seq<Bytes>>,
                                      index: seq<seq<int>>, l: nat, top: nat, count: nat) returns (p: nat)
    requires |leaves| >= 1 && l <= top == CeilLog2(|leaves|)
    requires FixedSize(hash) && AllHashSized(leaves) && AllHashSized(hashes)
    requires CollisionFree(hash, LevelInputs(hash, leaves, top) + ClimbInputs(hash, hashes, nodes, index, l, top))
    requires 0 < count <= |hashes| && Reach(count, |nodes|, index, l, top) == 1
    requires FirstIs(Climb(hash, hashes, nodes, index, l, top), Root(LoneHashed(hash), leaves))
    ensures IsRunAt(hashes[..count], Level(LoneHashed(hash), leaves, l), p)
    ensures p == StartAt(|leaves|, |nodes|, index, l, top)
    decreases top - l
  {
    hide Parents, CollisionFree, LevelInputs, ClimbInputs, ParentInputs, Root, Climb, Level, ExtendAt, LeftAdded,
         IsRunAt, AllHashSized, FixedSize, CeilLog2, StartBelow;
    if l == top {
      p := RootRun(hash, leaves, hashes, nodes, index, count);
    } else {
      var next := ClimbedOneLevel(hash, leaves, hashes, nodes, index, l, top);
      var up := Half(count + LeftAdded(|nodes|, index, l));
      NextReached(hash, hashes, nodes, index, l, count, next);
      LevelStep(hash, leaves, l);
      var q := ClimbedRun(hash, leaves, next, nodes, index, l + 1, top, up);
      p := StepDown(hash, Level(LoneHashed(hash), leaves, l), hashes, nodes, index, l, count, up, q);
    }
  }

  lemma RootRun(hash: Bytes -> Bytes, leaves: seq<Bytes>, hashes: seq<Bytes>, nodes: seq<seq<Bytes>>,
                index: seq<seq<int>>, count: nat) returns (p: nat)
    requires |leaves| >= 1 && count <= |hashes|
    requires Reach(count, |nodes|, index, CeilLog2(|leaves|), CeilLog2(|leaves|)) == 1
    requires FirstIs(Climb(hash, hashes, nodes, index, CeilLog2(|leaves|), CeilLog2(|leaves|)), Root(LoneHashed(hash), leaves))
    ensures p == 0 && IsRunAt(hashes[..count], Level(LoneHashed(hash), leaves, CeilLog2(|leaves|)), p)
  {
    RoundsReachOne(|leaves|);
    p := 0;
  }

  ghost predicate FirstIs(hashes: Option<seq<Bytes>>, root: Bytes) {
    hashes.Some? && hashes.value != [] && hashes.value[0] == root
  }

  lemma LevelStep(hash: Bytes -> Bytes, leaves: seq<Bytes>, l: nat)
    ensures Level(LoneHashed(hash), leaves, l + 1) == Parents(LoneHashed(hash), Level(LoneHashed(hash), leaves, l))
  {
  }

  lemma NextReached(hash: Bytes -> Bytes, hashes: seq<Bytes>, nodes: seq<seq<Bytes>>, index: seq<seq<int>>, l: nat,
                    count: nat, next: seq<Bytes>)
    requires AllHashSized(hashes) && 0 < count <= |hashes| && ExtendAt(hashes, nodes, index, l).Some?
    requires next == Parents(LoneHashed(hash), ExtendAt(hashes, nodes, index, l).value)
    ensures 0 < Half(count + LeftAdded(|nodes|, index, l)) <= |next|
  {
    hide Parents;
    var d := ExtendKeeps(hashes, nodes, index, l);
  }

  /** One level of the climb: what is hashed there and what is left for the levels above. */
  lemma ClimbedOneLevel(hash: Bytes -> Bytes, leaves: seq<Bytes>, hashes: seq<Bytes>, nodes: seq<seq<Bytes>>,
                        index: seq<seq<int>>, l: nat, top: nat) returns (next: seq<Bytes>)
    requires l < top && FixedSize(hash) && AllHashSized(leaves)
    requires CollisionFree(hash, LevelInputs(hash, leaves, top) + ClimbInputs(hash, hashes, nodes, index, l, top))
    requires Climb(hash, hashes, nodes, index, l, top).Some?
    ensures ExtendAt(hashes, nodes, index, l).Some?
    ensures next == Parents(LoneHashed(hash), ExtendAt(hashes, nodes, index, l).value) && AllHashSized(next)
    ensures Climb(hash, hashes, nodes, index, l, top) == Climb(hash, next, nodes, index, l + 1, top)
    ensures CollisionFree(hash, LevelInputs(hash, leaves, top) + ClimbInputs(hash, next, nodes, index, l + 1, top))
    ensures AllHashSized(Level(LoneHashed(hash), leaves, l))
    ensures CollisionFree(hash, ParentInputs(ExtendAt(hashes, nodes, index, l).value)
                                + ParentInputs(Level(LoneHashed(hash), leaves, l)))
  {
    var extended := ExtendAt(hashes, nodes, index, l).value;
    next := Parents(LoneHashed(hash), extended);
    var known := LevelInputs(hash, leaves, top) + ClimbInputs(hash, hashes, nodes, index, l, top);
    ParentsHashSized(hash, extended);
    LevelHashSized(hash, leaves, l);
    LevelInputsAt(hash, leaves, l, top);
    FewerInputs(hash, known, LevelInputs(hash, leaves, top) + ClimbInputs(hash, next, nodes, index, l + 1, top));
    FewerInputs(hash, known, ParentInputs(extended) + ParentInputs(Level(LoneHashed(hash), leaves, l)));
  }

  /** A run of m blocks that starts at block p; empty when m is 0. */
  function Run(file: Bytes, p: nat, m: nat): Bytes
    requires p + m <= BlockCount(|file|)
  {
    if m == 0 then [] else BlockRun(file, p, p + m - 1)
  }

  lemma EqualBlocks(data: Bytes, file: Bytes, p: nat)
    requires p + BlockCount(|data|) <= BlockCount(|file|)
    requires forall k :: 0 <= k < BlockCount(|data|) ==> Block(data, k) == Block(file, p + k)
    ensures data == Run(file, p, BlockCount(|data|))
  {
    var m := BlockCount(|data|);
    if m > 0 {
      var run := Run(file, p, m);
      assert |Block(data, m - 1)| == |Block(file, p + m - 1)|;
      assert |data| == |run|;
      forall x | 0 <= x < |data|
        ensures data[x] == run[x]
      {
        var k, o := x / BLOCK, x % BLOCK;
        assert data[x] == Block(data, k)[o] == Block(file, p + k)[o] == file[(p + k) * BLOCK + o];
      }
    }
  }

  lemma EqualBlockHashes(hash: Bytes -> Bytes, data: Bytes, file: Bytes, p: nat)
    requires CollisionFree(hash, BlockInputs(file) + BlockInputs(data))
    requires p + BlockCount(|data|) <= BlockCount(|file|)
    requires BlockHashes(hash, data) == BlockHashes(hash, file)[p..p + BlockCount(|data|)]
    ensures data == Run(file, p, BlockCount(|data|))
  {
    forall k | 0 <= k < BlockCount(|data|)
      ensures Block(data, k) == Block(file, p + k)
    {
      assert BlockHashes(hash, data)[k] == BlockHashes(hash, file)[p + k];
      assert Block(data, k) in BlockInputs(data) && Block(file, p + k) in BlockInputs(file);
      assert NoCollision(hash, Block(data, k), Block(file, p + k));
    }
    EqualBlocks(data, file, p);
  }

  /** When only the first of the hashes at the top has blocks of the data below it, acceptance means that the data is
      a run of the file's own blocks. */
  lemma RangeProofSound(hash: Bytes -> Bytes, file: Bytes, data: Bytes, nodes: seq<seq<Bytes>>, index: seq<seq<int>>)
      returns (p: nat)
    requires |file| > 0 && FixedSize(hash)
    requires CollisionFree(hash, AllInputs(hash, file, data, nodes, index))
    requires Reach(BlockCount(|data|), |nodes|, index, 0, CeilLog2(BlockCount(|file|))) <= 1
    requires Judge(ValidationRoot(hash, file), TopHashes(hash, data, nodes, index, BlockCount(|file|))) == Accepted
    ensures p + BlockCount(|data|) <= BlockCount(|file|)
    ensures data == Run(file, p, BlockCount(|data|))
    ensures data != [] ==> p == StartAt(BlockCount(|file|), |nodes|, index, 0, CeilLog2(BlockCount(|file|)))
  {
    var leaves, hashes := BlockHashes(hash, file), BlockHashes(hash, data);
    var top := CeilLog2(|leaves|);
    var known := AllInputs(hash, file, data, nodes, index);
    if data == [] {
      p := 0;
    } else {
      ReachPositive(|hashes|, |nodes|, index, 0, top);
      FewerInputs(hash, known, LevelInputs(hash, leaves, top) + ClimbInputs(hash, hashes, nodes, index, 0, top));
      FewerInputs(hash, known, BlockInputs(file) + BlockInputs(data));
      p := ClimbedRun(hash, leaves, hashes, nodes, index, 0, top, |hashes|);
      assert hashes[..|hashes|] == hashes;
      EqualBlockHashes(hash, data, file, p);
    }
  }

  // ----- proofs of the honest shape

  lemma HonestLeftAdded(n: nat, s: nat, e: nat, levels: nat, l: nat)
    requires s <= e < n && l < CeilLog2(n) && NoneNeededFrom(n, s, e, levels)
    ensures LeftAdded(levels, HonestIndex(n, s, e, levels), l) == Shift(s, l) % 2
  {
    ShiftsInRange(n, s, e, l);
    assert l >= levels ==> NeededIndexAt(n, s, e, l) == [];
  }

  /** With the index of the range s..e a run starts at s ... */
  lemma {:induction false} HonestStart(n: nat, s: nat, e: nat, levels: nat, l: nat)
    requires s <= e < n && l <= CeilLog2(n) && NoneNeededFrom(n, s, e, levels)
    ensures StartAt(n, levels, HonestIndex(n, s, e, levels), l, CeilLog2(n)) == Shift(s, l)
    decreases CeilLog2(n) - l
  {
    ShiftsInRange(n, s, e, l);
    if l == CeilLog2(n) {
      RoundsReachOne(n);
    } else {
      HonestStart(n, s, e, levels, l + 1);
      HonestLeftAdded(n, s, e, levels, l);
    }
  }

  /** ... and e-s+1 hashes or fewer reach only the first hash at the top. */
  lemma {:induction false} HonestReach(n: nat, s: nat, e: nat, levels: nat, l: nat, count: nat)
    requires s <= e < n && l <= CeilLog2(n) && NoneNeededFrom(n, s, e, levels)
    requires count <= Shift(e, l) - Shift(s, l) + 1
    ensures Reach(count, levels, HonestIndex(n, s, e, levels), l, CeilLog2(n)) <= 1
    decreases CeilLog2(n) - l
  {
    ShiftsInRange(n, s, e, l);
    if l == CeilLog2(n) {
      RoundsReachOne(n);
    } else {
      HonestLeftAdded(n, s, e, levels, l);
      HonestReach(n, s, e, levels, l + 1, Half(count + Shift(s, l) % 2));
    }
  }

  /** With the index of the range s..e no more than that many accepted blocks are the file's own from block s on; as
      many of them are exactly the blocks s..e. */
  lemma HonestShapeSound(hash: Bytes -> Bytes, file: Bytes, s: nat, e: nat, levels: nat, data: Bytes, nodes: seq<seq<Bytes>>)
    requires s <= e < BlockCount(|file|) && NoneNeededFrom(BlockCount(|file|), s, e, levels) && FixedSize(hash)
    requires |nodes| == levels && BlockCount(|data|) <= e - s + 1
    requires CollisionFree(hash, AllInputs(hash, file, data, nodes, HonestIndex(BlockCount(|file|), s, e, levels)))
    requires Judge(ValidationRoot(hash, file), TopHashes(hash, data, nodes, HonestIndex(BlockCount(|file|), s, e, levels),
                                                         BlockCount(|file|))) == Accepted
    ensures data == Run(file, s, BlockCount(|data|))
    ensures BlockCount(|data|) == e - s + 1 ==> data == BlockRun(file, s, e)
  {
    var n := BlockCount(|file|);
    var index := HonestIndex(n, s, e, levels);
    hide CollisionFree, AllInputs, Judge, TopHashes, ValidationRoot, FixedSize, HonestIndex, NoneNeededFrom, Run, BlockRun;
    HonestReach(n, s, e, levels, 0, BlockCount(|data|));
    HonestStart(n, s, e, levels, 0);
    var p := RangeProofSound(hash, file, data, nodes, index);
    RunOfRange(file, data, s, e, p);
  }

  lemma RunOfRange(file: Bytes, data: Bytes, s: nat, e: nat, p: nat)
    requires s <= e < BlockCount(|file|) && BlockCount(|data|) <= e - s + 1
    requires p + BlockCount(|data|) <= BlockCount(|file|) && data == Run(file, p, BlockCount(|data|)) && (data != [] ==> p == s)
    ensures data == Run(file, s, BlockCount(|data|))
    ensures BlockCount(|data|) == e - s + 1 ==> data == BlockRun(file, s, e)
  {
  }

  /** They can be fewer, as no length is compared: two sibling hashes in place of one stand for a pair of nodes. Here the
      index asks for the blocks 0..2 of four, and the first two are accepted. */
  lemma FewerBlocksAccepted(hash: Bytes -> Bytes, file: Bytes)
    requires BlockCount(|file|) == 4
    ensures var leaves := BlockHashes(hash, file);
            Judge(ValidationRoot(hash, file),
                  TopHashes(hash, BlockRun(file, 0, 1), [[leaves[2] + leaves[3]]], HonestIndex(4, 0, 2, 1), 4)) == Accepted
  {
    hide Climb, HonestIndex, Parents, Root, BlockHashes, BlockRun, Level;
    var leaves := BlockHashes(hash, file);
    BlockHashesOfRun(hash, file, 0, 1);
    assert leaves[0..2] == [leaves[0], leaves[1]];
    IndexOfThree();
    FourLeaves(hash, leaves);
    ClimbTwo(hash, leaves[0], leaves[1], leaves[2] + leaves[3]);
  }

  lemma IndexOfThree()
    ensures HonestIndex(4, 0, 2, 1) == [[RIGHT]]
  {
    assert NeededIndexAt(4, 0, 2, 0) == [RIGHT];
  }

  lemma ClimbTwo(hash: Bytes -> Bytes, a: Bytes, b: Bytes, c: Bytes)
    ensures Climb(hash, [a, b], [[c]], [[RIGHT]], 0, 2) == Some([hash(hash(a + b) + hash(c))])
  {
    hide Parents;
    PairAndLone(hash, a, b, c);
    PairAlone(hash, hash(a + b), hash(c));
    assert [a, b] + [c] == [a, b, c];
    var nodes, index := [[c]], [[RIGHT]];
    assert nodes[0] == [c] && index[0] == [RIGHT];
    assert ExtendAt([a, b], nodes, index, 0) == Extend([a, b], [c], [RIGHT]) == Some([a, b, c]);
    assert ExtendAt([hash(a + b), hash(c)], [[c]], [[RIGHT]], 1) == Some([hash(a + b), hash(c)]);
    assert Climb(hash, [hash(hash(a + b) + hash(c))], [[c]], [[RIGHT]], 2, 2) == Some([hash(hash(a + b) + hash(c))]);
    assert Climb(hash, [hash(a + b), hash(c)], [[c]], [[RIGHT]], 1, 2) == Some([hash(hash(a + b) + hash(c))]);
  }

  lemma PairAlone(hash: Bytes -> Bytes, a: Bytes, b: Bytes)
    ensures Parents(LoneHashed(hash), [a, b]) == [hash(a + b)]
  {
    assert [a, b][2..] == [];
  }

  lemma PairAndLone(hash: Bytes -> Bytes, a: Bytes, b: Bytes, c: Bytes)
    ensures Parents(LoneHashed(hash), [a, b, c]) == [hash(a + b), hash(c)]
  {
    assert [a, b, c][2..] == [c];
  }

  lemma FourLeaves(hash: Bytes -> Bytes, leaves: seq<Bytes>)
    requires |leaves| == 4
    ensures CeilLog2(4) == 2
    ensures Root(LoneHashed(hash), leaves) == hash(hash(leaves[0] + leaves[1]) + hash(leaves[2] + leaves[3]))
  {
    assert Pow2(1) == 2 && Pow2(2) == 4;
    CeilLog2Unique(4, 2);
    ParentsAt(LoneHashed(hash), leaves, 0);
    ParentsAt(LoneHashed(hash), leaves, 1);
    var level := Level(LoneHashed(hash), leaves, 1);
    assert level == Parents(LoneHashed(hash), Level(LoneHashed(hash), leaves, 0));
    assert level == [hash(leaves[0] + leaves[1]), hash(leaves[2] + leaves[3])];
    PairAlone(hash, level[0], level[1]);
    assert Level(LoneHashed(hash), leaves, 2) == Parents(LoneHashed(hash), level);
  }

  lemma {:induction false} ReachPositive(count: nat, nodeLevels: nat, index: seq<seq<int>>, i: nat, top: nat)
    requires i <= top && count > 0
    ensures Reach(count, nodeLevels, index, i, top) > 0
    decreases top - i
  {
    if i < top {
      ReachPositive(Half(count + LeftAdded(nodeLevels, index, i)), nodeLevels, index, i + 1, top);
    }
  }

  /** How many hashes there are at the top. */
  function TopCount(count: nat, nodeLevels: nat, index: seq<seq<int>>, i: nat, top: nat): nat
    requires i <= top
    decreases top - i
  {
    if i == top then count
    else
      var added := if nodeLevels <= i || |index| <= i || |index[i]| > 2 then 0 else |index[i]|;
      TopCount(Half(count + added), nodeLevels, index, i + 1, top)
  }

  lemma {:induction false} ClimbCount(hash: Bytes -> Bytes, hashes: seq<Bytes>, nodes: seq<seq<Bytes>>, index: seq<seq<int>>,
                                      i: nat, top: nat)
    requires i <= top && Climb(hash, hashes, nodes, index, i, top).Some?
    ensures |Climb(hash, hashes, nodes, index, i, top).value| == TopCount(|hashes|, |nodes|, index, i, top)
    decreases top - i
  {
    if i < top {
      ClimbCount(hash, Parents(LoneHashed(hash), ExtendAt(hashes, nodes, index, i).value), nodes, index, i + 1, top);
    }
  }

  /** In particular the condition holds when one hash is left at the top. */
  lemma {:induction false} ReachInTop(count: nat, more: nat, nodeLevels: nat, index: seq<seq<int>>, i: nat, top: nat)
    requires i <= top && count <= more
    ensures Reach(count, nodeLevels, index, i, top) <= TopCount(more, nodeLevels, index, i, top)
    decreases top - i
  {
    if i < top {
      var added := if nodeLevels <= i || |index| <= i || |index[i]| > 2 then 0 else |index[i]|;
      ReachInTop(Half(count + LeftAdded(nodeLevels, index, i)), Half(more + added), nodeLevels, index, i + 1, top);
    }
  }

  /** The two lists agree except, perhaps, from position `count` on. */
  ghost predicate AgreeUpTo(a: seq<Bytes>, b: seq<Bytes>, count: nat) {
    |a| == |b| && forall k :: 0 <= k < count && k < |a| ==> a[k] == b[k]
  }

  lemma ParentsAgree(hash: Bytes -> Bytes, a: seq<Bytes>, b: seq<Bytes>, count: nat)
    requires AgreeUpTo(a, b, count)
    ensures AgreeUpTo(Parents(LoneHashed(hash), a), Parents(LoneHashed(hash), b), count / 2)
  {
    var x, y := Parents(LoneHashed(hash), a), Parents(LoneHashed(hash), b);
    forall k | 0 <= k < count / 2 && k < |x|
      ensures x[k] == y[k]
    {
      ParentsAt(LoneHashed(hash), a, k);
      ParentsAt(LoneHashed(hash), b, k);
    }
  }

  lemma ExtendAgrees(a: seq<Bytes>, b: seq<Bytes>, nodes: seq<seq<Bytes>>, index: seq<seq<int>>, i: nat, count: nat)
    requires AgreeUpTo(a, b, count) && count <= |a|
    ensures ExtendAt(a, nodes, index, i).Some? <==> ExtendAt(b, nodes, index, i).Some?
    ensures ExtendAt(a, nodes, index, i).Some? ==>
              AgreeUpTo(ExtendAt(a, nodes, index, i).value, ExtendAt(b, nodes, index, i).value,
                        count + LeftAdded(|nodes|, index, i))
    ensures ExtendAt(a, nodes, index, i).Some? ==> count + LeftAdded(|nodes|, index, i) <= |ExtendAt(a, nodes, index, i).value|
  {
  }

  lemma {:induction false} ClimbAgrees(hash: Bytes -> Bytes, a: seq<Bytes>, b: seq<Bytes>, nodes: seq<seq<Bytes>>,
                                       index: seq<seq<int>>, i: nat, top: nat, count: nat)
    requires i <= top && 0 < count <= |a| && AgreeUpTo(a, b, count - 1)
    requires Reach(count, |nodes|, index, i, top) >= 2
    ensures var x, y := Climb(hash, a, nodes, index, i, top), Climb(hash, b, nodes, index, i, top);
            (x.Some? <==> y.Some?) && (x.Some? ==> |x.value| == |y.value| >= 1 && x.value[0] == y.value[0])
    decreases top - i
  {
    if i < top {
      ExtendAgrees(a, b, nodes, index, i, count - 1);
      var x, y := ExtendAt(a, nodes, index, i), ExtendAt(b, nodes, index, i);
      if x.Some? {
        var reached := count + LeftAdded(|nodes|, index, i);
        ParentsAgree(hash, x.value, y.value, reached - 1);
        assert Half(reached) - 1 == (reached - 1) / 2;
        ClimbAgrees(hash, Parents(LoneHashed(hash), x.value), Parents(LoneHashed(hash), y.value), nodes, index, i + 1, top,
                    Half(reached));
      }
    }
  }

  /** And the condition is exact: when the data reaches into a second hash at the top, which is not looked at, the
      last block does not matter. Any other block in its place gives the same verdict. */
  lemma LastBlockIgnored(hash: Bytes -> Bytes, rootHash: Bytes, data: Bytes, other: Bytes, nodes: seq<seq<Bytes>>,
                         index: seq<seq<int>>, leaves: nat)
    requires leaves >= 1 && BlockCount(|data|) == BlockCount(|other|) > 0
    requires forall k :: 0 <= k < BlockCount(|data|) - 1 ==> Block(data, k) == Block(other, k)
    requires Reach(BlockCount(|data|), |nodes|, index, 0, CeilLog2(leaves)) >= 2
    ensures Judge(rootHash, TopHashes(hash, data, nodes, index, leaves))
            == Judge(rootHash, TopHashes(hash, other, nodes, index, leaves))
  {
    var a, b := BlockHashes(hash, data), BlockHashes(hash, other);
    ClimbAgrees(hash, a, b, nodes, index, 0, CeilLog2(leaves), |a|);
  }

  lemma OneOfTwoBlocks(hash: Bytes -> Bytes, data: Bytes)
    requires 0 < |data| <= 65536
    ensures BlockHashes(hash, data) == [hash(data)]
  {
    assert BlockCount(|data|) == 1;
    assert Block(data, 0) == data;
  }

  lemma TwoBlocks(hash: Bytes -> Bytes, first: Bytes, second: Bytes)
    requires |first| == 65536 && 0 < |second| <= 65536
    ensures BlockCount(|first + second|) == 2 && CeilLog2(2) == 1
    ensures ValidationRoot(hash, first + second) == hash(hash(first) + hash(second))
  {
    hide Parents;
    var file := first + second;
    assert BlockCount(|file|) == 2;
    assert Block(file, 0) == first && Block(file, 1) == second;
    CeilLog2Unique(2, 1);
    assert Pow2(1) == 2 && Pow2(0) == 1;
    var leaves := BlockHashes(hash, file);
    assert leaves == [hash(first), hash(second)];
    PairAlone(hash, hash(first), hash(second));
    assert Level(LoneHashed(hash), leaves, 1) == Parents(LoneHashed(hash), Level(LoneHashed(hash), leaves, 0));
  }

  lemma ClimbOnce(hash: Bytes -> Bytes, own: Bytes, sibling: Bytes, side: int)
    requires side == 0 || side == 1
    ensures Climb(hash, [own], [[sibling]], [[side]], 0, 1) == Some([if side == 1 then hash(own + sibling) else hash(sibling + own)])
  {
    hide Parents;
    var nodes, index := [[sibling]], [[side]];
    assert nodes[0] == [sibling] && index[0] == [side];
    var both := if side == 1 then [own, sibling] else [sibling, own];
    assert [own] + [sibling] == [own, sibling] && [sibling] + [own] == [sibling, own];
    assert ExtendAt([own], nodes, index, 0) == Extend([own], [sibling], [side]) == Some(both);
    PairAlone(hash, both[0], both[1]);
    assert both == [both[0], both[1]];
    var top := [hash(both[0] + both[1])];
    assert Climb(hash, top, nodes, index, 1, 1) == Some(top);
  }

  /** A file of two blocks: the first one is accepted with its sibling to the right, which the server says with 1, the
      second with its sibling to the left, which is 0, and no data at all is never accepted. */
  method TwoBlockFile(hash: Bytes -> Bytes, first: Bytes, second: Bytes)
      returns (left: Verdict, right: Verdict, nothing: Verdict)
    requires |first| == 65536 && 0 < |second| <= 65536
    ensures left == right == Accepted && nothing == EmptyData
  {
    hide Climb, Judge, BlockHashes, ValidationRoot;
    var root, size := hash(hash(first) + hash(second)), |first| + |second|;
    TwoBlocks(hash, first, second);
    OneOfTwoBlocks(hash, first);
    OneOfTwoBlocks(hash, second);
    ClimbOnce(hash, hash(first), hash(second), 1);
    ClimbOnce(hash, hash(second), hash(first), 0);
    NothingToClimb(hash, root);
    JudgeOne(root);
    var proof := new MerklePathForMultiLeafVerification(hash, root, [[hash(second)]], [[1]], size);
    left := proof.VerifyMultipleBlocks(first);
    proof := new MerklePathForMultiLeafVerification(hash, root, [[hash(first)]], [[0]], size);
    right := proof.VerifyMultipleBlocks(second);
    proof := new MerklePathForMultiLeafVerification(hash, root, [], [], size);
    nothing := proof.VerifyMultipleBlocks([]);
  }

  lemma JudgeOne(root: Bytes)
    ensures Judge(root, Some([root])) == Accepted
  {
  }

  lemma NothingToClimb(hash: Bytes -> Bytes, root: Bytes)
    ensures Judge(root, Climb(hash, BlockHashes(hash, []), [], [], 0, 1)) == EmptyData
  {
    assert Climb(hash, [], [], [], 1, 1) == Some([]);
  }

  /** For example, one whole block followed by anything at all is accepted as a range of a one-block file. */
  lemma ExtraDataAccepted(hash: Bytes -> Bytes, file: Bytes, extra: Bytes)
    requires |file| == BLOCK && extra != []
    ensures Judge(ValidationRoot(hash, file), TopHashes(hash, file + extra, [], [], BlockCount(|file|))) == Accepted
    ensures Reach(BlockCount(|file + extra|), 0, [], 0, CeilLog2(BlockCount(|file|))) >= 2
    ensures forall p, m :: 0 <= p && 0 <= m && p + m <= BlockCount(|file|) ==> file + extra != Run(file, p, m)
  {
    CeilLog2Unique(1, 0);
    assert Block(file + extra, 0) == file == Block(file, 0);
    forall p: nat, m: nat | p + m <= BlockCount(|file|)
      ensures |Run(file, p, m)| <= |file|
    {
    }
  }
}
