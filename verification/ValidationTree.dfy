/** core/util/validation_tree.go: a stream of bytes is hashed in 64KB blocks while it is written, and the
    block hashes are then folded into a root. An odd last node is hashed by itself. */
module ValidationTrees {
  import opened Levels
  import opened Merkle
  import opened Hashing

  const BLOCK: nat := 65536

  // ----- the blocks of a byte string

  function BlockCount(size: nat): nat {
    (size + BLOCK - 1) / BLOCK
  }

  function BlockEnd(data: Bytes, k: nat): nat {
    if (k + 1) * BLOCK <= |data| then (k + 1) * BLOCK else |data|
  }

  /** The k-th 64KB block; the last one may be shorter. */
  function Block(data: Bytes, k: nat): Bytes
    requires k < BlockCount(|data|)
  {
    data[k * BLOCK..BlockEnd(data, k)]
  }

  function BlockHashes(hash: Bytes -> Bytes, data: Bytes): (hashes: seq<Bytes>)
    ensures |hashes| == BlockCount(|data|)
    ensures forall k :: 0 <= k < |hashes| ==> hashes[k] == hash(Block(data, k))
  {
    seq(BlockCount(|data|), k requires 0 <= k < BlockCount(|data|) => hash(Block(data, k)))
  }

  /** The root that the tree over `data` must have. */
  function ValidationRoot(hash: Bytes -> Bytes, data: Bytes): Bytes
    requires |data| > 0
  {
    Root(LoneHashed(hash), BlockHashes(hash, data))
  }

  // ----- loops shared by the tree and the range verifier

  /** One level up: the loop that calculateRoot and calculateIntermediateHashes both run. */
  method NextLevel(hash: Bytes -> Bytes, nodes: seq<Bytes>) returns (newNodes: seq<Bytes>)
    ensures newNodes == Parents(LoneHashed(hash), nodes)
  {
    hide Parents;
    ghost var rule := LoneHashed(hash);
    newNodes := [];
    var even := |nodes| - |nodes| % 2;
    assert nodes[0..] == nodes;
    var j := 0;
    while j < even
      invariant 0 <= j <= even && j % 2 == 0
      invariant newNodes + Parents(rule, nodes[j..]) == Parents(rule, nodes)
    {
      ParentsAhead(rule, nodes, j);
      ghost var first, rest := [hash(nodes[j] + nodes[j + 1])], Parents(rule, nodes[j + 2..]);
      assert newNodes + (first + rest) == newNodes + first + rest;
      newNodes := newNodes + [hash(nodes[j] + nodes[j + 1])];
      j := j + 2;
    }
    ParentsLeft(rule, nodes, j);
    if |nodes| % 2 == 1 {
      newNodes := newNodes + [hash(nodes[|nodes| - 1])];
    }
  }

  datatype WriteError = AlreadyFinalized | SizeOverflow
  datatype WriteResult = Written(count: nat) | WriteFailed(error: WriteError)
  datatype FinalizeResult = Finalized | FinalizedBefore | InvalidSize

  class ValidationTree {
    const hash: Bytes -> Bytes
    const dataSize: nat
    const leaves: array<Bytes>
    var writeCount: nat
    var writtenSize: nat
    var leafIndex: nat
    var isFinalized: bool
    var h: Bytes  // what the running hasher has absorbed since its last reset
    ghost var Stream: Bytes  // everything written so far

    /** Counters, hasher and filled leaves agree with the stream. */
    ghost predicate Absorbed()
      reads this, leaves
    {
      && leaves.Length == BlockCount(dataSize)
      && |Stream| <= dataSize
      && leafIndex * BLOCK + writeCount == |Stream|
      && writeCount < BLOCK
      && h == Stream[leafIndex * BLOCK..]
      && leafIndex <= leaves.Length
      && (forall k :: 0 <= k < leafIndex ==> leaves[k] == hash(Block(Stream, k)))
    }

    ghost predicate Valid()
      reads this, leaves
    {
      && Absorbed()
      && writtenSize == |Stream|
      && (isFinalized ==> writtenSize == dataSize && leaves[..] == BlockHashes(hash, Stream))
    }

    constructor (hash: Bytes -> Bytes, dataSize: nat)
      ensures Valid() && fresh(leaves)
      ensures this.hash == hash && this.dataSize == dataSize
      ensures Stream == [] && !isFinalized
    {
      this.hash, this.dataSize := hash, dataSize;
      leaves := new Bytes[BlockCount(dataSize)](_ => []);
      writeCount, writtenSize, leafIndex, isFinalized := 0, 0, 0, false;
      h, Stream := [], [];
    }

    /** Takes all of b or, when finalized or too long, nothing at all. */
    method Write(b: Bytes) returns (r: WriteResult)
      requires Valid()
      modifies this, leaves
      ensures Valid() && isFinalized == old(isFinalized)
      ensures r == if isFinalized then WriteFailed(AlreadyFinalized)
                   else if |old(Stream)| + |b| > dataSize && b != [] then WriteFailed(SizeOverflow)
                   else Written(|b|)
      ensures Stream == if r.Written? then old(Stream) + b else old(Stream)
      ensures !r.Written? ==> unchanged(this) && unchanged(leaves)
    {
      if isFinalized {
        return WriteFailed(AlreadyFinalized);
      }
      if |b| == 0 {
        return Written(0);
      }
      if writtenSize + |b| > dataSize {
        return WriteFailed(SizeOverflow);
      }
      ghost var before := Stream;
      var byteLen := |b|;
      var shouldContinue := true;
      var i, j := 0, BLOCK - writeCount;
      while shouldContinue
        invariant 0 <= i <= byteLen
        invariant Absorbed() && !isFinalized
        invariant writtenSize == |before| && writtenSize + byteLen <= dataSize
        invariant Stream == before + b[..i]
        invariant if shouldContinue then j == i + BLOCK - writeCount else i == byteLen
        decreases shouldContinue, byteLen - i
      {
        if j > byteLen {
          j := byteLen;
          shouldContinue := false;
        }
        assert b[..i] + b[i..j] == b[..j];
        Absorb(b[i..j]);
        i, j := j, j + BLOCK;
      }
      assert b[..byteLen] == b;
      writtenSize := writtenSize + byteLen;
      return Written(byteLen);
    }

    /** One turn of the loop in Write: the piece goes to the running hasher, whose digest becomes the next
        leaf when the block is full. */
    method Absorb(piece: Bytes)
      requires Absorbed() && |piece| <= BLOCK - writeCount && |Stream| + |piece| <= dataSize
      modifies this`h, this`writeCount, this`leafIndex, this`Stream, leaves
      ensures Absorbed()
      ensures Stream == old(Stream) + piece
      ensures old(writeCount) + |piece| == BLOCK ==> writeCount == 0
    {
      BlocksOfPrefix(Stream, piece, leafIndex);
      h := h + piece;
      writeCount := writeCount + |piece|;
      Stream := Stream + piece;
      if writeCount == BLOCK {
        assert h == Block(Stream, leafIndex);
        leaves[leafIndex] := hash(h);
        leafIndex := leafIndex + 1;
        writeCount := 0;
        h := [];
      }
    }

    /** Hashes the unfinished last block, once, and only when every promised byte has arrived. */
    method Finalize() returns (r: FinalizeResult)
      requires Valid()
      modifies this`isFinalized, leaves
      ensures Valid()
      ensures r == if old(isFinalized) then FinalizedBefore
                   else if |Stream| != dataSize then InvalidSize else Finalized
      ensures isFinalized == (old(isFinalized) || r == Finalized)
      ensures r != Finalized ==> unchanged(leaves)
      ensures isFinalized ==> leaves[..] == BlockHashes(hash, Stream)
    {
      if isFinalized {
        return FinalizedBefore;
      }
      if writtenSize != dataSize {
        return InvalidSize;
      }
      isFinalized := true;
      if writeCount > 0 {
        assert h == Block(Stream, leafIndex);
        leaves[leafIndex] := hash(h);
      }
      return Finalized;
    }

    function CalculateDepth(): (depth: nat)
      requires leaves.Length >= 1
      ensures depth >= 1 && Width(leaves.Length, depth - 1) == 1
    {
      RoundsReachOne(leaves.Length);
      CeilLog2(leaves.Length) + 1
    }

    /** What is stored as validationRoot when the root is first asked for. */
    method CalculateRoot() returns (root: Bytes)
      requires Valid() && leaves.Length >= 1
      ensures root == Root(LoneHashed(hash), leaves[..])
      ensures isFinalized ==> root == ValidationRoot(hash, Stream)
    {
      hide Parents, Block;
      var depth := CalculateDepth();
      var nodes := leaves[..];
      ghost var rule := LoneHashed(hash);
      RoundsReachOne(leaves.Length);
      var i := 0;
      while i < depth && |nodes| != 1
        invariant 0 <= i < depth
        invariant nodes == Level(rule, leaves[..], i)
      {
        nodes := NextLevel(hash, nodes);
        i := i + 1;
      }
      assert i == depth - 1;
      root := nodes[0];
    }
  }

  /** Whole blocks stay what they are when bytes are appended. */
  lemma BlocksOfPrefix(s: Bytes, more: Bytes, count: nat)
    requires count * BLOCK <= |s|
    ensures forall k :: 0 <= k < count ==> Block(s + more, k) == Block(s, k)
  {
  }

  /** However the stream is cut into writes, a tree that accepted them all and was finalized has the root
      of the whole data. */
  method HashStream(hash: Bytes -> Bytes, pieces: seq<Bytes>) returns (root: Bytes)
    requires |Concat(pieces)| > 0
    ensures root == ValidationRoot(hash, Concat(pieces))
  {
    var tree := new ValidationTree(hash, |Concat(pieces)|);
    var i := 0;
    while i < |pieces|
      invariant 0 <= i <= |pieces|
      invariant tree.Valid() && !tree.isFinalized && fresh(tree) && fresh(tree.leaves)
      invariant tree.Stream == Concat(pieces[..i])
      invariant tree.hash == hash && tree.dataSize == |Concat(pieces)|
    {
      ConcatStep(pieces, i);
      ConcatPrefix(pieces, i + 1);
      var r := tree.Write(pieces[i]);
      assert r.Written?;
      i := i + 1;
    }
    assert pieces[..i] == pieces;
    var r := tree.Finalize();
    root := tree.CalculateRoot();
  }
}
