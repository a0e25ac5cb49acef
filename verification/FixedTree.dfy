/** core/util/fixed_merkle_tree.go: a stream is dealt out 64 bytes at a time over 1024 leaf hashers, 64KB in a
    round; the tree over the leaf hashes always has the same shape. */
module FixedTrees {
  import opened Levels
  import opened Merkle
  import opened Hashing
  import opened Options

  const CHUNK: nat := 64
  const ROUND: nat := 65536  // MaxMerkleLeavesSize
  const LEAVES: nat := 1024
  const DEPTH: nat := 11

  /** The bytes that leaf k gets from a stream: those at positions p with (p mod 64KB) / 64 == k, in order. */
  function Dealt(stream: Bytes, k: nat): Bytes {
    if stream == [] then []
    else
      var last := |stream| - 1;
      Dealt(stream[..last], k) + (if last % ROUND / CHUNK == k then [stream[last]] else [])
  }

  /** The 64-byte chunk of one round that goes to leaf k. */
  function Chunk(b: Bytes, k: nat): Bytes {
    if (k + 1) * CHUNK <= |b| then b[k * CHUNK..(k + 1) * CHUNK]
    else if k * CHUNK <= |b| then b[k * CHUNK..]
    else []
  }

  lemma NothingDealt()
    ensures forall k :: Dealt([], k) == []
  {
  }

  /** The next byte goes to the leaf that its position names: 64 bytes to each leaf, and again after 64KB. */
  lemma DealtByte(stream: Bytes, b: byte, k: nat)
    ensures Dealt(stream + [b], k) == Dealt(stream, k) + if |stream| % 65536 / 64 == k then [b] else []
  {
    assert (stream + [b])[..|stream|] == stream;
  }

  lemma PositionInRound(whole: nat, p: nat)
    requires whole % ROUND == 0 && p < ROUND
    ensures (whole + p) % ROUND == p
  {
  }

  /** Dealing out one more round appends its k-th chunk to leaf k. */
  lemma {:induction false} DealtRound(stream: Bytes, b: Bytes, k: nat)
    requires |stream| % ROUND == 0 && |b| <= ROUND
    ensures Dealt(stream + b, k) == Dealt(stream, k) + Chunk(b, k)
    decreases |b|
  {
    if b == [] {
      assert stream + b == stream;
      assert Chunk(b, k) == [];
    } else {
      var last := |b| - 1;
      DealtRound(stream, b[..last], k);
      assert (stream + b)[..|stream + b| - 1] == stream + b[..last];
      PositionInRound(|stream|, last);
      ChunkGrows(b, k);
    }
  }

  lemma ChunkGrows(b: Bytes, k: nat)
    requires b != []
    ensures var last := |b| - 1;
            Chunk(b, k) == Chunk(b[..last], k) + (if last / CHUNK == k then [b[last]] else [])
  {
    var last := |b| - 1;
    if last / CHUNK == k {
      assert k * CHUNK <= last < (k + 1) * CHUNK;
      assert Chunk(b, k) == b[k * CHUNK..];
    } else if last < k * CHUNK {
    } else {
      assert (k + 1) * CHUNK <= last;
    }
  }

  /** What the first n leaves have absorbed, in all. */
  function DealtTotal(stream: Bytes, n: nat): nat {
    if n == 0 then 0 else DealtTotal(stream, n - 1) + |Dealt(stream, n - 1)|
  }

  /** No byte is lost and none is dealt out twice. */
  lemma {:induction false} DealtConserves(stream: Bytes)
    ensures DealtTotal(stream, LEAVES) == |stream|
    decreases |stream|
  {
    if stream == [] {
      DealtTotalStep(stream, LEAVES);
    } else {
      DealtConserves(stream[..|stream| - 1]);
      DealtTotalStep(stream, LEAVES);
    }
  }

  lemma {:induction false} DealtTotalStep(stream: Bytes, n: nat)
    ensures stream == [] ==> DealtTotal(stream, n) == 0
    ensures stream != [] ==>
      var last := |stream| - 1;
      DealtTotal(stream, n) == DealtTotal(stream[..last], n) + if last % ROUND / CHUNK < n then 1 else 0
  {
    if n > 0 {
      DealtTotalStep(stream, n - 1);
    }
  }

  lemma AppendSlice(base: Bytes, data: Bytes, i: nat, j: nat)
    requires i <= j <= |data|
    ensures base + data[..i] + data[i..j] == base + data[..j]
  {
  }

  datatype LeafError = TooLarge | InvalidLeafWrite
  datatype WriteResult = Written(count: nat) | TreeIsFinal | LeafFailed(error: LeafError)
  datatype ReloadResult = Reloaded | WriteRefused(result: WriteResult) | ReadError
  datatype FinalizeResult = Finalized | FinalizedBefore | FinalizeFailed(error: LeafError)

  class FixedMerkleTree {
    const hash: Bytes -> Bytes
    const Leaves: array<Bytes>  // what each leaf hasher has absorbed
    const writeBytes: array<byte>
    var isFinal: bool
    var writeCount: nat
    ghost var Stream: Bytes  // everything written since the leaves were last reset

    ghost predicate Shape()
      reads this
    {
      Leaves.Length == LEAVES && writeBytes.Length == ROUND && writeCount <= ROUND
    }

    /** The leaves have absorbed the whole rounds of the stream; the rest waits in writeBytes until Finalize. */
    ghost predicate Valid()
      reads this, Leaves, writeBytes
    {
      && Shape()
      && writeCount < ROUND
      && (isFinal ==> forall k :: 0 <= k < LEAVES ==> Leaves[k] == Dealt(Stream, k))
      && (!isFinal ==> Waiting(Stream))
    }

    ghost predicate Waiting(stream: Bytes)
      requires Shape()
      reads this, Leaves, writeBytes
    {
      && writeCount <= |stream|
      && (|stream| - writeCount) % ROUND == 0
      && writeBytes[..writeCount] == stream[|stream| - writeCount..]
      && forall k :: 0 <= k < LEAVES ==> Leaves[k] == Dealt(stream[..|stream| - writeCount], k)
    }

    constructor (hash: Bytes -> Bytes)
      ensures Valid() && fresh(Leaves) && fresh(writeBytes)
      ensures this.hash == hash && Stream == [] && !isFinal && writeCount == 0
    {
      this.hash := hash;
      Leaves := new Bytes[LEAVES](_ => []);
      writeBytes := new byte[ROUND](_ => 0);
      isFinal, writeCount, Stream := false, 0, [];
      new;
      NothingDealt();
    }

    /** Deals b out over the leaves. The two guards are the source's; its callers never trip them. */
    method WriteToLeaves(b: Bytes) returns (r: Option<LeafError>)
      requires Shape()
      modifies Leaves
      ensures r == if |b| > ROUND then Some(TooLarge) else if |b| < ROUND && !isFinal then Some(InvalidLeafWrite) else None
      ensures r.None? ==> forall k :: 0 <= k < LEAVES ==> Leaves[k] == old(Leaves[k]) + Chunk(b, k)
      ensures r.Some? ==> unchanged(Leaves)
    {
      if |b| > ROUND {
        return Some(TooLarge);
      }
      if |b| < ROUND && !isFinal {
        return Some(InvalidLeafWrite);
      }
      var leafInd, i := 0, 0;
      while i < |b|
        invariant i == leafInd * CHUNK && i < |b| + CHUNK
        invariant forall k :: 0 <= k < LEAVES ==>
          Leaves[k] == old(Leaves[k]) + if k < leafInd then Chunk(b, k) else []
      {
        var j := i + CHUNK;
        if j > |b| {
          j := |b|;
        }
        assert b[i..j] == Chunk(b, leafInd);
        Leaves[leafInd] := Leaves[leafInd] + b[i..j];
        leafInd := leafInd + 1;
        i := i + CHUNK;
      }
      forall k | leafInd <= k < LEAVES
        ensures Chunk(b, k) == []
      {
      }
      return None;
    }

    /** Takes all of b, whole rounds going on to the leaves; refused only after Finalize. */
    method Write(b: Bytes) returns (r: WriteResult)
      requires Valid()
      modifies this`writeCount, this`Stream, Leaves, writeBytes
      ensures Valid()
      ensures r == if isFinal then TreeIsFinal else Written(|b|)
      ensures Stream == if isFinal then old(Stream) else old(Stream) + b
      ensures isFinal ==> unchanged(this) && unchanged(Leaves) && unchanged(writeBytes)
    {
      if isFinal {
        return TreeIsFinal;
      }
      ghost var before := Stream;
      assert b[..0] == [];
      var i, j := 0, ROUND - writeCount;
      while i < |b|
        invariant 0 <= i <= |b| && Valid() && !isFinal
        invariant i < |b| ==> j == i + ROUND - writeCount
        invariant Stream == before + b[..i]
      {
        if j > |b| {
          j := |b|;
        }
        AppendSlice(before, b, i, j);
        var error := Buffer(b[i..j]);
        match error {
          case Some(e) => return LeafFailed(e);
          case None =>
        }
        i, j := j, j + ROUND;
      }
      assert b[..i] == b;
      return Written(|b|);
    }

    /** One turn of the loop in Write: the piece goes into writeBytes, which is dealt out once it is full. */
    method Buffer(piece: Bytes) returns (error: Option<LeafError>)
      requires Valid() && !isFinal && |piece| <= ROUND - writeCount
      modifies this`writeCount, this`Stream, Leaves, writeBytes
      ensures Valid() && error.None? && Stream == old(Stream) + piece
      ensures writeCount == if old(writeCount) + |piece| == ROUND then 0 else old(writeCount) + |piece|
    {
      hide Dealt, Chunk;
      ghost var whole := Stream[..|Stream| - writeCount];
      ghost var full := Stream[|Stream| - writeCount..] + piece;
      CopyIn(piece);
      writeCount := writeCount + |piece|;
      Stream := Stream + piece;
      assert Stream == whole + full;
      if writeCount == ROUND {
        error := DealOut(whole, full);
        writeCount := 0;
        assert Stream[..|Stream|] == Stream;
      } else {
        error := None;
        assert Stream[..|Stream| - writeCount] == whole && Stream[|Stream| - writeCount..] == full;
      }
    }

    /** writeBytes is full. */
    method DealOut(ghost whole: Bytes, ghost full: Bytes) returns (error: Option<LeafError>)
      requires Shape() && !isFinal && |whole| % ROUND == 0 && writeBytes[..ROUND] == full
      requires forall k :: 0 <= k < LEAVES ==> Leaves[k] == Dealt(whole, k)
      modifies Leaves
      ensures error.None? && forall k :: 0 <= k < LEAVES ==> Leaves[k] == Dealt(whole + full, k)
    {
      hide Dealt, Chunk;
      assert writeBytes[..] == full;
      error := WriteToLeaves(writeBytes[..]);
      forall k | 0 <= k < LEAVES
        ensures Leaves[k] == Dealt(whole + full, k)
      {
        DealtRound(whole, full, k);
      }
    }

    method CopyIn(piece: Bytes)
      requires Shape() && writeCount + |piece| <= ROUND
      modifies writeBytes
      ensures writeBytes[..writeCount + |piece|] == old(writeBytes[..writeCount]) + piece
    {
      forall x | 0 <= x < |piece| {
        writeBytes[writeCount + x] := piece[x];
      }
    }

    /** Deals out what is left, once. */
    method Finalize() returns (r: FinalizeResult)
      requires Valid()
      modifies this`isFinal, Leaves
      ensures Valid() && isFinal
      ensures r == if old(isFinal) then FinalizedBefore else Finalized
      ensures old(isFinal) ==> unchanged(Leaves)
    {
      if isFinal {
        return FinalizedBefore;
      }
      isFinal := true;
      ghost var whole, rest := Stream[..|Stream| - writeCount], Stream[|Stream| - writeCount..];
      assert Stream == whole + rest;
      if writeCount > 0 {
        var error := WriteToLeaves(writeBytes[..writeCount]);
        forall k | 0 <= k < LEAVES
          ensures Leaves[k] == Dealt(Stream, k)
        {
          DealtRound(whole, rest, k);
        }
        match error {
          case Some(e) => return FinalizeFailed(e);
          case None =>
        }
      } else {
        assert whole == Stream;
      }
      return Finalized;
    }

    /** Fresh leaf hashers, then the reader's data in 64KB reads, up to its end or to a read error, which comes again
        when the reader is asked again. What was waiting in writeBytes stays there: it counts as the start of the new
        stream. A finalized tree loses its leaves and refuses the data. */
    method Reload(data: Bytes, readerFails: bool) returns (r: ReloadResult)
      requires Valid()
      modifies this`writeCount, this`Stream, Leaves, writeBytes
      ensures Valid()
      ensures r == if isFinal && data != [] then WriteRefused(TreeIsFinal) else if readerFails then ReadError else Reloaded
      ensures Stream == if isFinal then [] else old(writeBytes[..writeCount]) + data
    {
      InitLeaves();
      ghost var base := Stream;
      assert data[..0] == [];
      var at := 0;
      while at < |data|
        invariant 0 <= at <= |data| && Valid() && (isFinal ==> at == 0)
        invariant Stream == base + data[..at]
      {
        var next, w := WriteNext(data, at);
        if !w.Written? {
          return WriteRefused(w);
        }
        AppendSlice(base, data, at, next);
        at := next;
      }
      assert data[..at] == data;
      r := if readerFails then ReadError else Reloaded;
    }

    /** One turn of the loop in Reload: the next 64KB of the reader, or what is left of it. */
    method WriteNext(data: Bytes, at: nat) returns (next: nat, w: WriteResult)
      requires Valid() && at < |data|
      modifies this`writeCount, this`Stream, Leaves, writeBytes
      ensures Valid() && at < next <= |data|
      ensures w == if isFinal then TreeIsFinal else Written(next - at)
      ensures Stream == if isFinal then old(Stream) else old(Stream) + data[at..next]
    {
      next := if at + ROUND <= |data| then at + ROUND else |data|;
      w := Write(data[at..next]);
    }

    method InitLeaves()
      requires Valid()
      modifies this`Stream, Leaves
      ensures Valid()
      ensures Stream == if isFinal then [] else writeBytes[..writeCount]
    {
      var i := 0;
      while i < LEAVES
        invariant 0 <= i <= LEAVES && forall k :: 0 <= k < i ==> Leaves[k] == []
      {
        Leaves[i] := [];
        i := i + 1;
      }
      Stream := if isFinal then [] else writeBytes[..writeCount];
      assert !isFinal ==> Stream[..|Stream| - writeCount] == [] && Stream[|Stream| - writeCount..] == Stream;
      assert forall k :: Dealt([], k) == [];
    }

    /** The hashes of the leaves, as CalculateMerkleRoot first collects them. */
    function LeafHashes(): (hashes: seq<Bytes>)
      requires Shape()
      reads this, Leaves
      ensures |hashes| == LEAVES
      ensures forall k :: 0 <= k < LEAVES ==> hashes[k] == hash(Leaves[k])
    {
      seq(LEAVES, k requires 0 <= k < LEAVES reads this, Leaves requires Shape() => hash(Leaves[k]))
    }

    /** Ten rounds of pairing bring the 1024 leaf hashes down to the root. */
    method CalculateMerkleRoot() returns (root: Bytes)
      requires Valid()
      ensures root == FixedRoot(hash, LeafHashes())
    {
      hide Parents, Waiting, Dealt, Width, Pow2, Root;
      var nodes := LeafHashes();
      ghost var rule, leaves := LoneHashed(hash), nodes;
      FixedWidths();
      RootAtTen(hash, leaves);
      var i := 0;
      while i < DEPTH
        invariant 0 <= i < DEPTH && nodes == Level(rule, leaves, i) && (i == 0 || |nodes| != 1)
      {
        nodes := PairUp(hash, nodes);
        if |nodes| == 1 {
          assert nodes == Level(rule, leaves, i + 1) && i + 1 == 10;
          break;
        }
        i := i + 1;
      }
      root := nodes[0];
    }
  }

  /** The root over the 1024 leaf hashes; a level is never odd, so no node is ever hashed by itself. */
  function FixedRoot(hash: Bytes -> Bytes, leafHashes: seq<Bytes>): Bytes
    requires |leafHashes| == LEAVES
  {
    Root(LoneHashed(hash), leafHashes)
  }

  lemma RootAtTen(hash: Bytes -> Bytes, leafHashes: seq<Bytes>)
    requires |leafHashes| == LEAVES
    ensures |Level(LoneHashed(hash), leafHashes, 10)| == 1
    ensures FixedRoot(hash, leafHashes) == Level(LoneHashed(hash), leafHashes, 10)[0]
  {
    FixedWidths();
  }

  /** The inner loop of CalculateMerkleRoot; it reads pairs, so it needs an even number of nodes. */
  method PairUp(hash: Bytes -> Bytes, nodes: seq<Bytes>) returns (newNodes: seq<Bytes>)
    requires |nodes| % 2 == 0
    ensures newNodes == Parents(LoneHashed(hash), nodes)
  {
    newNodes := [];
    var j := 0;
    hide Parents;
    assert nodes[0..] == nodes;
    while j < |nodes|
      invariant 0 <= j <= |nodes| && j % 2 == 0
      invariant newNodes + Parents(LoneHashed(hash), nodes[j..]) == Parents(LoneHashed(hash), nodes)
    {
      ParentsAhead(LoneHashed(hash), nodes, j);
      newNodes := newNodes + [hash(nodes[j] + nodes[j + 1])];
      j := j + 2;
    }
    assert Parents(LoneHashed(hash), nodes[j..]) == [];
  }

  lemma {:induction false} PowerWidth(h: nat, l: nat)
    requires l <= h
    ensures Width(Pow2(h), l) == Pow2(h - l)
  {
    if l > 0 {
      PowerWidth(h, l - 1);
      assert Pow2(h - l + 1) == 2 * Pow2(h - l);
    }
  }

  /** 1024 leaves make ten rounds, of an even number of nodes each. */
  lemma FixedWidths()
    ensures CeilLog2(LEAVES) == 10 && Pow2(10) == LEAVES
    ensures forall l :: 0 <= l < 10 ==> Width(LEAVES, l) % 2 == 0 && Width(LEAVES, l) >= 2
    ensures Width(LEAVES, 10) == 1
  {
    PowersUpToLeaves();
    CeilLog2Unique(LEAVES, 10);
    forall l | 0 <= l < 10
      ensures Width(LEAVES, l) % 2 == 0 && Width(LEAVES, l) >= 2
    {
      PowerWidth(10, l);
      PowerIsEven(10 - l);
    }
    PowerWidth(10, 10);
  }

  lemma PowerIsEven(k: nat)
    requires k > 0
    ensures Pow2(k) % 2 == 0 && Pow2(k) >= 2
  {
  }

  lemma PowersUpToLeaves()
    ensures Pow2(0) == 1 && Pow2(9) == 512 && Pow2(10) == LEAVES
  {
    assert Pow2(3) == 8;
    assert Pow2(6) == 64;
    assert Pow2(9) == 512;
  }

  // ----- whole streams

  /** However a stream is cut into writes, each leaf has absorbed its share of it after Finalize. */
  method DealStream(hash: Bytes -> Bytes, pieces: seq<Bytes>) returns (leaves: seq<Bytes>)
    ensures |leaves| == LEAVES && forall k :: 0 <= k < LEAVES ==> leaves[k] == Dealt(Concat(pieces), k)
  {
    var tree := new FixedMerkleTree(hash);
    var i := 0;
    while i < |pieces|
      invariant 0 <= i <= |pieces|
      invariant tree.Valid() && !tree.isFinal && fresh(tree) && fresh(tree.Leaves) && fresh(tree.writeBytes)
      invariant tree.Stream == Concat(pieces[..i])
    {
      ConcatStep(pieces, i);
      var w := tree.Write(pieces[i]);
      i := i + 1;
    }
    assert pieces[..i] == pieces;
    var f := tree.Finalize();
    leaves := tree.Leaves[..];
  }

  /** A fresh tree that reloads the data in one go ends with the same leaves. */
  method ReloadStream(hash: Bytes -> Bytes, data: Bytes) returns (leaves: seq<Bytes>)
    ensures |leaves| == LEAVES && forall k :: 0 <= k < LEAVES ==> leaves[k] == Dealt(data, k)
  {
    var tree := new FixedMerkleTree(hash);
    ReloadAndFinalize(tree, data);
    leaves := tree.Leaves[..];
  }

  /** In general, reloading gives the leaves of the data exactly when no bytes were waiting. */
  method ReloadAndFinalize(tree: FixedMerkleTree, data: Bytes)
    requires tree.Valid() && !tree.isFinal
    modifies tree, tree.Leaves, tree.writeBytes
    ensures tree.Valid() && tree.isFinal
    ensures forall k :: 0 <= k < LEAVES ==> tree.Leaves[k] == Dealt(old(tree.writeBytes[..tree.writeCount]) + data, k)
    ensures old(tree.writeCount) == 0 <==> forall k :: 0 <= k < LEAVES ==> tree.Leaves[k] == Dealt(data, k)
  {
    hide Dealt;
    ghost var waiting := tree.writeBytes[..tree.writeCount];
    var r := tree.Reload(data, false);
    ghost var whole := waiting + data;
    assert tree.Stream == whole;
    var f := tree.Finalize();
    assert forall k :: 0 <= k < LEAVES ==> tree.Leaves[k] == Dealt(whole, k);
    WaitingShows(waiting, data);
    if forall k :: 0 <= k < LEAVES ==> tree.Leaves[k] == Dealt(data, k) {
      forall k | 0 <= k < LEAVES
        ensures Dealt(whole, k) == Dealt(data, k)
      {
        assert tree.Leaves[k] == Dealt(data, k);
      }
    }
  }

  /** Bytes in front of a stream show in some leaf. */
  lemma WaitingShows(waiting: Bytes, data: Bytes)
    ensures waiting == [] <==> SameLeaves(waiting + data, data)
  {
    var whole := waiting + data;
    if waiting == [] {
      assert whole == data;
    } else if SameLeaves(whole, data) {
      SameDealt(whole, data);
    }
  }

  /** Both streams leave every leaf the same. */
  ghost predicate SameLeaves(a: Bytes, b: Bytes) {
    forall k :: 0 <= k < LEAVES ==> Dealt(a, k) == Dealt(b, k)
  }

  lemma SameDealt(a: Bytes, b: Bytes)
    requires SameLeaves(a, b)
    ensures |a| == |b|
  {
    SameTotals(a, b, LEAVES);
    DealtConserves(a);
    DealtConserves(b);
  }

  lemma {:induction false} SameTotals(a: Bytes, b: Bytes, n: nat)
    requires n <= LEAVES && forall k :: 0 <= k < LEAVES ==> Dealt(a, k) == Dealt(b, k)
    ensures DealtTotal(a, n) == DealtTotal(b, n)
  {
    if n > 0 {
      SameTotals(a, b, n - 1);
    }
  }

  /** For example, one byte that was written before an empty reload ends up in the first leaf. */
  method ReloadKeepsWaiting(hash: Bytes -> Bytes, b: byte) returns (leaves: seq<Bytes>)
    ensures |leaves| == LEAVES && leaves[0] == [b] && Dealt([], 0) == []
  {
    hide Dealt, Chunk;
    DealtOne(b);
    var tree := new FixedMerkleTree(hash);
    var w := tree.Write([b]);
    OneWaits(tree, b);
    ReloadAndFinalize(tree, []);
    leaves := tree.Leaves[..];
  }

  lemma OneWaits(tree: FixedMerkleTree, b: byte)
    requires tree.Valid() && !tree.isFinal && tree.Stream == [] + [b]
    ensures tree.writeBytes[..tree.writeCount] + [] == [b]
  {
    hide Dealt;
    assert tree.writeCount == 1;
  }

  lemma DealtOne(b: byte)
    ensures Dealt([b], 0) == [b] && Dealt([], 0) == []
  {
    assert [b][..0] == [];
  }
}
