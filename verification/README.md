# Verified model of the 0chain Go SDK core

This project models, in Dafny, the parts of the SDK that other code has to trust: the three Merkle structures of
`core/util`, the concurrent submission of a transaction, the checks that decide whether a transaction is confirmed,
and the in-place changes to a directory tree. Each loop, array and object that the Go code updates in place is a
method, array or class here, proved against a function on values; the properties are then proved about that function
or as invariants. `dafny verify dfyconfig.toml` checks everything.

## What is modelled

**Merkle structures.** `Merkle` defines a tree over leaf values once: bottom-up (`Level`, `Root`) and, independently,
by splitting top-down (`TopDown`); `RootIsTopDown` proves the two equal. A `Rule` says how two nodes are combined and
what becomes of an odd last node. `ValidationTrees` (64KB blocks, a lone node hashed by itself), `FlatTrees` (one flat
array, an odd node paired with itself) and `FixedTrees` (1024 leaves, 64 bytes dealt to each in turn) are the three Go
structures. `RangeProofs` and `FixedPaths` are the verifiers that belong to the first and the third.

SHA3-256 is an arbitrary function parameter. Where a soundness claim needs it, the function is required to give 32
bytes and to have no collision *among the inputs that are really hashed* (`CollisionFree`); an injective function from
all byte strings to 32 bytes does not exist, so a global demand would make the claim empty.

**Submission.** `SubmitProtocol` is a state machine: one worker per miner, the atomic failure counter, the close-once
channel, the buffered channel and the single select. A run is any interleaving of its steps.

**Confirmation.** `BlockHashing` has the eight-field serialisation and hash-linked chains; `Rands` draws without
replacement; `OptimisticVerification` and `TrustedVerification` are the two verifiers; `RoundQuorums` and `QueryTallies`
are the tallies over replies. Replies are arbitrary values in arbitrary order.

**Directory trees.** `RefTrees` has the tree objects with their mutable paths, ids and child lists; `TreeWalks` is the
loop over the fields of a path that `createdir.go` and `copyobject.go` share; `CreateDirs` and `CopyObjects` are the two
changes. The copied object is an arbitrary finite tree of nodes that are not in the destination tree.

## Where the code does less than one might expect

- `VerifyMultipleBlocks` compares only the first hash that is left at the top. `RangeProofSound` proves, for siblings of any
  length, that an accepted answer is a run of the file's blocks if only this first hash has blocks of the data below it
  (`Reach`, a number that depends on the block count and the shape of `Index` alone; one hash at the top is a special case,
  `ReachInTop`). `LastBlockIgnored` proves that otherwise the last block has no influence on the verdict at all, and
  `ExtraDataAccepted` gives an example. Nor does it compare the range or the number of blocks with what was asked for, and its
  caller in `zboxcore/sdk/blockdownloadworker.go` takes `Index` from the answer: every other range of the file is accepted in
  place of the requested one (`RangeProofComplete`). `StartAt` gives the first block of an accepted range from the shape of
  `Index`; with the shape of a range s..e it is s (`HonestShapeSound`), but there can be fewer blocks (`FewerBlocksAccepted`).
- `ComputeTree` combines nodes with another function than the package's `VerifyMerklePath` does, so the pair function is
  a parameter of both and a path is only claimed to verify with the function its tree was made with.
- `FixedMerklePath.VerifyMerklePath` checks neither the number of nodes nor the range of the index. With h <= 10 nodes an
  accepted path carries a node h levels below the root, numbered by the last h bits of the index (`FixedPathSound`); only with
  ten is it a leaf's hash (`LeafPathSound`). Nor does it check the length of the leaf hash, which has to be 32 bytes for this
  (`LengthDecides`, with an example in `ByteMoved`). With more than ten nodes an accepted path leads from any bytes to the hash
  of a leaf and then up that leaf's sibling path (`LongPathSound`, with an example in `PartOfLeafAccepted`). A negative index
  counts as its absolute value.
- `validateChain` looks at its length condition only after it has received a header. With a required length of one it may
  therefore link one block more than needed: `LinkedOnReturn` gives the exact count, `OneBlockTooMany` an example.
- The serialisation of a header tells it apart from every other one exactly when its string fields have no colon:
  `TellsApartIffColonFree`, with the other header built by `ColonsCollide`. For a chain it is enough that one of two chains is
  free of colons (`ChainIsFixedByLastHash`).
- `getBlockInfoByRound` gives up only from 76 per cent of failures on, as the percentage is rounded down (`GiveUpIff`); this is
  safe all the same (`AbortIsSafe`).
- With no miners at all a submission never completes: the "if and only if" of `StuckMeansCompleted`.
- `FixedMerkleTree.Reload` resets the leaves but not the bytes waiting in the buffer; they become the start of the new
  stream. A reload gives the leaves of the reader's data exactly when no bytes were waiting (`ReloadAndFinalize`;
  `ReloadKeepsWaiting` is an example).
- The optimistic verifier looks the confirming sharder up by the URL of its request. If that URL is not written as the
  verifier built it, no sharder is removed, and the confirming one may supply blocks as well: the lookup is a parameter of
  `VerifyTransactionOptimistic`, `KeptOutIffFound` gives the exact condition and `ConfirmsAndSupplies` a run.
- The flat tree's root fixes the leaves only together with their number (`FlatRootCommits`): an odd number of leaves has the
  root that it has with its last leaf twice (`LastLeafTwice`).
- A copy panics exactly when the fields of its destination lead to a file, where creating a directory returns an error
  (`Obstructed`; `CopyBelowFile` and `FileIsNoDirectory` are examples). Otherwise it succeeds exactly when the destination is
  written in the clean form (`CleanIffOwnFields`); if not, it creates the directories on the way and then fails with "object
  not found" (`CopyToTrailingSlash` is an example).
- A root path written in an unusual way ("//") gives one empty path field, and "/" gives none (`SlashesAreOne`,
  `FieldsAreNames`).

## Model

| member | source | states |
|---|---|---|
| Levels.RoundsReachOne | core/util/validation_tree.go:93-107 | for every n >= 1, ceil(log2 n) rounds of (m+1)/2 leave exactly one node and fewer leave two or more |
| Levels.WidthStaysOne | core/util/validation_tree.go:93-107 | further rounds keep one node, so a higher round limit changes nothing |
| Levels.TreeSizeBounds | core/util/merkle_tree.go:30-43 | the levels over n leaves fill between 2n-1 and 2n-1+ceil(log2 n) slots |
| Merkle.RootIsTopDown | core/util/validation_tree.go:97-131 | climbing level by level gives the value of the top-down recursive definition, for either rule and every leaf count |
| Merkle.FoldSiblingPath | core/util/merkle_tree.go:14-28 | folding the neighbours of a leaf and its ancestors gives the ancestor that many levels up |
| Merkle.ParentsOfRun | core/util/validation_tree.go:271-293 | pairing up a run that starts at an even node and ends at a pair's end or the level's end gives the matching run of parents |
| Merkle.EqualInputs | core/util/validation_tree.go:271-293 | without collisions equal parents are made from the same bytes |
| Merkle.ThreeLeaves | core/util/validation_tree.go:271-293 | an instance: the roots of three leaves under the two rules, written out |
| ValidationTrees.NextLevel | core/util/validation_tree.go:271-293 | the pairing loop computes the parents of any number of nodes, a lone last one hashed by itself |
| ValidationTrees.ValidationTree.constructor | core/util/validation_tree.go:152-160 | an empty tree with one slot for each 64KB block |
| ValidationTrees.ValidationTree.Write | core/util/validation_tree.go:52-91 | takes all of the bytes or, finalized or too long, none; leafIndex*64KB + writeCount is the number of bytes written, the filled leaves are the hashes of the whole blocks, and no leaf index leaves the array |
| ValidationTrees.ValidationTree.Finalize | core/util/validation_tree.go:133-150 | the three outcomes; afterwards every leaf is the hash of its block of the stream |
| ValidationTrees.ValidationTree.CalculateDepth | core/util/validation_tree.go:93-95 | the depth suffices: depth-1 rounds reach one node |
| ValidationTrees.ValidationTree.CalculateRoot | core/util/validation_tree.go:97-131 | the loop with its round limit computes the recursive root of the leaves, which after Finalize is the root of the written stream |
| ValidationTrees.HashStream | core/util/validation_tree.go:52-150 | however data is cut into writes, the root is that of the whole data |
| RangeProofs.HashBlocks | core/util/validation_tree.go:225-236 | the hashes of the 64KB blocks of the data |
| RangeProofs.MerklePathForMultiLeafVerification.CalculateRequiredLevels | core/util/validation_tree.go:295-304 | the required depth is ceil(log2) of the block count, plus one |
| RangeProofs.MerklePathForMultiLeafVerification.AddSiblings | core/util/validation_tree.go:241-257 | two siblings go to the left and to the right; one goes to the right if its index is 1 and to the left otherwise |
| RangeProofs.MerklePathForMultiLeafVerification.VerifyMultipleBlocks | core/util/validation_tree.go:223-269 | the verdict is that of climbing level by level with the supplied siblings; indexing panics exactly when some level of the proof is too short, and no data is reported exactly when there is none and no level adds a sibling |
| RangeProofs.ExtendRun | core/util/validation_tree.go:241-257 | a run with the left sibling iff it starts odd and the right one iff it ends even and not last pairs up into the run of parents |
| RangeProofs.RangeProofComplete | core/util/validation_tree.go:185-269 | for every file and range s..e the honest siblings are accepted; levels from which on none is needed may be left out |
| RangeProofs.WholeFileNeedsNone | core/util/validation_tree.go:172-174 | the whole file is accepted with no siblings at all |
| RangeProofs.OwnNode | core/util/validation_tree.go:241-257 | a hash below a parent that is the tree's own is the tree's own, whatever sibling of whatever length was supplied beside it |
| RangeProofs.ClimbedRun | core/util/validation_tree.go:241-257 | hashes that are all below the first top hash, which is the root, are a run of their level |
| RangeProofs.RangeProofSound | core/util/validation_tree.go:223-269 | if the data reaches only the first top hash, acceptance means that it is a contiguous run of the file's blocks, which starts where the shape of the proof says; siblings may have any length |
| RangeProofs.HonestStart | core/util/validation_tree.go:241-257 | with the index of a range s..e that start is block s |
| RangeProofs.HonestReach | core/util/validation_tree.go:241-257 | with the index of a range s..e that many blocks or fewer reach only the first top hash |
| RangeProofs.HonestShapeSound | core/util/validation_tree.go:223-269 | with the index of a range s..e accepted data of up to e-s+1 blocks is the file's from block s on, and of e-s+1 blocks exactly the range |
| RangeProofs.FewerBlocksAccepted | core/util/validation_tree.go:241-268 | an instance: two blocks are accepted with the index of three |
| RangeProofs.ReachInTop | core/util/validation_tree.go:259-268 | the condition holds in particular when one hash is left at the top |
| RangeProofs.ClimbCount | core/util/validation_tree.go:241-257 | how many hashes are left depends on the block count and the shape of the proof alone |
| RangeProofs.LastBlockIgnored | core/util/validation_tree.go:259-268 | if the data reaches a second top hash, any other last block gets the same verdict: the condition of RangeProofSound is exact |
| RangeProofs.ExtraDataAccepted | core/util/validation_tree.go:259-268 | an instance: one true block followed by any bytes is accepted |
| RangeProofs.ClimbFails | core/util/validation_tree.go:241-257 | whether indexing panics depends on the lengths in the proof alone: iff some level below the top has fewer siblings or entries than it is read for; no hash is left iff there were none and no level adds any |
| RangeProofs.TwoBlockFile | core/util/validation_tree.go:14-17 | an instance: of a file of two blocks the first is accepted with its sibling under 1 and the second with its sibling under 0, and empty data is not |
| FlatTrees.VerifyMerklePath | core/util/merkle_tree.go:14-28 | the loop folds the path, left of odd and right of even indices, negative ones included, and compares with the root |
| FlatTrees.MerkleTree.ComputeSize | core/util/merkle_tree.go:30-43 | slots and levels for every leaf count, 0 and 1 included |
| FlatTrees.FlatSizeBounds | core/util/merkle_tree.go:30-43 | for n >= 2 there are ceil(log2 n)+1 levels and between 2n-1 and 2n-2+levels slots |
| FlatTrees.SmallTrees | core/util/merkle_tree.go:30-43 | levels and slots of trees with up to three leaves |
| FlatTrees.MerkleTree.ComputeTree | core/util/merkle_tree.go:46-67 | the filled array holds, level after level, the pairwise combination of the level below with an odd node paired with itself |
| FlatTrees.MerkleTree.FillLevel | core/util/merkle_tree.go:59-65 | one round writes exactly the parents; the provisional value of an odd level, read across the level's end, is overwritten |
| FlatTrees.MerkleTree.GetRoot | core/util/merkle_tree.go:70-72 | the recursive root of whatever leaves the array is the flat tree of |
| FlatTrees.LastSlotIsRoot | core/util/merkle_tree.go:70-72 | the last slot of a computed array is the recursive root |
| FlatTrees.MerkleTree.SetTree | core/util/merkle_tree.go:80-89 | accepts an array iff its length fits the leaf count, and then serves the same tree |
| FlatTrees.MerkleTree.GetLeafIndex | core/util/merkle_tree.go:92-100 | the first position of the leaf, or -1 if it is not one |
| FlatTrees.MerkleTree.GetPath | core/util/merkle_tree.go:103-109 | for any array of the right size: the path of the first slot among the leaves that holds the hash, or an empty path |
| FlatTrees.MerkleTree.GetPathByIndex | core/util/merkle_tree.go:118-148 | for any array of the right size: every access is in range and there are levels-1 nodes, the slots of the neighbours on the way up; if the array is a tree, they are the leaf's sibling path |
| FlatTrees.PathFoldsToRoot | core/util/merkle_tree.go:118-148 | the path of every leaf of every tree, n = 1 included, folds to the root |
| FlatTrees.FlatRootCommits | core/util/merkle_tree.go:46-72 | equal roots over equally many leaves mean equal leaves, if no two combined pairs collide |
| FlatTrees.LastLeafTwice | core/util/merkle_tree.go:58-66 | without the count they do not: repeating the last of an odd number of leaves keeps the root |
| FlatTrees.EveryPathVerifies | core/util/merkle_tree.go:46-148 | compute, hand the array to another tree, take a path, verify: accepted for every leaf, with the tree's pair function |
| FixedTrees.FixedMerkleTree.constructor | core/util/fixed_merkle_tree.go:79-95 | fresh leaves and an empty buffer |
| FixedTrees.FixedMerkleTree.WriteToLeaves | core/util/fixed_merkle_tree.go:99-123 | each leaf gains its 64-byte chunk; exactly when the two size guards fire, and then nothing changes |
| FixedTrees.FixedMerkleTree.Write | core/util/fixed_merkle_tree.go:131-157 | all bytes are taken unless the tree is final: the guards never fire; whole rounds are in the leaves, the rest waits in the buffer |
| FixedTrees.FixedMerkleTree.Finalize | core/util/fixed_merkle_tree.go:64-76 | once; afterwards leaf k has absorbed the bytes at positions p with (p mod 64KB)/64 = k, in order |
| FixedTrees.DealtRound | core/util/fixed_merkle_tree.go:108-120 | dealing out one more round appends its k-th chunk to leaf k |
| FixedTrees.DealtByte | core/util/fixed_merkle_tree.go:99-157 | byte number p of a stream goes to leaf (p mod 65536)/64 and to no other |
| FixedTrees.DealtConserves | core/util/fixed_merkle_tree.go:99-157 | the lengths the leaves have absorbed sum to the length of the stream |
| FixedTrees.FixedMerkleTree.InitLeaves | core/util/fixed_merkle_tree.go:90-95 | the leaves are empty again, the buffer is as it was |
| FixedTrees.FixedMerkleTree.Reload | core/util/fixed_merkle_tree.go:219-248 | the new stream is the waiting bytes followed by what the reader gives before its end or its error; a final tree loses its leaves and refuses data |
| FixedTrees.FixedMerkleTree.CalculateMerkleRoot | core/util/fixed_merkle_tree.go:164-185 | the loop reaches the recursive root of the 1024 leaf hashes in ten rounds, without reading past an odd end |
| FixedTrees.FixedWidths | core/util/fixed_merkle_tree.go:170-182 | 1024 leaves make ten rounds of an even number of nodes |
| FixedTrees.DealStream | core/util/fixed_merkle_tree.go:64-157 | any split of a stream into writes, then Finalize, gives the same dealt leaves |
| FixedTrees.ReloadStream | core/util/fixed_merkle_tree.go:219-248 | Reload of a fresh tree gives the leaves that one write of the whole stream gives |
| FixedTrees.ReloadAndFinalize | core/util/fixed_merkle_tree.go:219-248 | for every tree that is not final, the leaves after Reload and Finalize are those of the reader's data iff no bytes were waiting |
| FixedTrees.WaitingShows | core/util/fixed_merkle_tree.go:99-157 | bytes put in front of a stream change some leaf |
| FixedTrees.ReloadKeepsWaiting | core/util/fixed_merkle_tree.go:219-248 | an instance: a byte written before an empty reload is in the first leaf |
| FixedPaths.VerifyMerklePath | core/util/fixed_merkle_tree.go:195-207 | the loop folds the path and compares with the root; a negative index takes the turns of its absolute value |
| FixedPaths.FixedPathComplete | core/util/fixed_merkle_tree.go:164-207 | the sibling path of each of the 1024 leaves verifies |
| FixedPaths.SameChildren | core/util/fixed_merkle_tree.go:195-207 | without collisions only a parent's own children hash to it, when one of the two has 32 bytes |
| FixedPaths.FixedPathSound | core/util/fixed_merkle_tree.go:195-207 | an accepted path of h <= 10 nodes, of any length each, with any index and a 32-byte leaf hash, carries the node of level 10-h that the last h bits of the index number, and exactly that node's sibling path |
| FixedPaths.LengthDecides | core/util/fixed_merkle_tree.go:195-207 | an accepted path of at most ten nodes carries a node of the tree iff its leaf hash has 32 bytes |
| FixedPaths.ByteMoved | core/util/fixed_merkle_tree.go:195-207 | a family of accepted paths with a longer leaf hash |
| FixedPaths.LeafPathSound | core/util/fixed_merkle_tree.go:195-207 | with ten nodes it carries the leaf's true hash and exactly the leaf's sibling path |
| FixedPaths.LongPathSound | core/util/fixed_merkle_tree.go:195-207 | an accepted path of more than ten nodes: the fold of all but the last ten is the hash of the leaf that the remaining index bits number, and the last ten are its sibling path |
| FixedPaths.PartOfLeafAccepted | core/util/fixed_merkle_tree.go:195-207 | a family of such paths: part of what a leaf hashes, with the rest as the first of eleven nodes |
| SubmitProtocol.StepKeepsInv | zcncore/transaction_base.go:342-400 | every step of every interleaving keeps the invariant on counter, channels, answers and completion |
| SubmitProtocol.RunKeepsInv | zcncore/transaction_base.go:342-400 | hence every state of every run has it |
| SubmitProtocol.SubmitSafety | zcncore/transaction_base.go:342-400 | failC is closed at most once, and only by a worker without a response; no send waits, as fewer than n responses are in the channel; at most one completion, which is a success iff some miner answered 200 |
| SubmitProtocol.StuckMeansCompleted | zcncore/transaction_base.go:384-400 | a run that can go no further has all workers done and one completion iff there is at least one miner |
| SubmitProtocol.StepLowersRank | zcncore/transaction_base.go:342-400 | every step lowers a rank |
| SubmitProtocol.RunsAreShort | zcncore/transaction_base.go:342-400 | no run has more than 2n+1 steps |
| BlockHashing.ValidateBlockHash | core/transaction/utils.go:258-281 | the string that is built piece by piece is the joined list of the eight fields; accepted iff the hash is that of the eight parts with colons between them, written out in their order |
| BlockHashing.FormatIntInjective | core/transaction/utils.go:264-270 | different integers have different decimal forms |
| BlockHashing.JoinInjective | core/transaction/utils.go:259-275 | colon-free fields can be recovered from the joined string |
| BlockHashing.SerializeInjective | zcncore/transaction_base.go:711-716 | a header without colons in its string fields shares its serialisation only with headers of the same hashed fields |
| BlockHashing.ReadBack | core/transaction/utils.go:259-275 | cutting the serialisation of a colon-free header at the colons gives eight parts: minerID, previousHash, the four integers with their signs, and the two roots, in this order |
| BlockHashing.ValidateExample | core/transaction/utils.go:259-278 | an instance: the hashed text is "m:p:1:2:3:4:r:q" |
| BlockHashing.ExtendsByText | zcncore/transaction_base.go:711-716 | a block extends one with a given hash iff its own is the hash of the written-out text with that hash in second place |
| BlockHashing.OwnPreviousIgnored | zcncore/transaction_base.go:711-716 | what the block itself names as its predecessor has no influence on that |
| BlockHashing.OnePredecessor | zcncore/transaction_base.go:711-716 | a colon-free block extends blocks of one hash only, if the two texts do not collide |
| BlockHashing.ColonsCollide | zcncore/transaction_base.go:711-716 | for every header with a colon in a string field there is a different one that serialises alike |
| BlockHashing.TellsApartIffColonFree | zcncore/transaction_base.go:711-716 | the serialisation tells a header apart from all others iff its string fields have no colon |
| BlockHashing.ChainIsFixedByLastHash | core/transaction/utils.go:189-212 | any accepted chain with the last hash of a colon-free one agrees with it on all eight fields at every position both have, counted from the end |
| Rands.Rand.constructor | core/util/rand.go:90-101 | all numbers below max are left |
| Rands.Rand.Next | core/util/rand.go:73-87 | some number that was left, which is then gone; ErrNoItem iff none was left |
| Rands.DrawAll | core/util/rand.go:67-101 | all n draws are the numbers below n in some order, and the next draw fails |
| Rands.Shuffle | core/util/rand.go:37-45 | the same items, as a multiset |
| OptimisticVerification.OptimisticVerifier.constructor | core/transaction/utils.go:28-47 | nothing has been asked yet |
| OptimisticVerification.OptimisticVerifier.Ask | core/transaction/utils.go:229-231 | one query is logged with the network's reply |
| OptimisticVerification.OptimisticVerifier.NextBlock | core/transaction/utils.go:218-240 | a sharder whose reply from the network extends the tail, or every sharder was asked for this round and its reply does not |
| OptimisticVerification.OptimisticVerifier.CheckConfirmation | core/transaction/utils.go:165-244 | the chain keeps consecutive rounds, links and valid hashes, each block what the network replied for its source; no error iff long enough or no sharder is left; what the sources and the remaining sharders are together |
| OptimisticVerification.OptimisticVerifier.GetConfirmation | core/transaction/utils.go:129-147 | up to 30 attempts; a chain of one iff some selected sharder's reply has a path that verifies and a block that carries its own hash, and then it is that block |
| OptimisticVerification.OptimisticVerifier.RemoveConfirming | core/transaction/utils.go:148-155 | one occurrence of the sharder that was looked up is removed if it is listed, and nothing otherwise |
| OptimisticVerification.OptimisticVerifier.VerifyTransactionOptimistic | core/transaction/utils.go:49-163 | the outcomes of one call; on success the chain starts with the block of a reply whose path verifies and is hash-linked, and without a confirmation no selected sharder gave such a reply; the removed sharder, the sources and the remaining ones are all sharders exactly; when stuck, each remaining one has refused the next block |
| OptimisticVerification.SourcesDiffer | core/transaction/utils.go:148-155 | over different sharders every block came from a sharder of its own, none of them the removed one |
| OptimisticVerification.NotRemoved | core/transaction/utils.go:148-155 | if the lookup finds no sharder, the confirming one stays among those that are asked |
| OptimisticVerification.KeptOutIffFound | core/transaction/utils.go:148-155 | over different sharders the confirming one supplies no block and is not left to ask iff the lookup finds it |
| OptimisticVerification.ConfirmsAndSupplies | core/transaction/utils.go:49-163 | a run in which the lookup misses and the confirming sharder supplies the second block |
| OptimisticVerification.FailedPathsConfirmNothing | core/transaction/utils.go:119-143 | a run in which every reply has a valid block but a path that does not verify: no confirmation is found |
| OptimisticVerification.ExtendsIffChain | core/transaction/utils.go:186-209 | a reply is taken for the next block iff it makes a chain of two with a valid block before it |
| OptimisticVerification.MinSharders | core/transaction/utils.go:60 | the least number of sharders that is the given percentage of all of them or more |
| TrustedVerification.Verifier.Handle | core/transaction/utils.go:357-403 | the counter is the number of handled sharders that sent a transaction or only a block hash; the transaction kept is the last signed one |
| TrustedVerification.VerifyTransactionTrusted | core/transaction/utils.go:299-435 | no sharder is asked twice, and after the first minimum+1 another one only while too few have confirmed; a transaction is returned only if at least max(1, minimum) of those asked sent a transaction or a block hash; with a positive minimum too few is reported iff fewer than the minimum of all sharders would confirm, whatever is drawn |
| TrustedVerification.BlockHashCounts | core/transaction/utils.go:372-435 | a run: of three sharders one sends the signed transaction, one a block hash only and one fails; two are needed and the transaction is returned |
| RoundQuorums.AbortIsSafe | zcncore/transaction_base.go:674-676 | when the loop gives up no hash can reach the quorum any more, whatever is still to come |
| RoundQuorums.GiveUpIff | zcncore/transaction_base.go:674-676 | the loop gives up at 76 per cent of failures or more, because of the rounding |
| Consensus.QuorumIsQuarter | zcncore/transaction_base.go:703-704 | the threshold is a quarter of the sharders in spite of the rounding |
| RoundQuorums.CountsOneByOne | zcncore/transaction_base.go:678-701 | each reply is one vote for the hash of its header, or one failure if it has none |
| RoundQuorums.OneVoteOfFour | zcncore/transaction_base.go:653-709 | a run: one vote of four sharders finds the header |
| RoundQuorums.GetBlockInfoByRound | zcncore/transaction_base.go:653-709 | a header is found iff some non-empty hash has the votes of a quarter of the sharders, and it is the one whose reply first brings its hash there; too many failures are reported iff they reach 76 per cent before a reply is handled |
| RoundQuorums.FoundInAnyOrder | zcncore/transaction_base.go:653-709 | whether a hash reaches the quorum does not depend on the order of arrival |
| RoundQuorums.FollowedIsLinked | zcncore/transaction_base.go:711-749 | in the blocks that were followed, from the confirmed one on, each hash is that of the written-out text with the hash of the block before in second place |
| RoundQuorums.ValidateChain | zcncore/transaction_base.go:718-749 | it returns after the first header at which enough blocks are linked, and then true: the false branch is never taken |
| RoundQuorums.LinkedOnReturn | zcncore/transaction_base.go:718-749 | exactly the required number of blocks for two or more; one or two otherwise |
| RoundQuorums.UnlinkedIsPassedOver | zcncore/transaction_base.go:735-741 | a run: a block whose hash is not the one it would have after the confirmed block is not linked, and the wait goes on |
| RoundQuorums.OneBlockTooMany | zcncore/transaction_base.go:718-749 | a required length of one with an extending first header links one block |
| QueryTallies.TallyReplies | zcncore/transaction_query.go:290-316 | the running maximum is the highest count of a status below 500, and the kept response has it and is a 200 if a 200 can |
| QueryTallies.GetInfo | zcncore/transaction_query.go:290-337 | success iff 200 came, at least as often as every other status below 500, and from a quarter of the sharders; exactly when each error is returned |
| QueryTallies.TallyInAnyOrder | zcncore/transaction_query.go:290-337 | the tally, hence success, depends on the multiset of replies only |
| QueryTallies.StatusTallyIsCount | zcncore/transaction_query.go:290-316 | the tally of a status is the number of replies with it |
| QueryTallies.ConfirmationTally.Handle | zcncore/transaction_query.go:411-463 | after every reply both tallies, their maxima and the kept headers agree with the replies handled so far |
| QueryTallies.ConfirmedHashesIsCount | zcncore/transaction_query.go:448-450 | the tally of a block hash is the number of replies that confirm with it |
| QueryTallies.LfbHashesIsCount | zcncore/transaction_query.go:430-440 | the other tally is the number of replies that do not confirm and have this latest finalized block |
| QueryTallies.GetConsensusConfirmation | zcncore/transaction_query.go:400-479 | consensus iff some hash was confirmed by at least numSharders replies; then a header with the most confirmed hash, which one of the replies carried |
| Paths.JoinAppends | core/pathutil/path.go:42-61 | joining a name to a path of names appends one part |
| Paths.ItemsAppended | core/pathutil/path.go:42-61 | the parts of two strings with a slash between them are those of the first and then those of the second |
| Paths.JoinParts | core/pathutil/path.go:42-61 | joining any two strings gives the path with the parts of both, and of two empty ones the empty string |
| Paths.PathWritten | core/pathutil/path.go:59 | no part gives "/", and each further part is put behind a slash |
| Paths.ItemsOfPath | core/pathutil/path.go:42-61 | a path splits back into the parts it was made from |
| Paths.PathOfInjective | core/pathutil/path.go:42-61 | different lists of names give different paths |
| Paths.FieldsAreNames | core/common/utils.go:9-21 | the fields are names without dots, or one empty field |
| Paths.FieldsOfCleanPath | core/common/utils.go:9-21 | a clean path is cut into its own parts |
| Paths.NoneIffRelative | core/common/utils.go:10-16 | the error comes iff the path is not empty and does not start with a slash |
| Paths.SlashesAreOne | core/common/utils.go:18-20 | in an absolute path two slashes count as one, and one at the end as none; the root written with two has one empty field |
| Paths.DotLeftOut | core/common/utils.go:18-20 | a part "." of an absolute path can be left out |
| Paths.NameUpLeftOut | core/common/utils.go:18-20 | a name followed by ".." can be left out of an absolute path, wherever it stands |
| Paths.RootUpLeftOut | core/common/utils.go:18-20 | a ".." at the root can be left out |
| Paths.CleanIffOwnFields | core/common/utils.go:9-21 | a path is its own fields put together iff it is written in the clean form |
| Paths.TrailingSlash | core/common/utils.go:9-21 | a slash at the end changes no field but makes the path unclean |
| RefTrees.Ref.AddChild | zboxcore/fileref/fileref.go:169-190 | the child goes before the first child with a greater path, and the others keep their order |
| RefTrees.PrefixIsLess | zboxcore/fileref/fileref.go:177 | a path comes before every longer one that it starts, and not after it |
| RefTrees.FirstDifferenceDecides | zboxcore/fileref/fileref.go:177 | otherwise the first character in which two paths differ decides |
| RefTrees.FindChild | zboxcore/allocationchange/createdir.go:28-44 | the child with the name that no child with it stands before, or none if no child has it |
| RefTrees.InsertedLookup | zboxcore/allocationchange/createdir.go:28-44 | adding a child changes only the lookup of its own name |
| TreeWalks.AddDirectory | zboxcore/allocationchange/createdir.go:45-60 | a new empty directory at the joined path; paths stay consistent with positions |
| TreeWalks.Turn | zboxcore/allocationchange/createdir.go:27-61 | one turn of the loop: enter, create, or be blocked by a file |
| TreeWalks.Enter | zboxcore/allocationchange/copyobject.go:29-55 | the loop stops at a file before anything was created, or ends at the directory of the path; existing nodes and children stay, exactly what was missing is created, each new directory with the next as its only child, and uuid and file ids are the chained ones |
| TreeWalks.FileOnTrail | zboxcore/allocationchange/copyobject.go:31-42 | a trail of directories along the fields to a file named by the next one obstructs the fields |
| TreeWalks.TrailToFile | zboxcore/allocationchange/copyobject.go:31-42 | where the fields are obstructed there is such a trail from the root |
| TreeWalks.BlockedIffObstructed | zboxcore/allocationchange/copyobject.go:31-42 | a walk is blocked iff in the tree before it the fields lead through directories to a file |
| TreeWalks.CreatedIsBooked | zboxcore/allocationchange/createdir.go:45-60 | each created directory has the path of its fields, which is mapped to its own id |
| TreeWalks.OthersStayBooked | zboxcore/allocationchange/createdir.go:56 | all other entries of the file ids stay |
| TreeWalks.NothingMissing | zboxcore/allocationchange/createdir.go:26-61 | a path that was there is found again, name by name |
| CreateDirs.DirCreateChange.ProcessChange | zboxcore/allocationchange/createdir.go:20-65 | a consistent tree stays one and grows by exactly the missing directories; an error iff the path is neither empty nor starts with a slash or a file is in the way, and then nothing changes |
| CreateDirs.FileIsNoDirectory | zboxcore/allocationchange/createdir.go:31-38 | an instance: creating "/a/b" where "/a" is a file is an error |
| CreateDirs.CreateTwice | zboxcore/allocationchange/createdir.go:20-65 | creating a directory again succeeds and changes no node, no child list, no file id and no uuid |
| CopyObjects.CopyFileChange.Settle | zboxcore/allocationchange/copyobject.go:68-74 | one node gets the joined path and the next id, which is derived from the id before and its name; both are entered |
| CopyObjects.CopyFileChange.ProcessChildren | zboxcore/allocationchange/copyobject.go:83-103 | every node below a directory, in preorder, gets its path and the next id of the chain; nothing else changes |
| CopyObjects.CopyFileChange.Attach | zboxcore/allocationchange/copyobject.go:68-77 | the object hangs below the directory with the shape it had, and the whole tree is consistent |
| CopyObjects.CopyFileChange.ProcessChange | zboxcore/allocationchange/copyobject.go:21-81 | exactly when each of the four outcomes comes; a copy keeps every node and child, and from the root a trail along the fields, first the old directories and then new ones each inside the one before, leads to the object with its shape and names; the whole tree is consistent |
| CopyObjects.CopyBelowFile | zboxcore/allocationchange/copyobject.go:33-36 | an instance: copying to "/a/b" where "/a" is a file panics |
| CopyObjects.CopyToTrailingSlash | zboxcore/allocationchange/copyobject.go:57-60 | an instance: copying to "/a/" creates "/a" and then fails |
| CopyObjects.PlacesDiffer | zboxcore/allocationchange/copyobject.go:83-103 | nodes with proper names, different among siblings, go to different paths |
| CopyObjects.CopiedIsBooked | zboxcore/allocationchange/copyobject.go:68-103 | each copied node is at a path below the destination that is mapped to its own id |
| CopyObjects.CreatedStaysBooked | zboxcore/allocationchange/copyobject.go:41-76 | after a copy each created directory is a child of the one before it, has the name and path of its fields, and its path is mapped to its own id |
| CopyObjects.OthersStayBooked | zboxcore/allocationchange/copyobject.go:74-97 | the entries of all other paths stay |

## Left out

- HTTP, retries inside the transport, JSON decoding, hex, timers, sleeping and logging: replies are arbitrary values, and
  an unusable reply is one of them. The 10-second branch of the round query is left out.
- SHA3, SHA1 and BLS themselves: arbitrary functions. `encryption.Hash` is a function from strings to strings, and the
  uuid derivation a function of a uuid and a name.
- Machine integers: counters and sizes are unbounded; the 32-bit failure counter and the 64-bit sizes do not wrap.
- Floating point: the ceiling of the logarithm and of the percentage are exact integer functions.
- The mutexes of the two streaming trees: calls on one tree are taken one after the other.
- Cached roots: a root is computed when asked for. A root read before Finalize or kept over later writes is not modelled.
- RangeProofs.MerklePathForMultiLeafVerification.constructor: asks for a positive data size, because the logarithm of zero
  leaves has no integer value in the source either; empty validation trees are left out for the same reason.
- Leaf hashers of the fixed tree: a leaf is the bytes it has absorbed, and its hash is taken when the root is computed.
- The order in which miners' answers are awaited inside a worker, and the resetting of the stable miners after a failure.
- OptimisticVerification.OptimisticVerifier.GetConfirmation: the outcome of verifyMerklePath is part of a reply, and replies
  of one attempt are handled one after the other until one is accepted. How URLs are printed and read is left out, as is the
  reuse of one verifier, whose sharder slice aliases the caller's.
- QueryTallies.GetConsensusConfirmation: the raw JSON of the block that comes with the header is left out; cancelled replies
  are simply not among the handled ones.
- RoundQuorums.ValidateChain: an endless wait for blocks is a run of fetches that ends in `Waiting`.
- CalculateHash, HashToBeComputed and ChildrenLoaded of tree nodes, and sizes and hashes of files. A file reference is a
  node of kind FILE without children.
- CopyObjects.CopiedIsBooked: needs names that can stand in paths and differ among siblings; otherwise two nodes can share a
  path and the later one's id is kept.
- Wallets, signature schemes, the Ethereum bridge, players, mobile and wasm bindings, allocation caches and configuration:
  wrappers over code that is not part of this model.
