# Dafny models of the block tree, its codecs and its arithmetic

These files model the parts of the node that have to be right by construction, and prove that they are:

- **Chain selection.** The tree of block index entries, its skip list, the path arrays `chainActive` and
  `chainMostWork`, locators, and the step-by-step code of `ActivateBestChain`, `FindMostWorkChain`,
  `InvalidateBlock`, `ReconsiderBlock` and `AddToBlockIndex` (`BlockTree`, `SkipList`, `BlockChain`,
  `ChainSelection`, `ChainRuns`). What each call does is a relation between values (`SelectionRules`, `Activation`,
  `ChainEvents`), and the laws are proved about every call and every run of that relation (`ActivationLaws`,
  `FlaggedBlocks`, `RunLaws`, `ForkedRun`). `SearchPasses` says when the loop of `FindMostWorkChain` ends.
- **Partial Merkle trees.** The encoder, the decoder, the packing of the flag bits, the size on the wire, and the
  block's own Merkle tree (`MerkleShape`, `PartialMerkle`, `MerkleSize`, `MerkleTree`).
- **256-bit numbers** in eight words, and the compact format (`Words`, `ArithUint256`, `Compact`).
- **Codecs.** Base 58 text with and without checksum (`Positional`, `Base58`), variable-length integers
  (`VarInt`), and the rewindable ring buffer in front of a file (`FileMachine`, `BufferedFile`).
- **Checked arithmetic.** 64-bit multiplication, addition and subtraction that notice overflow, and the decimal
  parser built on them (`SafeInt`).

`Arithmetic`, `Bits`, `Bytes` and `Wrappers` hold what several of them need.

Code that changes state in the source is a class or a method over an array here, with the same loops and
branches. Each such method is proved against a specification function or predicate, and the lemmas prove what
the source promises about that specification.

What the code asks of the world outside is a parameter:

- The answers of reading, connecting and disconnecting blocks, the time-out of the local final block, and whether an
  index entry can be written are functions in an `Environment`. Every question carries a running number, so the same
  question may be answered differently each time. A block that is rejected is always flagged: every `DoS` call in `ConnectBlock` leaves the
  corruption flag at its default (src/main.h:141-145).
- Hashes are arbitrary functions. Soundness of partial Merkle trees is proved without any assumption on the hash:
  the proof either shows that the ids are real or returns two different pairs with the same hash.
- The file below the ring buffer is a byte sequence, and `fread` delivers as much as an arbitrary function says.

## Findings

Where a promise does not hold for every input, the model keeps the code as it is, a member shows an input for
which it fails, and another one states exactly when it holds.

- **An invalidated block can become active again.** If `chainMostWork` is not active, because finality or a failing
  disconnect keeps the active chain where it is, and `InvalidateBlock` flags a block in its middle, the tip of
  `chainMostWork` stays unflagged. `FindMostWorkChain` flags the tip later but keeps it, and the next activation
  connects the invalidated block. `ForkedRun.InvalidatedBecomesActive` shows this for every run of six events from
  the empty state, and `ForkedRun.RunIt` carries such a run out. From an active chain without flags, and if a block
  found invalid is never found valid later, a call of `ActivateBestChain` makes a flagged block active exactly if one
  is next (`FlaggedBlocks.CallReaches`): `chainMostWork` without its flagged upper end has a
  flagged block, no unflagged block with a clean way back is better than its tip, no final block would be dropped,
  and everything up to the flagged block is disconnected and connected at its question. An invalidation keeps the
  invariant that excludes this exactly if it is harmless (`RunLaws.InvalidateProtects`).
- **A failing invalidation** leaves a flagged block active. `RunLaws.FlaggedRootStays` shows it for the root as the only
  block. If all writes succeed, an invalidation leaves no flagged block active exactly if every active block from the
  given one up can be disconnected (`RunLaws.InvalidateUnflags`); one that ends at a failing write does so exactly if
  the given block was not active (`RunLaws.FailedWriteUnflags`).
- **A failing write of a flag** can make `FindMostWorkChain` run forever: `InvalidateBlockIndex` sets the flag before the
  write and takes the block off the candidates only after it (src/main.cpp:544-553), and for a flagged candidate the
  loop flags and drops nothing (src/main.cpp:1455-1473). `SearchPasses.SearchNeverEnds` shows it for two blocks.
  `SearchPasses.SearchEnds` says exactly when the loop ends, from whatever candidates and flags, and
  `SearchPasses.FailedWriteMayBlockSearch` when it does after such a write.
- **Flag bits of a partial Merkle tree.** The remark of at most `2*N-1` flag bits for `N` hashes
  (src/chain/merkletree.h:43) holds exactly if no traversed node has a single child. Three ids of which the last is
  selected take four bits and two hashes. What does hold is `2*N-1` plus the height.
- **The "hard guarantee" on the size** of a partial Merkle tree (src/chain/merkletree.h:27-30) fails by one byte for
  1012 ids that are all selected. `MerkleSize.ClaimHolds` says exactly when it holds, from two numbers that can be told
  from the mask: how many nodes the traversal stops at, and how many single children it meets.
- **`x *= x`** gives zero, because the product is cleared before the factor is read.
- **Rewinding a buffered file.** The class comment promises that a given number of bytes can be rewound, but
  `SetPos` counts from the source position, so what has been read ahead counts too. Once a byte has been looked at,
  even the current reading position may be refused (`FileMachine.CurrentPositionRefused`). And a position near 2^64
  makes the sum in `SetPos` wrap around; early in the file that leaves a reading position past the source position
  (`FileMachine.WrappedPosition`). `FileMachine.SetPosMeans` says exactly when.
- **Two rows of the table of variable-length integers** (src/commons/serialize.h:305-306, for 16511 and 65535)
  differ from what the loops compute.

## Model

| member | source | states |
|---|---|---|
| BlockTree.AncestorOfAncestor | src/main.cpp:2028-2048 | ancestors of ancestors are ancestors: the law that makes heights a valid address on a way back |
| BlockTree.GreatestExists | src/persistence/block.h:308-326 | the comparator orders the entries of a tree totally: every non-empty set has a greatest one |
| SkipList.SkipHeightDecreases | src/main.cpp:2015-2026 | a skip pointer leads strictly towards the root |
| SkipList.StepLowersBound | src/main.cpp:2028-2048 | every step of a walk to the root lowers a bound that counts one bits |
| SkipList.WalkBoundIsSmall | src/main.cpp:2017-2026 | that bound is at most one more than the number of one bits of the height |
| SkipList.GetAncestor | src/main.cpp:2028-2048 | the walk over skip pointers finds the same block as the parent walk, null exactly outside the heights, and reaches height 0 in at most 1 + (one bits of the height) iterations |
| SkipList.BuildSkip | src/main.cpp:2054-2057 | the new skip pointer is the ancestor at the skip height |
| SkipList.SkipsExtend | src/main.cpp:1607-1612 | a block made with it keeps all skip pointers right |
| BlockChain.OverwrittenPath | src/chain/chain.cpp:53-56 | why SetTip may stop at the first slot that is right: the slots below already hold the new tip's ancestors |
| BlockChain.Chain.SetTip | src/chain/chain.cpp:47-58 | afterwards slot i holds the tip's ancestor at height i, and the result is the highest block of the new chain that the old one had |
| BlockChain.Chain.ContainsIsAncestor | src/chain/chain.cpp:30-32 | a chain contains exactly the blocks on the way back from its tip |
| BlockChain.Chain.NextIsChild | src/chain/chain.cpp:34-40 | Next is the block of the chain whose parent is the given one; of the chain's blocks only the tip has none |
| BlockChain.Chain.GetLocator | src/chain/chain.cpp:60-90 | terminates; entries fall strictly from the start to height 0, from the second on lie on the chain and on the start's way back; each is the highest such block a step below the one before, with steps of one for the first twelve entries that double afterwards; at most 12 + log2(height) entries; the step does not overflow |
| BlockChain.LocatorHeights | src/chain/chain.cpp:60-90 | the heights in the locator of a block of the chain: entry i is i below it for i up to 11, then 9 + 2^(i - 10) below, and 0 at the end |
| BlockChain.Chain.FindFork | src/chain/chain.cpp:92-104 | the first entry that the chain holds; without one, its genesis block, or null for an empty chain |
| BlockChain.KnownUpToFork | src/chain/chain.cpp:94-101 | a chain knows exactly those ancestors of a block that are at or below their last common block |
| BlockChain.ForkOfLocator | src/chain/chain.cpp:92-104 | the fork found for another chain's locator is its highest entry at or below the true last common block |
| ChainSelection.ChainState.FirstFailed | src/main.cpp:1455-1472 | the first flagged block on the way from a candidate to the active chain, the candidate included, or none and the way is clean |
| ChainSelection.ChainState.FlagChildren | src/main.cpp:1462-1467 | exactly the blocks above the flagged one get flagged and leave the candidates |
| ChainSelection.ChainState.TrimMostWork | src/main.cpp:1438-1442 | chainMostWork, and with it the candidate set, loses exactly its flagged upper end |
| ChainSelection.ChainState.BestCandidate | src/main.cpp:1444-1477 | for any candidates and flags for which the loop ends: it terminates with the greatest candidate left, whose way back is clean; it flags exactly the blocks above the first flagged one on the way of each candidate that it drops; if exactly the unflagged blocks were candidates, they still are |
| ChainSelection.ChainState.FindMostWorkChain | src/main.cpp:1433-1485 | terminates under the exact condition of SearchEnds; from exact candidates it is the search: chainMostWork becomes the trimmed old path or the path of the greatest unflagged block with a clean way back; new flags only on blocks with a flagged proper ancestor off the active chain; candidates stay exactly the unflagged blocks |
| SearchPasses.SearchEnds | src/main.cpp:1444-1477 | from whatever candidates and flags, the loop ends after some number of passes exactly if no flagged candidate off the active chain is better than every candidate with a clean way back |
| SearchPasses.SearchFlagsExactly | src/main.cpp:1444-1477 | exactly which blocks a search that ends with its best candidate has flagged: those above the first flagged block on the way of a better candidate, by the flags at the start |
| SearchPasses.FailedWriteMayBlockSearch | src/main.cpp:544-553 | after a failing write of a candidate off the active chain, the next search ends exactly if it trims the candidate off, or some candidate with a clean way back is better than it |
| SearchPasses.SearchNeverEnds | src/main.cpp:544-553 | two blocks, the second not tried yet, and a failing write of its flag: no number of passes ends the search |
| ActivationLaws.SearchedTipIsGreatest | src/main.cpp:1444-1485 | after the search no candidate is better than the tip of chainMostWork |
| ActivationLaws.KeptUnlessBeaten | src/main.cpp:1479-1484 | the search keeps the trimmed path exactly if no unflagged block with a clean way back is better than its tip |
| SelectionRules.InstalledTipIsGreatest | src/main.cpp:1444-1484 | a newly installed tip is the greatest of all blocks that were unflagged with a clean way back before the search |
| SelectionRules.ActiveStaysUnflagged | src/main.cpp:1453-1472 | the search never flags an active block |
| SelectionRules.FlaggedTipIsNew | src/main.cpp:1438-1442 | a flagged tip that the search keeps was flagged by this very search |
| ChainSelection.ChainState.DisconnectTip | src/main.cpp:1343-1389 | the active path loses its last block if disconnecting it succeeds, and stays otherwise |
| ChainSelection.ChainState.ConnectTip | src/main.cpp:1391-1431 | under the source's assertion as precondition: the path gains the accepted block, a rejected one is flagged and leaves the candidates, a system failure changes nothing |
| ChainSelection.ChainState.FinalityHolds | src/main.cpp:1519-1545 | the loop is the walk of the specification, question by question, with the change of the local final block at a time-out |
| ActivationLaws.WalkPassesNoFinal | src/main.cpp:1519-1545 | if the walk is not held, no dropped block is globally final, nor locally final unless it timed out at one of the questions of this walk |
| ActivationLaws.WalkIs | src/main.cpp:1519-1545 | exactly when the walk is held, how many questions it asks and what becomes of the local final block: a dropped global final block holds it, a dropped local one unless it times out; then the local final block is the root, which holds the walk if it is dropped too and does not time out |
| ActivationLaws.RoundIsDecided | src/main.cpp:1487-1545 | a round goes on exactly if the walk is not held; if it is held, a new block on top of the active tip is tried and becomes the tip, is flagged, or makes the call fail by the answer to the last question, and any other block changes nothing |
| ActivationLaws.FreeRoundEnds | src/main.cpp:1547-1576 | a round that goes on ends with all of chainMostWork active, or right at the block that the last question was about: the next one of chainMostWork if it was rejected or failed, the tip if it could not be disconnected |
| ActivationLaws.RoundMoves | src/main.cpp:1547-1576 | over a round a block leaves the active chain only by a successful disconnect, and joins it only by being accepted |
| ActivationLaws.WalkIsHeldByFinal | src/main.cpp:1519-1545 | it is held only by a final block that would be dropped, or by the root after a time-out |
| ActivationLaws.WalkGoesOn | src/main.cpp:1519-1545 | it goes on, without a question, if no final block would be dropped |
| ChainSelection.ChainState.DisconnectToFork | src/main.cpp:1547-1554 | the active blocks above the fork are disconnected one by one; at the first failure the rest stays |
| ChainSelection.ChainState.ConnectToMostWork | src/main.cpp:1556-1576 | from the fork, blocks of chainMostWork are connected in order up to the first one that is not accepted, each at its question; a rejected one is flagged |
| ChainSelection.ChainState.ConnectBlockOnFinChain | src/main.cpp:1487-1504 | a block on top of the active tip is tried, exactly once: accepted, rejected and flagged, or failed; any other block changes nothing |
| ChainSelection.ChainState.Reorganise | src/main.cpp:1547-1576 | both inner loops together |
| SelectionRules.RejectionProgress | src/main.cpp:1556-1570 | a round that ends in a rejection leaves strictly fewer unflagged blocks, also if the rejected block was flagged before |
| ChainSelection.ChainState.OneRound | src/main.cpp:1511-1577 | one pass of the outer loop: search, finality walk, and what follows |
| ActivationLaws.RetryHasFewerCandidates | src/main.cpp:1556-1570 | a round that retries has strictly fewer candidates |
| ActivationLaws.RoundKeepsFinal | src/main.cpp:1511-1577 | a final block stays on the active chain over a round: the global one, and the local one unless it times out at a question of this round's finality walk |
| ActivationLaws.RoundJustifiesFlags | src/main.cpp:1511-1577 | flags are only added, each to a block that was found invalid or descends from a flagged one |
| ActivationLaws.CallFrame | src/main.cpp:1511-1577 | over all rounds of a call flags stay justified, and there are no more retries than candidates |
| ActivationLaws.CallOutcome | src/main.cpp:1511-1588 | whatever was rejected on the way: on completion both chains have the same tip and no candidate is better; with nothing to do there is no candidate; finality ends a call only if a final block would be dropped, failure only if a question was answered so |
| ActivationLaws.TipWins | src/persistence/block.h:308-326 | after a completed call every other candidate is lower than the active tip, or as high and received later, or also numbered alike and at a higher address |
| ChainSelection.ChainState.ActivateBestChain | src/main.cpp:1505-1588 | terminates; its rounds are a call in the sense of the specification; on completion both chains have the same tip and no candidate is better than it, in every environment |
| FlaggedBlocks.SearchGuards | src/main.cpp:1435-1485 | from a protected state every flagged block of chainMostWork has a block at or below it that can never be connected |
| FlaggedBlocks.ReorganisingProtects | src/main.cpp:1547-1576 | disconnecting and connecting along such a path never meets a flagged block |
| FlaggedBlocks.FinBlockProtects | src/main.cpp:1487-1504 | nor does trying the new block on top of a final one |
| FlaggedBlocks.CallProtects | src/main.cpp:1511-1577 | a call keeps the protection over all its rounds |
| FlaggedBlocks.RoundReaches | src/main.cpp:1511-1577 | from an unflagged active chain one round leaves it so exactly if no flagged block is next |
| FlaggedBlocks.CallReaches | src/main.cpp:1511-1577 | a call makes a flagged block active, after whatever number of rounds, exactly if one is next before it |
| FlaggedBlocks.ProtectedHasNoneNext | src/main.cpp:1511-1577 | a protected state never has a flagged block next, in any environment |
| ChainSelection.ChainState.InvalidateBlockIndex | src/main.cpp:544-553 | the block is flagged in any case, and leaves the candidates exactly if the write succeeds |
| ChainSelection.ChainState.InvalidateBlock | src/main.cpp:544-576 | on success p is off the active chain, which is cut right below it, and exactly p and the disconnected blocks are newly flagged; at a failing disconnect the blocks down to the failing one are flagged; at a failing write the same, but the last block is not disconnected and stays a candidate if it was one |
| RunLaws.InvalidateUnflags | src/main.cpp:555-576 | it succeeds, and no active block is flagged afterwards, exactly if p is not active or it and all active blocks above it can be disconnected at their questions |
| RunLaws.FlaggedRootStays | src/main.cpp:555-576 | with the root as the only block and a failing disconnect, the root ends flagged and active |
| RunLaws.FailedWriteUnflags | src/main.cpp:555-567 | after a failing write no active block is flagged exactly if p was not active |
| RunLaws.InvalidateChanges | src/main.cpp:555-576 | block by block what a successful invalidation flags and takes off the active chain: p, and the active blocks on top of it |
| RunLaws.FailedInvalidateChanges | src/main.cpp:555-576 | the same at a failing disconnect: the active tip is the block that could not be disconnected, flagged like all above it and p |
| RunLaws.FailedWriteChanges | src/main.cpp:544-567 | the same at a failing write |
| RunLaws.InvalidateProtects | src/main.cpp:555-576 | a successful invalidation keeps the protection exactly if it is harmless, which is a condition on the state before it |
| ChainSelection.ChainState.ReconsiderBlockIndex | src/main.cpp:579-591 | exactly this block loses its flags, and becomes a candidate exactly if the write succeeds |
| ChainSelection.ChainState.ReconsiderDescendants | src/main.cpp:600-609 | exactly the descendants lose their flags; at a failing write some of them, and the last is no candidate |
| ChainSelection.ChainState.ReconsiderBlock | src/main.cpp:593-621 | exactly the flags of p, its ancestors and on request its descendants are cleared, each with one write, and nothing else changes; at a failing write flags of some of them are cleared, and the last is no candidate |
| RunLaws.ReconsiderProtects | src/main.cpp:593-621 | reconsidering a block keeps the protection |
| RunLaws.ReconsiderChanges | src/main.cpp:593-621 | block by block: exactly p, its ancestors and on request its descendants lose their flags |
| RunLaws.BrokenReconsiderChanges | src/main.cpp:593-621 | the same at a failing write: some of them, the descendants first, then p and its ancestors downwards |
| RunLaws.ReconsiderUndoes | src/main.cpp:555-621 | reconsidering an active block with its descendants takes back the flags of invalidating it |
| ChainSelection.ChainState.NewEntry | src/main.cpp:1596-1612 | the new entry with its parent, height and sequence id, and the right skip pointer |
| ChainSelection.ChainState.InsertBlock | src/main.cpp:1596-1624 | the entry is in the index and a candidate, whether it can be written or not; the sequence id wraps; tree, skip pointers and candidate set stay right |
| ChainSelection.ChainState.AddToBlockIndex | src/main.cpp:1590-1630 | a duplicate changes nothing; otherwise the block is inserted, and a call of ActivateBestChain for it follows, with its outcome, exactly if the entry could be written |
| RunLaws.UnwrittenBlockWaits | src/main.cpp:1596-1624 | a block whose entry cannot be written is one candidate more, and nothing else changes |
| ChainRuns.Replay | src/main.cpp:544-1630 | carries out every sequence of arriving blocks, activations, invalidations and reconsiderations; the records are a run in the sense of the specification, up to the first invalidation or reconsideration with a failing write, whose effect is stated too |
| RunLaws.RunKeepsFinal | src/main.cpp:544-1618 | over every stretch of a run without invalidations a global final block stays active, and a local one that does not time out at a question of a finality walk of that stretch |
| RunLaws.RunProtects | src/main.cpp:544-1618 | over every run that starts protected, with reconsiderations and with invalidations that are harmless and can disconnect what they flag, no flagged block is ever active |
| RunLaws.RunFromTheStart | src/main.cpp:544-1618 | the same for every run from the empty state |
| RunLaws.RunReaches | src/main.cpp:544-1618 | in a run a flagged block is active at some time, between rounds included, exactly if at some activation one was next or some invalidation met active blocks that could not all be disconnected |
| ForkedRun.InvalidatedBecomesActive | src/main.cpp:555-576 | every run of six given events from the empty state ends with the invalidated block flagged and active |
| ForkedRun.RunIt | src/main.cpp:544-1618 | the code carries such a run out |
| MerkleShape.WidthMeans | src/chain/merkletree.h:60-63 | a position is inside a level exactly if the node has a leaf |
| MerkleShape.TreeHeight | src/chain/merkletree.cpp:83-86 | the first height at which the tree is one node wide |
| MerkleShape.LevelHolds | src/chain/merkletree.cpp:11-26 | the recursion of CalcHash gives the nodes of the block's own Merkle levels |
| MerkleShape.BuildMerkleTree | src/persistence/block.cpp:27-42 | the block's Merkle root is CalcHash at the top; 0 for an empty block |
| MerkleShape.RootExamples | src/persistence/block.cpp:27-42 | the root of one id and of three |
| PartialMerkle.ExtractBuilt | src/chain/merkletree.cpp:28-75 | at any place of any array, decoding what the encoder stored for a node gives its hash and its selected ids in order, and moves both cursors right behind |
| PartialMerkle.ExtractBounds | src/chain/merkletree.cpp:46-75 | on arbitrary input no cursor passes its array, failure sticks, and the calls are bounded by the bits read |
| PartialMerkle.ExtractExtended | src/chain/merkletree.cpp:46-75 | a traversal that does not fail is the same whatever is behind what it reads |
| PartialMerkle.ExtractSound | src/chain/merkletree.cpp:46-75 | a subtree that decodes to its true hash delivers only real ids at rising leaf positions, or exhibits a hash collision |
| PartialMerkle.BuildSizes | src/chain/merkletree.h:32-43 | at most one hash per id and at most 1 + matches * height hashes; the exact relation of bits, hashes and single children |
| PartialMerkle.FlagBitsRemark | src/chain/merkletree.h:43 | at most 2N-1 flag bits for N hashes exactly if no traversed node has a single child |
| PartialMerkle.FlagBitsRemarkFails | src/chain/merkletree.h:43 | three ids with the last selected: the four bits and two hashes that are stored |
| MerkleSize.SingleChildrenBound | src/chain/merkletree.h:32-43 | at most one traversed node with a single child on each level |
| MerkleSize.FlagBitsBound | src/chain/merkletree.h:43 | at least 2N-1 flag bits for N hashes, and at most that plus the height |
| MerkleSize.StoppingNodesAreStored | src/chain/merkletree.cpp:28-44 | as many hashes are stored as the mask has nodes at which the traversal stops |
| MerkleSize.ClaimHolds | src/chain/merkletree.h:27-44 | exactly when the size is at most 10 + ceil(32.25*N), as a condition on the mask |
| MerkleSize.ClaimFails | src/chain/merkletree.h:27-44 | 1012 ids, all selected: one byte more |
| MerkleTree.PackBits | src/chain/merkletree.h:89-91 | bit p is bit p mod 8 of byte p / 8, padding is zero |
| MerkleTree.UnpackBits | src/chain/merkletree.h:84-86 | reads exactly these bits |
| MerkleTree.UnpackPacked | src/chain/merkletree.h:77-93 | reading what was written gives the bits and fewer than eight zero bits |
| MerkleTree.PackedExamples | src/chain/merkletree.h:89-91 | the lowest bit of a byte comes first |
| MerkleTree.PartialMerkleTree.constructor | src/chain/merkletree.cpp:77-90 | the encoder stores what the specification stores for the root |
| MerkleTree.PartialMerkleTree.ParentOfMatch | src/chain/merkletree.cpp:29-32 | whether a selected id lies below the node |
| MerkleTree.PartialMerkleTree.TraverseAndBuild | src/chain/merkletree.cpp:28-44 | appends the specified bits and hashes |
| MerkleTree.PartialMerkleTree.TraverseAndExtract | src/chain/merkletree.cpp:46-75 | computes the specified decoding |
| MerkleTree.PartialMerkleTree.ExtractMatches | src/chain/merkletree.cpp:94-125 | the checks before and after, with the result 0 on failure |
| MerkleTree.ResultIs | src/chain/merkletree.cpp:94-125 | exactly when the result is the hash of the traversal and not 0: at most 66666 ids and not none, no more hashes than ids or bits, no failure, all hashes used, all bits but padding used; and the ids given in each case |
| MerkleTree.NothingCanBeAdded | src/chain/merkletree.cpp:117-123 | what is accepted is refused with any hash or byte of bits added, so no accepted data is the beginning of other accepted data |
| MerkleTree.PartialMerkleTree.Serialize | src/chain/merkletree.h:77-93 | what goes onto the wire |
| MerkleTree.PartialMerkleTree.Deserialize | src/chain/merkletree.h:81-87 | what is taken from it |
| MerkleTree.RoundTrip | src/chain/merkletree.cpp:28-125 | for every non-empty list of ids within the size limit and every mask: build, pack, unpack and extract is accepted, gives the full root and exactly the selected ids in order, and consumes everything but padding |
| MerkleTree.SelectionArrives | src/chain/merkletree.h:77-98 | what one node builds and packs, another unpacks and extracts: the block's root, the selected ids, no failure |
| MerkleTree.Soundness | src/chain/merkletree.cpp:94-125 | whatever bits and hashes are supplied, a traversal that uses them up and gives the true root means real ids at rising positions, or a hash collision |
| MerkleTree.SoundnessWithoutCollisions | src/chain/merkletree.cpp:94-125 | with a hash injective on pairs the ids are real |
| MerkleTree.MatchesAreReal | src/chain/merkletree.cpp:94-125 | the same about what ExtractMatches returns: if it is the block's root and not the 0 of a failure, the ids given are those of the block at rising positions, or a collision is exhibited |
| MerkleTree.CallsBounded | src/chain/merkletree.cpp:46-75 | at most 2 * bits + 1 calls on any input |
| ArithUint256.Uint256.SetUint64 | src/commons/arith_uint256.h:88-95 | the value is the 64-bit number |
| ArithUint256.Uint256.GetLow64 | src/commons/arith_uint256.h:245-249 | the value modulo 2^64 |
| ArithUint256.Uint256.AddAssign | src/commons/arith_uint256.h:135-145 | the sum modulo 2^256 |
| ArithUint256.Uint256.Negate | src/commons/arith_uint256.h:77-84 | the negative modulo 2^256 |
| ArithUint256.Uint256.Increment | src/commons/arith_uint256.h:173-180 | one more, modulo 2^256 |
| ArithUint256.Uint256.Decrement | src/commons/arith_uint256.h:190-197 | one less, modulo 2^256 |
| ArithUint256.Uint256.SubAssign | src/commons/arith_uint256.h:147-151 | the difference modulo 2^256, exact if it is not negative |
| ArithUint256.Uint256.CompareTo | src/commons/arith_uint256.cpp:109-119 | the order of the values |
| ArithUint256.Uint256.MulAssignWord | src/commons/arith_uint256.cpp:55-65 | the product with one word modulo 2^256 |
| ArithUint256.MulStep | src/commons/arith_uint256.cpp:75-77 | one position of the schoolbook product is exact, and its 64-bit accumulator does not overflow |
| ArithUint256.Uint256.AddRow | src/commons/arith_uint256.cpp:73-78 | one row of the product, with the carry that is dropped |
| ArithUint256.Uint256.MulAssign | src/commons/arith_uint256.cpp:67-81 | the product modulo 2^256; zero if the factor is the number itself |
| ArithUint256.Uint256.ShiftLeft | src/commons/arith_uint256.cpp:21-36 | the value times 2^shift modulo 2^256, for every shift |
| ArithUint256.Uint256.ShiftRight | src/commons/arith_uint256.cpp:38-53 | the value divided by 2^shift, rounded down, for every shift |
| ArithUint256.Uint256.BitLength | src/commons/arith_uint256.cpp:171-184 | the number n of bits: 2^(n-1) <= value < 2^n, 0 for zero |
| ArithUint256.DivisionStep | src/commons/arith_uint256.cpp:97-104 | one step of the division keeps quotient * divisor + rest and halves the bound of the rest, although the last shift may lose a bit |
| ArithUint256.Uint256.DivAssign | src/commons/arith_uint256.cpp:83-107 | the quotient rounded down, and the working number ends as the remainder; a zero divisor throws and leaves zero |
| Compact.SetCompact | src/commons/arith_uint256.cpp:204-223 | the magnitude of the code modulo 2^256; overflow exactly if the magnitude is at least 2^256; negative exactly if the sign bit is set and the magnitude is not zero |
| Compact.OverflowIsExact | src/commons/arith_uint256.cpp:218-221 | the overflow test on size and mantissa means exactly a magnitude of at least 2^256, for every code |
| Compact.TopThreeBytes | src/commons/arith_uint256.cpp:227-234 | the number of bytes and the top three of them |
| Compact.GetCompact | src/commons/arith_uint256.cpp:225-245 | the canonical code, with the sign bit if asked for and the number is not zero; both assertions hold |
| Compact.MagnitudeOfEncode | src/commons/arith_uint256.cpp:204-245 | SetCompact of GetCompact is the number rounded down to its kept mantissa, without sign |
| Compact.SignedCode | src/commons/arith_uint256.cpp:204-245 | with the sign bit the code has the same magnitude and is negative |
| Compact.DocumentedCodes | src/commons/arith_uint256.h:260-273 | the examples in the description of the format, and one with sign |
| Compact.RoundDownIsGreatest | src/commons/arith_uint256.cpp:225-245 | nothing the format can express lies between the rounded number and the number |
| Compact.EncodeOfRoundDown | src/commons/arith_uint256.cpp:204-245 | a second GetCompact gives the same code |
| Compact.EncodeMonotone | src/commons/arith_uint256.cpp:225-245 | GetCompact is monotone |
| Positional.BytesFit | src/commons/base58.cpp:76-76 | n bytes fit into n * 138 / 100 + 1 digits of base 58 |
| Positional.DigitsFit | src/commons/base58.cpp:34-34 | m digits of base 58 fit into m * 733 / 1000 + 1 bytes |
| Positional.ConvertBack | src/commons/base58.cpp:23-100 | converting digits between two bases keeps the number and its leading zeros, and converting back gives the digits |
| Base58.Accumulate | src/commons/base58.cpp:43-48 | the carry loop multiplies the number in the buffer by one base and adds a digit; the carry stays below the base |
| Base58.EncodeBase58 | src/commons/base58.cpp:68-100 | the text of the specification; the assertion on the carry holds |
| Base58.DecodeBase58 | src/commons/base58.cpp:23-66 | accepts exactly the texts that are letters of the alphabet up to white space around them, and gives the specified bytes; the assertion on the carry holds; on failure the output stays |
| Base58.DecodedOfEncoded | src/commons/base58.cpp:23-100 | decoding an encoded byte string gives it back, leading zeros included |
| Base58.EncodedMeans | src/commons/base58.cpp:68-100 | the text stands for the number of the bytes in base 58, with as many '1's in front as there are zero bytes |
| Base58.EncodedExamples | src/commons/base58.cpp:68-100 | no bytes, a zero byte, and the letter a |
| Base58.SpaceAround | src/commons/base58.cpp:23-52 | each of the six white space characters is ignored around an encoding and refused inside |
| Base58.OthersAreRefused | src/commons/base58.cpp:31-41 | any other character that is no letter of the alphabet is refused |
| Base58.EncodedOfDecoded | src/commons/base58.cpp:23-100 | encoding what an accepted text decodes to gives the trimmed text back, leading '1's included |
| Base58.EncodeBase58Check | src/commons/base58.cpp:110-116 | the encoding of the bytes followed by the first four bytes of their hash |
| Base58.DecodeBase58Check | src/commons/base58.cpp:118-131 | accepts exactly the encodings, with white space around, of bytes followed by the first four bytes of their hash, and gives these bytes; otherwise the output is cleared |
| Base58.CheckedTextIsUnique | src/commons/base58.cpp:110-131 | different bytes have different checked texts, so the round trip gives the bytes |
| VarInt.EncodedStandsForIt | src/commons/serialize.h:287-299 | the written bytes are a code, and the formula of the format gives the number |
| VarInt.CodeIsEncoded | src/commons/serialize.h:287-299 | every code is what the writer makes of its number: exactly one encoding each |
| VarInt.EveryStreamIsEncoded | src/commons/serialize.h:299-300 | no redundancy: every byte string that does not break off inside a code is the encoding of a list of numbers |
| VarInt.OnlyOneList | src/commons/serialize.h:297-300 | and of one list only |
| VarInt.GetSizeOfVarInt | src/commons/serialize.h:309-320 | the number of bytes written |
| VarInt.RoomLeft | src/commons/serialize.h:325-325 | the temporary buffer has room for every byte |
| VarInt.WriteVarInt | src/commons/serialize.h:322-337 | the bytes of the number are appended, for every width of the type |
| VarInt.ReadVarInt | src/commons/serialize.h:339-352 | the number of the first code in the stream, wrapped to the type, and the rest; nothing if the stream ends inside a code |
| VarInt.DecodedOfEncoded | src/commons/serialize.h:322-352 | reading what was written returns it and leaves what is behind |
| VarInt.RewrittenIfItFits | src/commons/serialize.h:322-352 | writing what was read gives the same bytes exactly if the value fits into the type |
| VarInt.RowsOfTheComment | src/commons/serialize.h:301-307 | the rows for 16511 and 65535 as the loops have them, and what the comment's bytes stand for |
| BufferedFile.HoldsMore | src/commons/serialize.h:1398-1414 | filling at the source position keeps the latest bytes of the file in the ring |
| BufferedFile.CBufferedFile.Fill | src/commons/serialize.h:1398-1414 | reads ahead by exactly what fits and fread delivers, or throws; the ring keeps holding what lies before the source position |
| BufferedFile.CBufferedFile.Take | src/commons/serialize.h:1441-1454 | one pass of the loop in read delivers the next bytes of the file from the ring |
| BufferedFile.CBufferedFile.Read | src/commons/serialize.h:1436-1456 | success, bytes and state are those of reading the file itself |
| BufferedFile.CBufferedFile.SetPos | src/commons/serialize.h:1464-1475 | the new position with all wrapping; exactly when the object stays usable |
| BufferedFile.CBufferedFile.SetLimit | src/commons/serialize.h:1492-1497 | refuses exactly a limit before the reading position |
| BufferedFile.CBufferedFile.FindByte | src/commons/serialize.h:1507-1515 | result and state are those of searching the file itself |
| BufferedFile.Replay | src/commons/serialize.h:1398-1515 | any mix of calls, failing or not, with any short reads: all outcomes are those of the run on the file |
| FileMachine.SetPosMeans | src/commons/serialize.h:1464-1475 | SetPos succeeds exactly from the rewind size before the source position up to it; where it clamps to; exactly when the wrapped sum spoils the position |
| FileMachine.StepIsPlain | src/commons/serialize.h:1436-1515 | on a working device a call does what it does on a plain file, however far was read ahead: a read succeeds exactly within limit, buffer size and file, a search exactly if the byte is there |
| FileMachine.RunIsPlain | src/commons/serialize.h:1398-1515 | a whole run in which no SetPos was refused is a run on the plain file |
| FileMachine.OpenedReads | src/commons/serialize.h:1398-1456 | a file just opened has no limit: whatever fits the buffer beside the rewind size is read, up to the end of the file, where the good flag goes |
| FileMachine.CurrentPositionRefused | src/commons/serialize.h:1464-1475 | after FindByte has stopped at the first byte, setting the current position is refused |
| FileMachine.WrappedPosition | src/commons/serialize.h:1464-1475 | a position near 2^64 leaves the reading position past the source position |
| SafeInt.RegMultiplyUint64 | src/commons/SafeInt3.hpp:1977-2097 | succeeds exactly if the product fits into 64 bits, and gives it |
| SafeInt.RegMultiplyInt64 | src/commons/SafeInt3.hpp:2408-2513 | the same for signed numbers, the minimum included |
| SafeInt.AdditionInt64 | src/commons/SafeInt3.hpp:4023-4069 | succeeds exactly if the sum fits, and gives it |
| SafeInt.SubtractInt64 | src/commons/SafeInt3.hpp:4813-4864 | succeeds exactly if the difference fits, and gives it |
| SafeInt.SafeTtoI | src/commons/SafeInt3.hpp:6380-6419 | gives the signed number of the digits in front exactly if it fits; overflow otherwise and for empty text |
| SafeInt.TextIsParsed | src/commons/SafeInt3.hpp:6380-6419 | the decimal text of every number stands for it, so that every number that fits is parsed, the minimum included |
| SafeInt.SignAndTail | src/commons/SafeInt3.hpp:6380-6419 | a plus sign in front changes nothing, a minus sign negates, and what follows the digits is ignored |

## Left out

- Networking, RPC, start-up, logging, locking and the wallet: input and output.
- The execution of transactions in `ConnectBlock` and `DisconnectBlock`, and the cache and undo data below them:
  their answers are the `Environment`.
- `ProcessForkedChain` (src/main.cpp:1795-1797): it clears flags without touching the candidate set.
- `CChainActive::tip_block`, fork warnings and `pIndexBestInvalid`: bookkeeping that chain selection does not read.
- The notification at the end of `ActivateBestChain` (src/main.cpp:1579-1585), which reads the hash of the active tip.
- ChainSelection.ChainState.ReconsiderBlock: the iteration order of the map is arbitrary.
- ChainSelection.ChainState.AddToBlockIndex: flushing the block cache after the activation is not modelled.
- ChainSelection.ChainState.InsertBlock: `pprev` and `pskip` of an entry are constants, set when it is made, not
  assigned afterwards; entries loaded from disk with sequence id 0 are covered only by the comparator.
- ChainRuns.Replay: the global final block does not change during a run, and no other code sets the local one. A run
  ends at an invalidation or reconsideration with a failing write, because the searches after it need not end.
- BlockChain.Chain.GetLocator: the step is unbounded here; an assertion bounds it by twice the height. The start
  shares its root with the chain, as the source needs to terminate.
- The `CBlockIndex` heights, `uint32_t` widths and shifts of the Merkle tree are unbounded numbers; for more than
  2^31 ids the source's shift would overflow.
- MerkleTree.PartialMerkleTree.ExtractMatches: the result 0 for failure is not told apart from a root 0, and after a
  failure the found ids stay, as in the source.
- The lengths in front of the vectors on the wire: the lists themselves are what is sent.
- ArithUint256.Uint256.MulAssign: the operator that takes copies, `operator*`, is not modelled; it never meets the case
  of the same number.
- The bitwise operators, `EqualTo`, `getdouble` and the hexadecimal text of 256-bit numbers.
- Base58.DecodeBase58: a text is the characters before its null character; `int` counts of leading zeros are unbounded.
  The overload for `std::string` passes `c_str()`.
- The address and key classes on top of Base 58.
- Reading and writing of CompactSize (only its length is modelled), the LEB128 integers and the other serializers.
- BufferedFile.CBufferedFile.Read: the caller has room for what it reads, and no object is so large that the sums in
  the tests would wrap; past them its behaviour is not defined. The buffer is smaller than 2^32, because its positions are `unsigned int`, and larger than the
  rewind size.
- `CBufferedFile::Seek` and `eof`.
- SafeInt.SafeTtoI: the parser over signed 64-bit numbers only; a null pointer counts as the empty text. The paths with
  compiler intrinsics and the other widths are not modelled.
- Elliptic curves, SHA and random numbers: hashes are arbitrary functions.
- The orphan pool, the small containers, alerts and the scripts.
