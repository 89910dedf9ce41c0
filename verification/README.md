# Minima consensus core: a verified model

This project models the parts of the Minima node that decide which chain a node follows, and
proves what they promise. It covers:

- **The cascade** (`Cascade.dfy`, `CascadeWeights.dfy`, `SuperParents.dfy`, `CascadeHeap.dfy`), the pruned
  proof-of-work chain. A walk back from the tip keeps a block only if its super level reaches
  the level being filled. The walk is a function on chains, and the program's own form, node
  objects relinked in place in a pool that owns them, is proved against it.
- **The tree of recent blocks** (`TxPowTree.dfy`, `TxPowTreeStream.dfy`, `TxPowTreeInsert.dfy`,
  `TxPowTreePrefix.dfy`, `TxPowTreeChoice.dfy`, `TxPowTreeTrim.dfy`, `TxPowTreeNodes.dfy`,
  `TxPowTreeObject.dfy`): traversal with an explicit stack, the index by id, weights, the
  heaviest branch, cutting, saving and loading. Node objects have parent pointers, child lists and totals; each carries
  the tree value it stands for.
- **Both stores together** (`ChainRuns.dfy`, `Processor.dfy`): blocks admitted by the block
  checker enter the tree, cuts move blocks to the cascade, restarts reload both.
- **Chain synchronisation** (`IBD.dfy`, `IBDVerdict.dfy`, `IBDBuild.dfy`): finding the crossover of two chains,
  choosing the blocks to send, shortening both chains and comparing weights.
- **The lock** (`RWLock.dfy`, `RWLockObject.dfy`): every section run under the mutex is one
  step of a state machine with sleeping and woken waiters, a free choice in notify_one, and
  spurious wake-ups.
- **Arithmetic and codecs** (`Bytes.dfy`, `Sums.dfy`, `SuperLevel.dfy`, `Radix32.dfy`,
  `HeaderRuns.dfy`, `Magic.dfy`, `Transaction.dfy`): super levels by shift and compare, base-32
  text and Mx addresses, run-length super parents, the Magic averages, transaction balance.

Constants appear as parameters where the program reads them from its global parameters: the
number of cascade levels, the nodes per level, and the start depth and cut length. Hashes,
MiniNumber rounding and the clock are given functions or do not occur.

## What the proofs show about the code

- **Pruning is confluent.** Pruning in stages, reloading and pruning again always give what one
  pass over the whole history gives, with the same levels and total weight, for any rounding of
  weights. Pruning keeps the nearest ancestor of every super level, so it never changes the
  verdict of the block checker, and the validator accepts the cascade of every run.
- **A cascade weighs two to the level.** A block kept at level k counts two to the k times its
  own weight, which the program rounds to seven digits. `TotalIsAdded` states the sum under any
  rounding, `TotalIsPowers` without.
- **Fork choice is not GHOST.** tx_pow_tree.cpp:152 says descending and tx_pow_tree.hpp:85
  says GHOST, but the comparator at line 160 sorts ascending. Each total therefore is the
  block's own weight plus its direct children's own weights, for every order of equal numbers.
  `WrittenChoiceDiffers` gives a tree on which this picks another tip than subtree weights
  would. `FollowsGhostExactly` says when both pick the same tip: if and only if at each step
  down one child leads under both weights.
- **Cutting next to a fork breaks the cascade.** setLength returns side nodes as well as the
  main chain, and the processor puts all of them on to the cascade. `EveryRunConsistent` proves
  that over any run of additions, forks, recalculations, cuts and restarts the two stores are
  consistent if and only if no cut met a node off the branch numbered below it.
  `StrayBlockExactly` says what a stray block does to the block checker: later verdicts stay as
  they were if and only if some newer block reaches its super level. `ValidatorMeans` and
  `StrayOnTopExactly` say when the validator accepts it. Side nodes numbered at or above the
  new root are dropped without being returned (`TrimReturnsAllExactly`).
- **A save between an addition and the next recalculation loses blocks.** The count written is
  that of the last recalculation, and the reader stops at it. `SaveKeepsAllExactly` proves that
  the tree comes back whole if and only if that count is still the number of nodes;
  `AddThenSave` is the case where it is one short. What is loaded is the part visited first, so
  the stores stay sound. Reading an empty store leaves the old count, and the next save writes
  it with no record behind it (`LoadEmptyThenSave`).
- **A reload can move the tip.** It reverses every child list, and the first of equally heavy
  children wins, so the tip stays if and only if no two children on the way down share the
  greatest total. `ReloadMovesTip` gives a tree whose tip moves.
- **A crossover in a cascade is weighed by its level.** There the sums compared are scaled by
  two to the level, and `VerdictScaled` is a case where our blocks outweigh the peer's and are
  still found lighter. The verdict is exact about the scaled sums wherever the crossover lies,
  and about the blocks themselves while neither segment reaches below level zero.
- **Two nodes never both switch.** Comparing each other's chains they find the same crossover,
  and at least one of them finds its own chain heavy enough.
- **A waiting writer keeps new readers out**: over any run in which some writer waits, no thread
  without a hold gains one (`WaitingWritersKeepReadersOut`).
- **The write lock is reentrant**, although the comment at minima_d_b.hpp:23 says it is not; the
  model follows lines 60-63. It deadlocks in exactly one way: a thread waiting for the write
  lock while it holds a read lock, which `DeadlockReachable` brings about in two steps.
- **Addresses** hold up to 65535 bytes of data (the comment at address.cpp:165 says 32k);
  `UnpackedExactly` makes that limit exact. Bytes behind the checksum are ignored.
- **The run-length code** round-trips if and only if no run is longer than 255.
- **CREATE outputs** are not compared with any input of their own: `CreateNotCovered` is an
  accepted transaction whose CREATE output is paid for by another token. Inputs rule this out
  for every accepted transaction if and only if they hold only CREATE and MINIMA coins
  (`CreateCoveredExactly`).

## Model

| member | source | states |
|---|---|---|
| CascadeModel.StagedPruning | org/minima/database/cascade/cascade.cpp:73-133 | pruning new blocks on an already pruned chain gives the same nodes, levels and total weight as pruning the whole history at once |
| CascadeModel.WalkAbsorbs | org/minima/database/cascade/cascade.cpp:90-125 | a walk whose level and count are ahead cannot tell whether a walk behind it has already pruned the chain |
| CascadeModel.RunClosedForm | org/minima/database/cascade/cascade.cpp:28-160 | after any run of additions, prunings and reloads the chain is the unpruned blocks on the cascade of the complete history |
| CascadeModel.WalkFills | org/minima/database/cascade/cascade.cpp:113-120 | a level takes at most the nodes it has room for, and exactly those if the walk ever passes it |
| CascadeModel.CascadedShape | org/minima/database/cascade/cascade.cpp:79-146 | levels start at 0 and rise by single steps, every node below the tip has the super level for its level, and each level left behind is exactly full |
| CascadeWeights.TotalIsAdded | org/minima/database/cascade/cascade.cpp:85-111 | the total weight is the tip's and then each kept node's weight at its own level, added from the tip back |
| CascadeWeights.TotalIsPowers | org/minima/database/cascade/cascade_node.cpp:96-112 | with exact arithmetic it is the sum of each block weight times two to the level of its node |
| CascadeWeights.CascadedTakes | org/minima/database/cascade/cascade.cpp:79-125 | the cascade is the tip and behind it exactly the blocks whose super level reaches the level of the place they would take, each at that level: its place divided by the nodes per level, the top level at most |
| CascadeWeights.CascadeWeighs | org/minima/database/cascade/cascade.cpp:79-133 | the k-th node of every pruned chain stands at level k divided by the nodes per level, or the top one, and with exact arithmetic the total is the sum of weight times two to that |
| SuperParents.CheckParentsMeaning | org/minima/system/brains/tx_po_w_checker.cpp:769-877 | the block checker accepts a block if and only if at every level it names its nearest ancestor of that super level, or zero |
| SuperParents.ClaimAt | org/minima/system/brains/tx_po_w_checker.cpp:797-810 | the inner loop claims every level up to the node's super level or reports the first mismatch |
| SuperParents.PruningKeepsNearest | org/minima/database/cascade/cascade.cpp:73-133 | pruning never loses the nearest ancestor of any super level |
| SuperParents.NearestIs | org/minima/system/brains/tx_po_w_checker.cpp:769-877 | the nearest block of a level is the first from the tip back that reaches it, and the zero id if none does |
| SuperParents.PruningKeepsCheckParents | org/minima/system/brains/tx_po_w_checker.cpp:769-877 | a block is accepted on the pruned chain if and only if it is accepted on the complete history |
| SuperParents.SameVerdictsMeans | org/minima/system/brains/tx_po_w_checker.cpp:769-877 | two chains give the same verdict on every block if and only if they have the same nearest block of every super level |
| SuperParents.StrayBlockExactly | org/minima/system/brains/tx_po_w_checker.cpp:769-877 | a block from outside put into the chain changes no verdict if and only if some newer block reaches its super level |
| SuperParents.ValidatorMeans | org/minima/database/cascade/cascade.cpp:331-439 | the validator accepts a chain, side nodes or not, if and only if levels start at 0 and climb by single steps and what each node names is in the chain behind it with no zero id before it |
| SuperParents.ValidatorExactly | org/minima/database/cascade/cascade.cpp:331-439 | place by place: accepted if and only if levels start at 0 and climb by single steps, and each id named at a node's level or above has no zero id before it and either occurs from the node back or is named at the very level of a node that is the last of it |
| SuperParents.StrayOnTopExactly | org/minima/database/cascade/cascade.cpp:331-439 | a stray block on top of an accepted cascade is accepted if and only if what it names is in the cascade and no zero id comes before a named one |
| SuperParents.GenerateParents | org/minima/system/brains/tx_po_w_generator.cpp:263-275 | the two loops give the tip's own parents with the tip at every level up to its super level |
| SuperParents.GeneratedPassesCheck | org/minima/system/brains/tx_po_w_generator.cpp:263-275 | a block the generator makes on a linked chain is one the checker accepts |
| SuperParents.CascadedPasses | org/minima/database/cascade/cascade.cpp:331-439 | the validator accepts the cascade of every linked history, last-of-level exemption included |
| SuperParents.UnprunedPasses | org/minima/database/cascade/cascade.cpp:331-439 | it also accepts that cascade with blocks added since the last pruning |
| SuperParents.EveryRunValidates | org/minima/database/cascade/cascade.cpp:28-147 | if each block was admitted against the chain as pruned at its time, the validator accepts the cascade at every moment of every run |
| CascadeHeap.CascadeNode.constructor | org/minima/database/cascade/cascade_node.cpp:42-58 | a new node is unlinked and at level 0 |
| CascadeHeap.CascadeNode.Read | org/minima/database/cascade/cascade_node.cpp:138-160 | a read node carries the block and level of the stream and no parent |
| CascadeHeap.Cascade.constructor | org/minima/database/cascade/cascade.cpp:23-23 | a new cascade is empty and well linked |
| CascadeHeap.Cascade.AddToTip | org/minima/database/cascade/cascade.cpp:28-53 | the chain gains one fresh node in front at level 0, the pool gains it at the end, all other nodes stay |
| CascadeHeap.Cascade.GetLength | org/minima/database/cascade/cascade.cpp:63-71 | counts the nodes of the chain |
| CascadeHeap.Cascade.PruneWalk | org/minima/database/cascade/cascade.cpp:79-130 | relinking in place leaves exactly the cascaded chain, acyclic and ended by null, and returns its total weight |
| CascadeHeap.Cascade.PruneStep | org/minima/database/cascade/cascade.cpp:94-125 | one turn keeps, links and levels the node or passes it by, and the kept part with the rest of the walk is still the cascade |
| CascadeHeap.Cascade.Keep | org/minima/database/cascade/cascade.cpp:96-112 | linking one more kept node keeps the finished part linked and the unvisited part untouched |
| CascadeHeap.Cascade.CountNode | org/minima/database/cascade/cascade.cpp:113-120 | moves to the next level exactly when a level below the top is full |
| CascadeHeap.Cascade.CascadeChain | org/minima/database/cascade/cascade.cpp:73-147 | the chain becomes its cascade, the total weight is that of the kept nodes, and the pool is exactly the kept nodes in its old order |
| CascadeHeap.Cascade.CollectGarbage | org/minima/database/cascade/cascade.cpp:138-146 | keeps those pool nodes that are still linked, each once, in pool order |
| CascadeHeap.Cascade.RetainedOrder | org/minima/database/cascade/cascade.cpp:138-146 | of two pool nodes that stay linked, the one that came first still comes first |
| CascadeHeap.Cascade.WriteDataStream | org/minima/database/cascade/cascade.cpp:190-210 | writes the length and then block and level of each node, tip first |
| CascadeHeap.Cascade.Stitch | org/minima/database/cascade/cascade.cpp:254-276 | a read node is put behind the last one, or becomes the tip |
| CascadeHeap.Cascade.ReadNodes | org/minima/database/cascade/cascade.cpp:222-290 | reading back what was written rebuilds the same chain of fresh nodes and consumes exactly its tokens |
| CascadeHeap.Cascade.ReadDataStream | org/minima/database/cascade/cascade.cpp:212-304 | reading gives the cascade of the written chain and leaves exactly what follows |
| CascadeHeap.Cascade.DeepCopy | org/minima/database/cascade/cascade.cpp:149-160 | the copy shares no node and holds the pruned form; of any chain that is the cascade of something it is the same nodes, levels and weight |
| CascadeHeap.Cascade.CheckParentsHere | org/minima/system/brains/tx_po_w_checker.cpp:819-873 | the walk over the cascade from the level reached and the zero check give the rest of the checker's verdict |
| CascadeHeap.Cascade.CheckCorrect | org/minima/database/cascade/cascade.cpp:331-428 | the validator's loops give the verdict defined on the chain value |
| CascadeHeap.Cascade.CheckNodeLevels | org/minima/database/cascade/cascade.cpp:380-420 | the super-parent loop at one node, with its zero flag and the exemption |
| CascadeHeap.Cascade.CheckPastNodeExists | org/minima/database/cascade/cascade.cpp:430-439 | true exactly when the id occurs from the node back |
| TxPowTreeModel.WrittenTotals | org/minima/database/txpowtree/tx_pow_tree.cpp:125-171 | in every ascending order each total becomes own weight plus the direct children's own weights |
| TxPowTreeModel.DescribedTotals | org/minima/database/txpowtree/tx_pow_tree.cpp:152-171 | in the descending order the comment names each total would be the weight of the whole subtree |
| TxPowTreeModel.TotalsAgreeExactly | org/minima/database/txpowtree/tx_pow_tree.cpp:158-171 | a node's written total is its subtree weight if and only if nothing below its children has weight |
| TxPowTreeModel.WrittenTotalsRightExactly | org/minima/database/txpowtree/tx_pow_tree.cpp:152-171 | all written totals are subtree weights if and only if no block two or more levels below the root has weight |
| TxPowTreeModel.WrittenChoiceDiffers | org/minima/database/txpowtree/tx_pow_tree.cpp:152-210 | a tree on which the written totals and the subtree weights choose different tips |
| TxPowTreeChoice.FollowsGhostExactly | org/minima/database/txpowtree/tx_pow_tree.cpp:152-210 | the written totals and the subtree weights choose the same tip if and only if at each step down one child leads under both |
| TxPowTreeModel.BranchSuffix | org/minima/database/txpowtree/tx_pow_tree.cpp:174-210 | the heaviest branch from any of its nodes is the rest of the branch |
| TxPowTreeModel.TipIsLeaf | org/minima/database/txpowtree/tx_pow_tree.cpp:174-210 | the descent ends only at a block without children |
| TxPowTreeModel.SameWeightsSameBranch | org/minima/database/txpowtree/tx_pow_tree.cpp:186-204 | the choice depends on nothing but the totals of the tree's nodes |
| TxPowTreeStream.SaveLoad | org/minima/database/txpowtree/tx_pow_tree.cpp:458-630 | loading what was saved gives the same nodes and parents with every child list reversed |
| TxPowTreeStream.SaveLoadTwice | org/minima/database/txpowtree/tx_pow_tree.cpp:458-630 | two round trips are the identity |
| TxPowTreePrefix.LoadsPrefix | org/minima/database/txpowtree/tx_pow_tree.cpp:483-590 | a reader that stops after n records has loaded the mirror image of the part of the tree visited first |
| TxPowTreePrefix.SaveKeepsAllExactly | org/minima/database/txpowtree/tx_pow_tree.cpp:458-590 | the loaded tree is the whole mirror image if and only if the count written is the number of nodes |
| TxPowTreePrefix.PrefixVisit | org/minima/database/txpowtree/tx_pow_tree.cpp:401-448 | the part visited first is a tree of its own, visited in the same order |
| TxPowTreeStream.VisitParentsFirst | org/minima/database/txpowtree/tx_pow_tree.cpp:401-448 | every block but the first is read after its parent |
| TxPowTreeStream.ReloadedBranch | org/minima/database/txpowtree/tx_pow_tree.cpp:186-204 | after a reload the branch is the one that prefers the last of equally heavy children |
| TxPowTreeStream.ReloadKeepsTipExactly | org/minima/database/txpowtree/tx_pow_tree.cpp:174-210 | a reload leaves the tip, and the whole branch, if and only if no two children on the way share the greatest total |
| TxPowTreeStream.ReloadMovesTip | org/minima/database/txpowtree/tx_pow_tree.cpp:186-204 | a tree of two equal leaves whose tip a reload moves |
| TxPowTreeStream.NoTieMeaning | org/minima/database/txpowtree/tx_pow_tree.cpp:186-204 | among different children the first and the last of the heaviest are one child if and only if no two share the greatest total |
| TxPowTreeInsert.InsertWellMade | org/minima/database/txpowtree/tx_po_w_tree_node.cpp:486-495 | a new id below the parent it names and numbered above it keeps ids distinct and numbers rising |
| TxPowTreeInsert.WellMadeMeans | org/minima/database/txpowtree/tx_pow_tree.cpp:119-145 | the structural form of distinct ids is that of the list of all nodes |
| TxPowTreeInsert.ParentIsOne | org/minima/database/txpowtree/tx_po_w_tree_node.cpp:501-507 | a node is the child of one node only |
| TxPowTreeInsert.RecordParent | org/minima/database/txpowtree/tx_pow_tree.cpp:571-577 | when a saved block is read, the parent it names is already there and numbered below it |
| TxPowTreeTrim.NewRootFacts | org/minima/database/txpowtree/tx_pow_tree.cpp:86-95 | the subtree of a branch node keeps the rest of the branch and the tip |
| TxPowTreeTrim.CutLengths | org/minima/database/txpowtree/tx_pow_tree.cpp:254-318 | the new length is the limit, but not over the old length and not under one, and what is returned begins with the cut-off part of the branch |
| TxPowTreeTrim.TrimReturnsAllExactly | org/minima/database/txpowtree/tx_pow_tree.cpp:254-318 | every discarded node is returned if and only if all nodes numbered at or above the new root hang from it |
| TxPowTreeTrim.TrimConservesChainExactly | org/minima/system/brains/tx_po_w_processor.cpp:620-667 | cascade, returned nodes and new branch join to the old chain if and only if no side node is numbered below the new root |
| TxPowTreeTrim.TrimFailures | org/minima/database/txpowtree/tx_pow_tree.cpp:292-318 | a tree on which one limit drops a side branch unreturned and another returns it behind the main chain |
| TxPowTreeNodes.TreeNode.constructor | org/minima/database/txpowtree/tx_po_w_tree_node.cpp:118-131 | a new node has no parent, no children and no weight |
| TxPowTreeNodes.TreeNode.AddChildNode | org/minima/database/txpowtree/tx_po_w_tree_node.cpp:486-495 | the objects still form one well-made tree, grown by the block below that parent, with all parent pointers right |
| TxPowTreeNodes.TreeNode.ClearParent | org/minima/database/txpowtree/tx_po_w_tree_node.cpp:577-583 | clearing a root's parent disturbs nothing that hangs from it |
| TxPowTreeNodes.ParentObject | org/minima/database/txpowtree/tx_po_w_tree_node.cpp:505-507 | the parent pointer leads to the object of the one node that has this one as a child |
| TxPowTreeNodes.BelowHangs | org/minima/database/txpowtree/tx_pow_tree.cpp:86-95 | what hangs from a node of the tree is a whole tree of its own |
| TxPowTreeNodes.TraverseTree | org/minima/database/txpowtree/tx_pow_tree.cpp:401-448 | the stack visits every node once, a node before its descendants, children from last to first |
| TxPowTreeNodes.SortByNumber | org/minima/database/txpowtree/tx_pow_tree.cpp:153-161 | a rearrangement in ascending block number |
| TxPowTreeNodes.IndexNodes | org/minima/database/txpowtree/tx_pow_tree.cpp:125-150 | the index holds exactly the tree's nodes under their ids, and each total is the own weight |
| TxPowTreeNodes.AddChildren | org/minima/database/txpowtree/tx_pow_tree.cpp:166-170 | the node's total grows by the children's present totals and no other total changes |
| TxPowTreeNodes.AddUp | org/minima/database/txpowtree/tx_pow_tree.cpp:164-171 | the in-place loops leave in the nodes the totals the model accumulates in that order |
| TxPowTreeNodes.BestChild | org/minima/database/txpowtree/tx_pow_tree.cpp:186-204 | the first child that none outweighs |
| TxPowTreeNodes.Descend | org/minima/database/txpowtree/tx_pow_tree.cpp:174-210 | ends at the tip of the heaviest branch and counts its blocks |
| TxPowTreeNodes.Rebuild | org/minima/database/txpowtree/tx_pow_tree.cpp:117-214 | all passes together: index, totals, tip and length |
| TxPowTreeObject.TxPowTree.constructor | org/minima/database/txpowtree/tx_pow_tree.cpp:69-76 | a new tree is empty |
| TxPowTreeObject.TxPowTree.FindNode | org/minima/database/txpowtree/tx_pow_tree.cpp:78-84 | returns the node with the id, and none exactly when the tree is empty or has none |
| TxPowTreeObject.TxPowTree.Link | org/minima/database/txpowtree/tx_pow_tree.cpp:109-115 | adds one node to the index |
| TxPowTreeObject.TxPowTree.AddBlock | org/minima/system/brains/tx_po_w_processor.cpp:285-345 | of a block that has passed the range, transaction and block checks: it enters below its parent exactly when its parent is known and its id is not, never into an empty tree, and index and tree still agree |
| TxPowTreeObject.TxPowTree.RecalculateTree | org/minima/database/txpowtree/tx_pow_tree.cpp:117-214 | index, totals, tip and length all agree with the tree afterwards, and the tree is unchanged |
| TxPowTreeObject.TxPowTree.SetRoot | org/minima/database/txpowtree/tx_pow_tree.cpp:86-95 | the tree is what hangs from the new root, with everything derived up to date |
| TxPowTreeObject.NewRoot | org/minima/database/txpowtree/tx_pow_tree.cpp:258-270 | the walk from the tip stops at the node that leaves max(1, limit) blocks, or at the root |
| TxPowTreeObject.MainChainBelow | org/minima/database/txpowtree/tx_pow_tree.cpp:279-289 | exactly the branch below the new root, oldest first |
| TxPowTreeObject.SideBranches | org/minima/database/txpowtree/tx_pow_tree.cpp:292-311 | exactly the indexed nodes numbered below the new root whose ids are not on the main chain, each once |
| TxPowTreeObject.CutOff | org/minima/database/txpowtree/tx_pow_tree.cpp:276-311 | the returned list is the old branch prefix followed by every side node below the new root |
| TxPowTreeObject.TxPowTree.SetLength | org/minima/database/txpowtree/tx_pow_tree.cpp:254-318 | the tip object stays, the length becomes min(old, max(1, limit)), the new branch is the rest of the old, the returned list starts with the removed prefix |
| TxPowTreeObject.TxPowTree.WriteDataStream | org/minima/database/txpowtree/tx_pow_tree.cpp:458-481 | writes the node count of the last recalculation and every block in traversal order, none for an empty tree |
| TxPowTreeObject.TxPowTree.LoadNode | org/minima/database/txpowtree/tx_pow_tree.cpp:547-577 | one read block is indexed and hung below the parent it names |
| TxPowTreeObject.TxPowTree.ReadDataStream | org/minima/database/txpowtree/tx_pow_tree.cpp:483-630 | reading a saved tree, whatever count was written with it, gives fresh objects for the mirror image of the part counted, up to date, and leaves the records after it; reading an empty one leaves an empty tree and the old count |
| TxPowTreeObject.TxPowTree.SaveAndLoad | org/minima/database/txpowtree/tx_pow_tree.cpp:458-630 | the tree loaded from what was saved is the mirror image if and only if the count kept is the number of nodes |
| TxPowTreeObject.TxPowTree.AddThenSave | org/minima/database/txpowtree/tx_pow_tree.cpp:458-461 | adding a block and saving before a recalculation writes a count one short, and the load loses a block exactly if one was added |
| TxPowTreeObject.TxPowTree.LoadEmptyThenSave | org/minima/database/txpowtree/tx_pow_tree.cpp:483-494 | an empty store read into a used tree makes the next save write the old count and no record |
| ChainRuns.CheckedPruned | org/minima/system/brains/tx_po_w_checker.cpp:769-877 | pruning the older part changes the verdict on no block of any fork of the tree |
| ChainRuns.InsertChecked | org/minima/system/brains/tx_po_w_processor.cpp:287-345 | adding a block that passed the checker on its own ancestors leaves every block of the tree checked |
| ChainRuns.AncestorsStep | org/minima/system/brains/tx_po_w_checker.cpp:789-816 | following a parent pointer takes exactly the first block off the chain a block is checked against |
| ChainRuns.BranchChecked | org/minima/system/brains/tx_po_w_processor.cpp:620-667 | any stretch of a checked branch extends a linked history, and what hangs above stays checked against it |
| ChainRuns.CutKeepsSound | org/minima/system/brains/tx_po_w_processor.cpp:620-667 | a cut without side nodes leaves the cascade the one-pass pruning of the longer history |
| ChainRuns.CutKeepsChain | org/minima/system/brains/tx_po_w_processor.cpp:620-667 | such a cut loses, adds and reorders no block of the main chain |
| ChainRuns.RestartKeepsSound | org/minima/database/txpowtree/tx_pow_tree.cpp:458-630 | saving and loading tree and cascade, whatever count is written, leaves every loaded block checked and the cascade the pruned history |
| ChainRuns.RestartLosesNoneExactly | org/minima/database/minima_d_b.cpp:611-646 | a restart loses no block of the tree if and only if the count of the last recalculation is the number of nodes |
| ChainRuns.RunCounts | org/minima/database/txpowtree/tx_pow_tree.cpp:150-150 | over every run that count never exceeds the number of nodes |
| ChainRuns.StepJoins | org/minima/system/brains/tx_po_w_processor.cpp:620-667 | one step leaves the tree joined to the history if and only if it was joined and the step meets no side nodes |
| ChainRuns.EveryRunConsistent | org/minima/system/brains/tx_po_w_processor.cpp:587-667 | over every run of additions, forks, recalculations, restarts and cuts the validator accepts the cascade, tree branch and history form one parent-linked chain and staged pruning loses nothing, if and only if no cut met side nodes |
| ChainRuns.NoSideReturns | org/minima/database/txpowtree/tx_pow_tree.cpp:276-311 | setLength returns the main chain and nothing else if and only if no node off the branch is numbered below the cut |
| ChainRuns.CutMeetsExactly | org/minima/system/brains/tx_po_w_processor.cpp:620-667 | after a cut that moves anything the root names the cascade's tip as parent if and only if the tree had no node off its branch numbered below the cut |
| Processor.MoveToCascade | org/minima/system/brains/tx_po_w_processor.cpp:626-645 | the returned nodes lie on the old cascade with the last of them at the tip |
| Processor.CutIsStep | org/minima/system/brains/tx_po_w_processor.cpp:620-667 | what setLength and cascadeChain do together is the cut step of the run model |
| Processor.CheckBlockParents | org/minima/system/brains/tx_po_w_checker.cpp:769-877 | walking the parent pointers of the tree and then the cascade gives the checker's verdict on the block's whole chain |
| Processor.RecalculateTree | org/minima/system/brains/tx_po_w_processor.cpp:587-667 | on the objects: at or above the length limit the tree is cut and the cascade is the pruned join; below it, or with an empty tree, neither changes |
| Processor.Restart | org/minima/database/minima_d_b.cpp:611-646 | on the objects: saving both stores and loading them again is the restart step of the run model, however old the count is |
| IBDModel.FourPassesFindHighest | org/minima/objects/i_b_d.cpp:574-603 | the four searches find the highest common block, and none only if there is none |
| IBDModel.FourPassesInOrder | org/minima/objects/i_b_d.cpp:574-603 | whatever the messages hold, falling chains or not, the hit is the first of the first pass that has one |
| IBDModel.FindFirst | org/minima/objects/i_b_d.cpp:574-579 | one search returns the first id that is in the set |
| IBDModel.ShortenedIsSegment | org/minima/objects/i_b_d.cpp:640-684 | the shortened chain is exactly the tip-side segment from the crossover, and cascade nodes keep their levels |
| IBDModel.ShortenedKeepsLevels | org/minima/objects/i_b_d.cpp:662-681 | any tip-side part of a cascade, rebuilt from its blocks alone, gets its old levels back |
| IBDModel.VerdictIs | org/minima/objects/i_b_d.cpp:464-484 | with the crossover in both block lists only the crossover and the blocks above it are compared |
| IBDModel.VerdictWithoutCrossover | org/minima/objects/i_b_d.cpp:614-617 | with no common block our chain stays if and only if the whole message weighs at least as much, cascade and blocks each cut to whole numbers |
| IBDModel.TruncateIs | org/minima/objects/i_b_d.cpp:464-484 | a weight is cut to the whole number next towards zero |
| IBDModel.KeptIs | org/minima/objects/i_b_d.cpp:640-658 | the blocks kept are those from the crossover to the tip |
| IBDModel.VerdictSound | org/minima/objects/i_b_d.cpp:533-638 | the verdict is false only if the peer's segment is strictly heavier, and surely if it is so by a whole unit |
| IBDModel.WholeVerdictExact | org/minima/objects/i_b_d.cpp:533-638 | for whole-number weights the verdict is false if and only if the peer's segment is heavier |
| IBDVerdict.VerdictAnywhere | org/minima/objects/i_b_d.cpp:533-638 | for whole weights the verdict is false if and only if the peer's segment, cascade nodes scaled by their level, is heavier, wherever the crossover lies |
| IBDVerdict.VerdictRightAtLevelZero | org/minima/objects/i_b_d.cpp:533-638 | while neither segment reaches below level zero it is false if and only if the peer's blocks themselves are heavier |
| IBDVerdict.VerdictScaled | org/minima/objects/i_b_d.cpp:660-681 | two chains on which ours is heavier from the crossover on and is found lighter |
| IBDModel.NeverBothSwitch | org/minima/objects/i_b_d.cpp:533-638 | of two nodes comparing each other's falling chains at least one keeps its own |
| IBDModel.SameCrossover | org/minima/objects/i_b_d.cpp:574-603 | both find the same crossover or neither finds one |
| IBDBuild.SamplingFinds | org/minima/objects/i_b_d.cpp:88-116 | every twentieth id and the last never miss an intersection, and fewer than twenty shared ids lie above the one found |
| IBDBuild.AnswerAfterCrossover | org/minima/objects/i_b_d.cpp:156-195 | on a crossover exactly our branch above the highest common block is sent, and the answer is invalid only if there is none |
| IBDBuild.AnswerAboveFirst | org/minima/objects/i_b_d.cpp:150-236 | falling chains or not, the branch above the first announced id it has |
| IBDBuild.AnswerFromArchive | org/minima/objects/i_b_d.cpp:118-139 | a gap-free archive yields a gap-free ascending run from right after the intersection to the tip |
| IBDBuild.AnswerArchived | org/minima/objects/i_b_d.cpp:81-145 | gaps or not, the archived blocks after the intersection, then the branch, and no cascade |
| IBDBuild.AnswerWhole | org/minima/objects/i_b_d.cpp:78-262 | to a new node, and when no archived block, crossover or overlap serves, the whole branch with the pruned cascade below it, called invalid only when the chains overlap and share nothing |
| IBDBuild.AnswerNothing | org/minima/objects/i_b_d.cpp:64-67 | without a branch an empty message |
| IBDBuild.RangeHas | org/minima/database/archive/archive_manager.cpp:604-666 | gap or not, exactly the stored blocks strictly between the two numbers, ascending |
| IBDBuild.RangeConsecutive | org/minima/database/archive/archive_manager.cpp:604-666 | the archived range has one block for every number strictly between the bounds |
| IBDBuild.LoadBlockRange | org/minima/database/archive/archive_manager.cpp:604-666 | the same blocks, highest first |
| IBDBuild.FindInArchive | org/minima/objects/i_b_d.cpp:91-116 | the sampling loop with its fallback to the last id |
| IBDBuild.IBDMessage.AddBranch | org/minima/objects/i_b_d.cpp:257-261 | front insertion from the tip back puts the branch, root first, before what was there |
| IBDBuild.IBDMessage.AddAbove | org/minima/objects/i_b_d.cpp:183-195 | the same, ended by the crossover |
| IBDBuild.IBDMessage.AddArchived | org/minima/objects/i_b_d.cpp:132-135 | the archived blocks end up ascending in front |
| IBDBuild.IBDMessage.CreateCompleteIBD | org/minima/objects/i_b_d.cpp:238-262 | the message holds the pruned copy of our cascade and our whole branch |
| IBDBuild.IBDMessage.FromArchive | org/minima/objects/i_b_d.cpp:118-145 | archive range and branch, or a complete message when that is too long |
| IBDBuild.IBDMessage.CreateIBD | org/minima/objects/i_b_d.cpp:56-236 | a new message becomes the answer the lemmas above speak of |
| IBDBuild.IBDMessage.GetTotalWeight | org/minima/objects/i_b_d.cpp:464-484 | the sum of both parts, each cut to a whole number |
| IBDBuild.IBDMessage.CreateShortenedIBD | org/minima/objects/i_b_d.cpp:640-684 | a fresh message that is the segment from the crossover |
| IBDBuild.IBDMessage.FindCrossover | org/minima/objects/i_b_d.cpp:541-603 | the loops perform the four searches in order |
| IBDBuild.IBDMessage.CheckOurChainHeavier | org/minima/objects/i_b_d.cpp:533-638 | gives the verdict the soundness lemmas speak of |
| RWLockModel.StepKeepsInv | org/minima/database/minima_d_b.hpp:85-167 | every section under the mutex keeps exclusion, the counters, the hold counts and the wake-up invariant |
| RWLockModel.EveryReachableState | org/minima/database/minima_d_b.hpp:42-167 | in every reachable state a held write lock excludes other holders and no wake-up is lost |
| RWLockModel.InvNoLostWakeup | org/minima/database/minima_d_b.hpp:42-73 | no sleeping reader would be admitted, and a sleeping writer that would be has a woken one beside it |
| RWLockModel.ReadTestExactly | org/minima/database/minima_d_b.hpp:42-57 | a read request is granted if and only if the thread holds the write lock, or nobody does and it already reads or no writer waits |
| RWLockModel.WriteTestExactly | org/minima/database/minima_d_b.hpp:59-73 | a write request is granted if and only if the thread holds the write lock or nobody holds anything |
| RWLockModel.UnlockWakes | org/minima/database/minima_d_b.hpp:114-133 | unlock wakes nobody unless it frees the lock; then one sleeping writer if any waits, and otherwise all readers |
| RWLockModel.UnlockSharedWakes | org/minima/database/minima_d_b.hpp:151-167 | the last read hold of all wakes one sleeping writer if a writer waits; with no writer waiting every unlock_shared wakes all readers; otherwise nobody is woken |
| RWLockModel.WaitingWriterKeepsReadersOut | org/minima/database/minima_d_b.hpp:42-57 | while a writer waits no step gives a thread without holds a read hold |
| RWLockModel.WaitingWritersKeepReadersOut | org/minima/database/minima_d_b.hpp:42-57 | nor does any run in which a writer waits throughout |
| RWLockModel.FreeLockProgresses | org/minima/database/minima_d_b.hpp:85-167 | when nobody holds the lock and somebody waits, a woken waiter can take it now |
| RWLockModel.UpgraderNeverLeaves | org/minima/database/minima_d_b.hpp:85-112 | a thread that enters lock() holding only read holds never leaves, no waiter is admitted any more and no thread without holds gains one |
| RWLockModel.UpgradeNeverLeaves | org/minima/database/minima_d_b.hpp:85-112 | the same from any state in which a thread already waits for the write lock with read holds |
| RWLockModel.UpgradeEntry | org/minima/database/minima_d_b.hpp:85-92 | entering lock() with read holds and without the write lock leads to that state |
| RWLockModel.DeadlockReachable | org/minima/database/minima_d_b.hpp:85-149 | one thread brings the deadlock about by taking a read lock and then asking for the write lock |
| RWLockModel.DeadlockExactlyOnUpgrade | org/minima/database/minima_d_b.hpp:85-167 | some continuation admits a waiter if and only if no thread is waiting to upgrade its own read hold |
| RWLockModel.HoldsMatchLog | org/minima/database/minima_d_b.hpp:85-167 | a thread's counts are its unmatched acquisitions over every run and depend on no other thread |
| RWLockModel.TotalZero | org/minima/database/minima_d_b.hpp:68-72 | the sum over the hold map is zero exactly when nobody holds a read lock |
| RWLockObject.ReentrantRWLock.constructor | org/minima/database/minima_d_b.hpp:33-40 | a new lock is free and satisfies the invariant |
| RWLockObject.ReentrantRWLock.CanReadLock | org/minima/database/minima_d_b.hpp:42-57 | owner, or nobody writing or waiting to, or already reading |
| RWLockObject.ReentrantRWLock.CanWriteLock | org/minima/database/minima_d_b.hpp:59-73 | owner, or no holder at all, found by summing the holds in any order |
| RWLockObject.ReentrantRWLock.Lock | org/minima/database/minima_d_b.hpp:85-112 | entering lock() takes the entry step of the state machine |
| RWLockObject.ReentrantRWLock.LockRetest | org/minima/database/minima_d_b.hpp:92-103 | a woken writer takes the re-test step |
| RWLockObject.ReentrantRWLock.Unlock | org/minima/database/minima_d_b.hpp:114-133 | takes the release step with the waiter notify_one chose |
| RWLockObject.ReentrantRWLock.LockShared | org/minima/database/minima_d_b.hpp:135-149 | entering lock_shared() takes the entry step |
| RWLockObject.ReentrantRWLock.LockSharedRetest | org/minima/database/minima_d_b.hpp:140-148 | a woken reader takes the re-test step |
| RWLockObject.ReentrantRWLock.UnlockShared | org/minima/database/minima_d_b.hpp:151-167 | takes the release step, waking a writer only when the last reader left |
| Bytes.TrimLeadingZeros | org/minima/utils/maths.cpp:25-34 | drops exactly the leading zero bytes |
| Bytes.TrimmedUnique | org/minima/utils/maths.cpp:25-34 | byte strings without leading zeros are equal when their values are |
| Sums.TotalIsExact | org/minima/objects/tx_po_w.cpp:674-707 | with weights of at most six decimals a node's rounded total is the exact one |
| Sums.MessageIsExact | org/minima/objects/i_b_d.cpp:464-474 | so is the rounded sum of a message's block weights |
| SuperLevel.CountLeadingZeros8 | org/minima/utils/maths.cpp:36-47 | eight less the bit length of the byte |
| SuperLevel.BitLengthBE | org/minima/utils/maths.cpp:49-59 | the bit length of the big-endian value |
| SuperLevel.CompareUnsignedBE | org/minima/utils/maths.cpp:76-86 | the sign of the difference of the values, whatever the leading zeros |
| SuperLevel.ShiftLeftBE | org/minima/utils/maths.cpp:89-121 | the value times two to the shift, without leading zeros |
| SuperLevel.ShiftCompareIsDivision | org/minima/utils/maths.cpp:149-165 | comparing with the shifted divisor gives the bit length of the quotient |
| SuperLevel.GetSuperLevel | org/minima/utils/maths.cpp:130-177 | for every difficulty and nonzero actual value the level the big-integer division gives, clamped; zero fails |
| SuperLevel.DividedLevelIsLog | org/minima/objects/tx_po_w.cpp:757-776 | the divided level is the floor of the base-two logarithm of the ratio |
| SuperLevel.ClampedLevelIs | org/minima/objects/tx_po_w.cpp:726-731 | the clamped level is that logarithm as far as there are levels, 0 below the first and the top one beyond |
| Radix32.DivmodSmall | org/minima/utils/base_converter.cpp:52-66 | quotient and remainder of the whole number, quotient without leading zeros |
| Radix32.MuladdSmall | org/minima/utils/base_converter.cpp:69-92 | the value times the base plus the addend, never with a leading zero byte |
| Radix32.NumberRoundTrip | org/minima/utils/base_converter.cpp:198-264 | decoding undoes encoding for every number |
| Radix32.BytesRoundTrip | org/minima/utils/base_converter.cpp:198-264 | any bytes come back without their leading zero bytes |
| Radix32.Encode32 | org/minima/utils/base_converter.cpp:198-227 | terminates on the value and writes its base-32 digits in the letters used |
| Radix32.AlphabetIs | org/minima/utils/base_converter.cpp:198-227 | the letters written are digits and upper-case letters, with W, Y and Z for I, L and O |
| Radix32.EncodedIs | org/minima/utils/base_converter.cpp:198-227 | the text is Mx and then the digits in those letters, one zero for zero |
| Radix32.Decode32 | org/minima/utils/base_converter.cpp:229-264 | the bytes of the number written, or failure on an empty or foreign text |
| Radix32.ReadDigitIs | org/minima/utils/base_converter.cpp:229-264 | what each character reads as, in either case, and which are refused |
| Radix32.DecodedExactly | org/minima/utils/base_converter.cpp:229-264 | a text is refused if and only if nothing follows the prefix or some character is no digit |
| Radix32.StripIs | org/minima/utils/base_converter.cpp:229-264 | the prefix goes in any mix of cases and nothing else does |
| Radix32.UnpackedExactly | org/minima/objects/address.cpp:204-253 | the packed form gives the data back if and only if its length fits two bytes |
| Radix32.AddressRoundTrip | org/minima/objects/address.cpp:167-253 | converting the made address gives the data back if and only if it is shorter than 65536 bytes |
| Radix32.ConvertedIsPacked | org/minima/objects/address.cpp:204-253 | whatever text converts is the packed form of the data it gives, hash included, with anything behind it |
| Radix32.PackedConverts | org/minima/objects/address.cpp:204-253 | and every text whose bytes start with such a packed form converts to its data |
| Radix32.PackedIs | org/minima/objects/address.cpp:167-202 | the bytes are a one, the length high byte first, the data and the first four bytes of its hash |
| Radix32.MakeMinimaAddress | org/minima/objects/address.cpp:167-202 | the text of one, length, data and checksum, or failure on a short hash |
| Radix32.ConvertMinimaAddress | org/minima/objects/address.cpp:204-253 | the moving index with all its error exits |
| HeaderRuns.NeighboursDiffer | org/minima/objects/tx_header.cpp:183-216 | neighbouring runs never have the same parent |
| HeaderRuns.HashRoundTrip | org/minima/objects/base/mini_data.cpp:294-330 | a hash in the stream is read back whole |
| HeaderRuns.ReadHashExactly | org/minima/objects/base/mini_data.cpp:309-330 | a hash is read if and only if its length bytes say at most 64 and that many bytes follow |
| HeaderRuns.RunsRoundTrip | org/minima/objects/tx_header.cpp:239-258 | decoding gives the list back and stops at its end if and only if no run exceeds 255; always for up to 255 levels |
| HeaderRuns.DecodedIsRuns | org/minima/objects/tx_header.cpp:239-258 | whatever decodes, the stream held runs, each count one byte, that fill the levels exactly and stand for the list, up to the place returned |
| HeaderRuns.LongRunLost | org/minima/objects/tx_header.cpp:200-202 | 256 equal parents are written with count zero and cannot be read back |
| HeaderRuns.WriteRuns | org/minima/objects/tx_header.cpp:183-216 | the counter loop writes each maximal run once |
| HeaderRuns.RunBytesAre | org/minima/objects/tx_header.cpp:200-214 | a run is its count, four bytes of length and the parent |
| HeaderRuns.ReadRuns | org/minima/objects/tx_header.cpp:239-258 | the fill loops, with failure on overshoot or a stream that ends early |
| Magic.LimitStep | org/minima/objects/magic.cpp:141-194 | from at or above its floor a limit never falls below it and grows by at most one part in 16384, under any rounding down |
| Magic.LimitMoves | org/minima/objects/magic.cpp:141-194 | with exact arithmetic a limit moves one 16384th of the way to the wish; below half the value or the floor the wish acts as the higher of these, above double as double |
| Magic.LimitFollowsWish | org/minima/objects/magic.cpp:141-194 | under any rounding down a higher wish never gives a lower limit |
| Magic.WorkStep | org/minima/objects/magic.cpp:196-222 | the work moves by the rounded-down 16384th part of the distance, keeps within the cap, and below 16384 never rises |
| Magic.WorkMoves | org/minima/objects/magic.cpp:196-222 | the work moves by the rounded-down 16384th of the way to the wish, which counts as half, double or the cap where it goes beyond them |
| Magic.NextMoves | org/minima/objects/magic.cpp:141-225 | with exact arithmetic and wishes in reach, each of the four values moves by its own distance to its own wish |
| Magic.RunWithinLimits | org/minima/objects/magic.cpp:141-225 | all of this over every run with any desired values |
| Magic.CalculateNewCurrent | org/minima/objects/magic.cpp:141-225 | one call takes that step on all four values |
| Transaction.SumToken | org/minima/objects/transaction.cpp:123-149 | the sum over the coins with exactly that token id |
| Transaction.OutputTokens | org/minima/objects/transaction.cpp:189-201 | the output token ids with CREATE turned into MINIMA |
| Transaction.TokensCovered | org/minima/objects/transaction.cpp:203-222 | true exactly when no listed token has more output than input |
| Transaction.InputsDistinct | org/minima/objects/transaction.cpp:224-235 | true exactly when no coin id occurs twice |
| Transaction.CheckValid | org/minima/objects/transaction.cpp:152-238 | accepts exactly the transactions with valid amounts that create no value overall or in any token but CREATE and spend no coin twice |
| Transaction.CoveredMeans | org/minima/objects/transaction.cpp:189-222 | checking the output tokens checks every token but CREATE |
| Transaction.GetBurn | org/minima/objects/transaction.cpp:241-252 | inputs less outputs, not negative on an accepted transaction |
| Transaction.CreateCovered | org/minima/objects/transaction.cpp:189-222 | CREATE and MINIMA outputs exceed their inputs by at most what other tokens leave over |
| Transaction.CreateCoveredExactly | org/minima/objects/transaction.cpp:189-222 | no accepted transaction with these inputs pays for CREATE and MINIMA outputs with other tokens if and only if the inputs hold none |
| Transaction.CreateNotCovered | org/minima/objects/transaction.cpp:189-222 | an accepted transaction whose CREATE output exceeds its MINIMA input |

## Left out

- CascadeHeap.Cascade.ReadDataStream: only streams of the matching writer; the recovery that skips bad nodes and counts failures is not modelled.
- TxPowTreeObject.TxPowTree.ReadDataStream: only streams the writer makes of a tree, old counts included; orphans, empty ids, the failure counter and a count with no record behind it are not modelled.
- TxPowTreeObject.TxPowTree.LoadNode: only records of the matching writer, whose parent is indexed and whose id is new.
- TxPowTreeObject.TxPowTree.AddBlock: the number range, the transaction look-up and the block check that come before are not part of the method; of what they demand only a number above the parent's is required (tx_po_w_checker.cpp:290), and the sync path that trusts its blocks skips even that.
- ChainRuns.EveryRunConsistent: of the block check only the super-parent part is modelled; a header is found by its id through a given function.
- IBDBuild.IBDMessage.CreateIBD: our branch, cascade and archive are values read once under the lock; a cascade inside a message is a value with its nodes and weight.
- Processor.RecalculateTree: archive writes, MMR copies, notifications and on-chain marks between the modelled calls are not modelled.
- MiniNumber arithmetic: cascade weights use two unspecified operations, the Magic limits any monotone rounding down, and transaction sums exact reals; tree and message sums are exact reals too, which `Sums.dfy` justifies.
- Integer widths: counters, block numbers and lengths are unbounded; only the two-byte address length and the one-byte run count wrap as in the program.
- Bytes of MiniNumber, TxPoW and TxBlock in the cascade and tree streams: each value is one token.
- Weak pointers: a parent pointer in the tree is an ordinary reference, and the memory of dropped nodes is not modelled.
- The pulse list, coin lists and MMR links of tree nodes: derived data no modelled decision reads.
- The 30-second lock log, the reentrancy warning and the counter getters of the lock: output only.
- The archive: two maps, from id to number and from number to block; SQL is not part of this model.
- createSyncIBD, createArchiveIBD and checkValidData: message builders that depend on global stores and user settings.
- Hashing, floating-point logarithms, the weight string, encode16 and decode16, JSON output, contracts, networking, files and start-up.
