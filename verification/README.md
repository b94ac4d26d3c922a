# Verified core of an Ethereum consensus client

A Dafny model of the algorithmic cores of eth2030, a Go implementation of Ethereum execution and consensus
components, with proofs about all inputs, all runs and all reachable states.

- **Parallel execution from block access lists.** Read and write sets become conflicts, conflicts a dependency
  graph, the graph waves, stages and worker batches. The waves are proved serializable for every block whose
  transactions stay inside their declared footprint, and no plan has fewer of them. Every level computation of the
  package equals the longest dependency chain; the topological sort succeeds exactly on acyclic graphs. What wrapped
  64-bit numbers cost is exact: when pipeline stages are a wave plan, and up to which totals the worker assignment is
  balanced and within Graham's bound. Colour groups keep block order exactly when they are the levels. The footprint
  hypothesis is stated on the entries of the list; it lets a transaction read the balance, nonce or code of an account
  only if one of its own entries changes that account, because the detector records no account reads.
- **Fork choice.** The proto-array with absolute indices, pruning offset and rebuilt pointers refines a plain
  LMD-GHOST store (section "get_head" of the phase 0 fork choice of the Ethereum consensus specifications): each call
  of the object is one step of the store, and the head is the end of the rule's walk. What a run leaves behind and where
  the head can be are also told from the calls and the block epochs alone. Pruning, however often, is invisible under an
  exact condition. The map-based implementation sums weights in one pass; when its weights and when
  its head are right is exact, and then both objects return the same head for the same feed.
- **Finality.** The one-round quorum engine and the double-vote detector together give accountable safety across
  replicas; the Casper FFG tracker (section "Justification and finalization" of the phase 0 beacon chain) keeps its
  checkpoints ordered, monotone and backed by two thirds over whole runs, safely and lively up to exact totals; which
  checkpoint it has finalized is told from the epochs that passed, and when, alone.
- **Shuffling and committees.** The swap-or-not shuffle is a bijection for every hash function, and committees
  partition the capped validators, both exactly as far as 64-bit arithmetic carries them. What a round decides is told
  from the digest read as a number.
- **Merkle trees, square root, bitfields.** Sparse merkleization equals the padded tree (section "Merkleization" of the
  SSZ specification), branches lead back to the root, Newton's square root is exact at 64 bits, and greedy
  attestation aggregation conserves participations and is maximal.

## How it is laid out

Each Go object whose methods update fields is a class; its `View` function gives an abstract state, every method's
contract equates the new view with a step function of the old one, and the theorems are lemmas about runs of those
steps. Loops are methods with invariants. Hash functions, signature aggregation and block roots are parameters, so
the results hold for any of them. 64-bit arithmetic is written out (`% TWO_64`) where a result depends on it.

| file | content |
|---|---|
| `Collections.dfy`, `Arithmetic.dfy`, `Hashes.dfy` | sequences, sets, division, byte order of hashes |
| `BalGraph.dfy`, `BalTopoSort.dfy`, `BalLevels.dfy`, `BalCriticalPath.dfy`, `BalReach.dfy` | dependency graphs |
| `BalConflicts.dfy`, `BalSchedule.dfy`, `BalWorkers.dfy`, `BalThresholds.dfy`, `BalSerializability.dfy`, `BalFootprint.dfy`, `BalExecution.dfy`, `BalColouring.dfy`, `BalColourOrder.dfy` | access lists to parallel plans |
| `GhostRule.dfy`, `ForkChoiceStore.dfy`, `ForkChoiceTrace.dfy` | the rule, the abstract store and what its runs leave behind |
| `ProtoArray.dfy`, `ForkChoiceV2.dfy`, `ForkChoiceOverflow.dfy` | the proto-array object and its 64-bit limits |
| `LmdRule.dfy`, `LmdForkChoice.dfy`, `LmdExact.dfy`, `LmdHead.dfy`, `LmdStore.dfy`, `LmdAgreement.dfy`, `LmdMisled.dfy` | the map-based object and the comparison |
| `FinalityRounds.dfy`, `EquivocationDetector.dfy`, `AccountableSafety.dfy`, `CasperFinality.dfy`, `FinalizationRule.dfy` | finality |
| `Shuffling.dfy`, `Committees.dfy` | shuffling and committees |
| `Merkle.dfy`, `SquareRoot.dfy`, `Bitfields.dfy`, `Aggregation.dfy`, `AggregationPool.dfy` | kernels and the attestation pool |

`dafny verify dfyconfig.toml` checks the whole project.

## Where code and comments differ

The model follows the code.

- `VoteStore.RecordVote` says an equal epoch is a no-op; the code replaces the vote (pkg/consensus/fork_choice_lmd.go:59-71).
- `isNodeViable` says the justified epoch must be at least the store's; the code asks for equality or a genesis checkpoint
  (pkg/consensus/fork_choice_v2.go:320-330).
- `computeSubtreeWeights` says descending slots process children first; `OnBlock` does not check slots, and
  `LmdExact.OnePassIsRightExactlyWhen` and `LmdHeads.HeadIsRightExactlyWhen` give the exact conditions.
- `BuildPlan` says each stage is free of conflicts; `Scheduling.BuildPlan` gives the exact condition, which the access
  indices 2^63 and above can fail (pkg/bal/scheduler_pipeline.go:65-82).
- `isSuperMajority` is called safe from overflow; `CasperFinality.SuperMajorityIsTwoThirds` gives the exact range.

## Model

| member | source | states |
|---|---|---|
| BalConflicts.ExtractRWSets | pkg/bal/conflict_detector.go:178-209 | each transaction index maps to exactly the storage reads, storage writes and account changes its entries declare; pre-execution entries count for none |
| BalConflicts.TxIndexIsInjective | pkg/bal/conflict_detector.go:184 | the 64-bit conversion of access index to transaction index never merges two transactions |
| AccessFootprints.OwnIsBelongs | pkg/bal/conflict_detector.go:181-184 | an entry is filed under transaction n exactly when its index is not 0 and is n + 1 modulo 2^64, n being a signed 64-bit number |
| AccessFootprints.FootprintIsExtracted | pkg/bal/conflict_detector.go:178-209 | the extracted sets of a transaction hold a slot exactly when one of its own entries reads or changes it, and an account exactly when one of its own entries there changes balance, nonce or code |
| AccessFootprints.ConflictIsListClash | pkg/bal/conflict_detector.go:178-308 | two transactions conflict if and only if an entry of one and an entry of the other are at one address and either both change balance, nonce or code, or one changes a slot that the other touches |
| BalConflicts.DetectPairConflicts | pkg/bal/conflict_detector.go:247-308 | lists every write-write, read-write, write-read and account clash of the two declared sets exactly once, and nothing else |
| BalConflicts.ConflictingHasWitness | pkg/bal/conflict_detector.go:247-308 | two sets clash exactly when there is some reported conflict between them |
| BalConflicts.DetectConflicts | pkg/bal/conflict_detector.go:213-244 | lists every conflict of the block exactly once and no other, ordered by transaction pair |
| BalConflicts.AddConflictEdges | pkg/bal/conflict_detector.go:356-365 | each later transaction gets an edge to exactly the earlier ones it conflicts with |
| BalConflicts.BuildDependencyGraph | pkg/bal/conflict_detector.go:347-375 | nodes are the declared transactions; the sorted list of each holds exactly the earlier transactions whose declared sets clash with its own |
| BalConflicts.ConflictGraphIsAcyclic | pkg/bal/conflict_detector.go:344-375 | a graph built from an access list has no cycle and points only to earlier transactions |
| DependencyGraphs.StuckSetHasCycle | pkg/bal/scheduler.go:272-274 | a set of nodes each waiting for another of the set contains a cycle |
| DependencyGraphs.LongestStep | pkg/bal/types_extended.go:307-320 | one more than the deepest dependency is the length of the longest chain ending at a node |
| DependencyGraphs.LevelsAreOptimal | pkg/bal/scheduler.go:279-311 | in any schedule that respects the dependencies a node runs no earlier than its longest chain |
| DependencyGraphs.LevelsAreContiguous | pkg/bal/scheduler.go:294-309 | below a node at level k every smaller level is inhabited |
| DependencyGraphs.ChainBound | pkg/bal/types_extended.go:307-320 | chains of an acyclic graph never repeat a node and are no longer than the graph is large |
| TopologicalSort.BuildDegrees | pkg/bal/scheduler.go:229-246 | in-degrees count list entries, duplicates included, over all nodes mentioned; the forward lists are the edges reversed with multiplicity |
| TopologicalSort.InitialQueue | pkg/bal/scheduler.go:248-255 | the first queue is the nodes without dependencies, ascending |
| TopologicalSort.Release | pkg/bal/scheduler.go:261-268 | each counter drops by its multiplicity among the neighbours, and exactly the nodes that reach zero are queued |
| TopologicalSort.Pop | pkg/bal/scheduler.go:257-269 | one round keeps the order smallest-first, the counters exact and the queue sorted and complete |
| TopologicalSort.DryQueueHasCycle | pkg/bal/scheduler.go:272-274 | if the queue runs dry with a node missing, the graph has a cycle |
| TopologicalSort.TopoSort | pkg/bal/scheduler.go:228-277 | returns an order if and only if the graph is acyclic; the order lists every node once, after its dependencies, always taking the smallest ready node |
| TopologicalSort.SmallestFirstIsUnique | pkg/bal/scheduler.go:253-269 | the smallest-first order is unique, so the result does not depend on map iteration |
| WaveLevels.AssignLevels | pkg/bal/scheduler.go:283-293 | the level of every node is the length of the longest chain ending at it |
| WaveLevels.BuildWaves | pkg/bal/scheduler.go:281-311 | wave k holds exactly the nodes whose longest chain has k edges, each node once, no wave empty |
| WaveLevels.FewestWaves | pkg/bal/scheduler.go:281-311 | no dependency-respecting schedule uses fewer waves |
| WaveLevels.WavesSeparateDependencies | pkg/bal/scheduler.go:281-311 | a dependency is always in an earlier wave |
| WaveLevels.ComputeLevel | pkg/bal/types_extended.go:307-320 | the memoised recursion returns the longest chain length, adds to the memo only nodes that lead to the one asked for, and leaves it closed under dependencies |
| WaveLevels.ScheduleFromGraph | pkg/bal/types_extended.go:286-304 | every node once, in ascending order, at its longest-chain level |
| WaveLevels.WaveCount | pkg/bal/types_extended.go:323-334 | one more than the largest wave used, zero for none |
| WaveLevels.ComputeDepths | pkg/bal/scheduler_pipeline.go:182-204 | finds a depth for exactly the transactions from which a chain leads into 0 to numTx, and it is the longest chain length; an index that is no node has depth 0 |
| WaveLevels.FindParallelGroups | pkg/bal/conflict_detector_graph.go:172-202 | the groups are the level waves, each ascending |
| CriticalPaths.ComputeDepth | pkg/bal/conflict_detector_graph.go:305-330 | depths are longest chain lengths and each recorded parent is a deepest dependency |
| CriticalPaths.TraceBack | pkg/bal/conflict_detector_graph.go:344-355 | following parents back and reversing gives what follows the last -1 in a longest chain to the start |
| CriticalPaths.CriticalPath | pkg/bal/conflict_detector_graph.go:295-356 | returns a chain no other chain exceeds; when -1 is a node, what follows -1 in such a chain |
| CriticalPaths.MarkerCuts | pkg/bal/conflict_detector_graph.go:344-355 | nothing of the chain is cut off exactly when -1 is not on it |
| CriticalPaths.WavesMatchCriticalPath | pkg/bal/conflict_detector_graph.go:295-356 | the number of waves equals the critical path length |
| Reachability.Visit | pkg/bal/conflict_detector_graph.go:407-417 | the depth-first visit adds only what the node waits for and leaves a set closed under dependencies, on graphs with cycles too |
| Reachability.TransitiveDeps | pkg/bal/conflict_detector_graph.go:402-425 | ascending list of exactly the nodes reachable through dependencies |
| Reachability.TransitiveDependents | pkg/bal/conflict_detector_graph.go:429-460 | ascending list of exactly the nodes that transitively wait for the transaction, the converse relation |
| Reachability.AcyclicIffNothingWaitsForItself | pkg/bal/conflict_detector_graph.go:402-425 | a graph is acyclic exactly when no node is among its own transitive dependencies |
| Scheduling.Schedule | pkg/bal/scheduler.go:104-142 | a wave plan for the declared transactions with the fewest waves of any plan; the only error is an access list that declares none |
| Scheduling.LevelWavesArePlan | pkg/bal/scheduler.go:104-142 | level waves partition the declared transactions and put the earlier of every conflicting pair in an earlier wave |
| Scheduling.LevelWavesAreFewest | pkg/bal/scheduler.go:104-142 | any partition that does so has at least as many waves |
| AccessFootprints.ClashingEntriesAreSplit | pkg/bal/scheduler.go:104-142 | in every wave plan two transactions with such entries are in different waves, the earlier one first |
| Scheduling.GraphFromConflicts | pkg/bal/types_extended.go:259-275 | edges are exactly the conflicts, each once; nodes are exactly the indices below numTx and the ends of conflicts |
| Scheduling.StagesArePlan | pkg/bal/scheduler_pipeline.go:90-142 | grouping by computed depth gives a wave plan if and only if the transactions without a depth wait for nothing |
| Scheduling.StagesAreFewest | pkg/bal/scheduler_pipeline.go:90-142 | no wave plan has fewer waves than there are stages |
| Scheduling.NumTx | pkg/bal/scheduler_pipeline.go:76-83 | one past the largest index that is neither negative nor the largest int, whose successor wraps |
| Scheduling.MissingAreFreeWhenSeen | pkg/bal/scheduler_pipeline.go:88-96 | which is the case exactly when every transaction in conflict with an earlier one is seen: a chain of conflicts leads from it to an index in 0 to 2^63 - 2 |
| Scheduling.OrdinaryIndicesAreSeen | pkg/bal/scheduler_pipeline.go:74-96 | all are seen when every access index is below 2^63 |
| Scheduling.BuildPlan | pkg/bal/scheduler_pipeline.go:69-143 | the stages carry the greedy worker batches of a grouping in which every transaction after the first stage conflicts with an earlier one in the stage before; it is a wave plan, then one with the fewest waves, if and only if every transaction in conflict with an earlier one is seen; the stated maximum is the size of a largest stage; error exactly when nothing is declared |
| Execution.TwoWritersAreSplitExactlyWhen | pkg/bal/scheduler_pipeline.go:74-96 | the plan for two transactions that write one slot has a stage for each if and only if the later index is neither negative nor 2^63 - 1, and otherwise one stage with both |
| Execution.SharedStageLosesOrder | pkg/bal/scheduler_pipeline.go:74-178 | two workers then get one of them each, and running the later first ends in another state than block order; access indices 1 and 2^63 are such a pair |
| WorkerAssignment.AssignWorkers | pkg/bal/scheduler_pipeline.go:148-178 | the non-empty batches of an assignment that gives each task to the first worker showing the least gas |
| WorkerAssignment.GasIsConserved | pkg/bal/scheduler_pipeline.go:148-178 | worker loads add up to the total gas |
| WorkerAssignment.GreedyIsBalanced | pkg/bal/scheduler_pipeline.go:148-178 | with total gas below 2^64 plus the number of workers, or one worker, any two workers differ by at most the largest task |
| WorkerAssignment.GreedyIsNearlyOptimal | pkg/bal/scheduler_pipeline.go:148-178 | if a stage can be done within some load and (2 - 1/workers) times that load is at most 2^64, or there is one worker, no worker exceeds that product |
| WorkerThresholds.BalancedExactlyBelow | pkg/bal/scheduler_pipeline.go:158-168 | for two or more workers the balance holds for every stage of at most T gas if and only if T is below 2^64 plus the number of workers; a stage of workers + 2 different transactions breaks it from there on |
| WorkerThresholds.NearlyOptimalExactlyBelow | pkg/bal/scheduler_pipeline.go:158-168 | for two or more workers the bound holds for every stage that can be done within a given load if and only if the bound is itself at most 2^64; a stage of at most 2 * workers * workers different transactions breaks it from there on |
| Execution.BatchesHoldEachTask | pkg/bal/scheduler_pipeline.go:148-178 | the batches hold each task of the stage exactly once |
| Execution.TasksCarryGas | pkg/bal/scheduler_pipeline.go:117-127 | every task of a plan carries the gas limit given for its transaction, 21000 without one |
| Serializability.Commute | pkg/bal/conflict_detector.go:247-308 | transactions inside non-clashing footprints commute on every state |
| Serializability.ConflictOrderIsEnough | pkg/bal/scheduler.go:104-142 | any order that keeps conflicting pairs in block order ends in the block-order state |
| Serializability.WavesAreSerializable | pkg/bal/scheduler.go:104-142 | a plan's waves in order, each wave in any order, end in the state of block order |
| Serializability.PlannedRunIsBlockOrder | pkg/bal/scheduler.go:104-142 | also for blocks with transactions the access list does not mention |
| Serializability.WaveRunsAtOnce | pkg/bal/scheduler.go:101-142 | every location ends as its one writer in the wave computes it from the state before the wave |
| Execution.ParallelRunIsBlockOrder | pkg/bal/scheduler.go:101-142 | executing every wave of a plan at once, all members reading the state before the wave, ends in the state of the whole block in order |
| Execution.ExecuteSchedule | pkg/bal/scheduler.go:104-142 | for every block whose transactions touch only what their own entries let them, the three fields of an account apart, running the waves `Schedule` returns ends in the state of the block in order; error exactly when all entries are from before execution |
| Execution.PlanRunsBlockOrder | pkg/bal/scheduler_pipeline.go:69-143 | any interleaving of the batches of a plan, stage after stage, ends in the state of the block in order, when all conflicts are seen |
| Execution.ExecutePlan | pkg/bal/scheduler_pipeline.go:69-143 | for every such block, running the stages `BuildPlan` returns ends in the state of the block in order when all conflicts are seen; the same error |
| Colouring.CollectAccess | pkg/bal/parallel.go:36-66 | per transaction exactly the declared reads and writes, an account change filed as a write of slot zero |
| Colouring.TxsConflict | pkg/bal/parallel.go:158-175 | true exactly when one writes what the other reads or writes |
| Colouring.ClashIsConflictOrZeroSlot | pkg/bal/parallel.go:158-175 | this test reports exactly the detector's conflicts and the clashes of an account change with storage slot zero |
| Colouring.BuildAdjacency | pkg/bal/parallel.go:79-98 | neighbours of a transaction are exactly the others it conflicts with |
| Colouring.GreedyColours | pkg/bal/parallel.go:100-120 | neighbours get different colours, every smaller colour is taken by an earlier neighbour, and no colour exceeds the number of neighbours |
| Colouring.ComputeParallelSets | pkg/bal/parallel.go:29-141 | every transaction in exactly one ascending group, no conflicting pair in a group, every transaction in conflict with an earlier one in each group before its own, at most one group more than the largest conflict degree |
| AccessFootprints.ClashIsListed | pkg/bal/parallel.go:36-175 | two transactions conflict here if and only if their entries clash as above, or one changes an account whose slot zero the other touches |
| AccessFootprints.ClashingEntriesAreGroupedApart | pkg/bal/parallel.go:29-141 | two such transactions are in different groups |
| ColourOrder.GroupsAreUnique | pkg/bal/parallel.go:100-141 | these properties determine the grouping |
| ColourOrder.OrderKeptExactlyWhen | pkg/bal/parallel.go:100-141 | the groups keep all conflicting pairs in block order if and only if every transaction conflicts directly with an earlier one of each smaller level, that is, if and only if the groups are the levels |
| ColourOrder.GroupsRunBlockOrder | pkg/bal/parallel.go:29-141 | under that condition, for every such block, running the groups in turn ends in the state of the block in order |
| ColourOrder.ThreeWritersAreGrouped | pkg/bal/parallel.go:29-141 | for an access list of three writers every grouping the code can return puts the third transaction before the second |
| ColourOrder.GroupsDoNotKeepBlockOrder | pkg/bal/parallel.go:29-141 | and running that grouping ends in another state than block order |
| Hashes.HashGreater | pkg/consensus/fork_choice_v2.go:451-461 | whether the first hash is the larger number, first byte highest: lexicographic byte order |
| GhostRule.OpenSplits | pkg/consensus/fork_choice_v2.go:402-428 | a subtree holds a viable block exactly when its root is viable or a child's subtree does |
| GhostRule.BestExists | pkg/consensus/fork_choice_v2.go:439-447 | among open children exactly one beats all others by weight, then root |
| GhostRule.HeadIsViable | pkg/consensus/fork_choice_v2.go:171-216 | the walk from a subtree with a viable block ends at a viable descendant without open children |
| GhostRule.OnlyBalancesCount | pkg/consensus/fork_choice_v2.go:356-367 | a validator without a balance adds nothing to a weight, any other adds its balance |
| GhostRule.PassSum | pkg/consensus/fork_choice_v2.go:369-380 | handing a block's weight to its parent adds it to the parent's sum and to no other |
| GhostRule.SumIsVoteWeight | pkg/consensus/fork_choice_v2.go:348-380 | subtree sums of direct votes are the balances of the validators whose latest vote is in the subtree |
| ProtoArrays.AddVotes | pkg/consensus/fork_choice_v2.go:356-367 | direct weights are the balances of the validators voting for each block, in any order, modulo 2^64 |
| ProtoArrays.PassWeights | pkg/consensus/fork_choice_v2.go:369-380 | the reverse sweep leaves every node with its subtree's sum modulo 2^64 |
| ProtoArrays.MaybeUpdateBest | pkg/consensus/fork_choice_v2.go:402-448 | computes the offer of a child to its parent, all early returns included |
| ProtoArrays.OfferMovesOn | pkg/consensus/fork_choice_v2.go:402-448 | offering node i makes every node's pointers describe its best open child from i on |
| ProtoArrays.RebuildPointers | pkg/consensus/fork_choice_v2.go:382-394 | best child and best descendant of every node are the rule's best open child and the end of the walk through it |
| ForkChoiceMachine.PropagateWeights | pkg/consensus/fork_choice_v2.go:348-395 | weights are vote weights modulo 2^64 and pointers follow the rule, blocks unchanged |
| ForkChoiceMachine.ApplyVoteDeltas | pkg/consensus/fork_choice_v2.go:335-343 | every pending vote becomes current, none is lost |
| ForkChoiceMachine.WalkPointers | pkg/consensus/fork_choice_v2.go:189-215 | follows best-descendant, then best-child pointers as coded |
| ForkChoiceMachine.PointerWalkIsHead | pkg/consensus/fork_choice_v2.go:189-215 | on rebuilt pointers this walk ends where the rule's walk ends |
| ForkChoiceMachine.ForkChoiceV2.OnBlock | pkg/consensus/fork_choice_v2.go:108-145 | the array stays consistent and represents the store with the block added at the end, with its slot, root and epochs, on the parent named; errors exactly for duplicate blocks and unknown parents |
| ForkChoiceMachine.ForkChoiceV2.OnAttestation | pkg/consensus/fork_choice_v2.go:149-167 | a vote of an equal or newer epoch replaces the recorded one |
| ForkChoiceMachine.ForkChoiceV2.SetBalance | pkg/consensus/fork_choice_v2.go:99-103 | refines the store's balance update |
| ForkChoiceMachine.ForkChoiceV2.UpdateJustifiedCheckpoint | pkg/consensus/fork_choice_v2.go:234-240 | only a higher epoch replaces the checkpoint |
| ForkChoiceMachine.ForkChoiceV2.UpdateFinalizedCheckpoint | pkg/consensus/fork_choice_v2.go:244-250 | only a higher epoch replaces the checkpoint |
| ForkChoiceMachine.ForkChoiceV2.Prune | pkg/consensus/fork_choice_v2.go:253-285 | drops exactly the blocks before the given root; index map and offset stay consistent; parents before it are gone |
| ForkChoiceMachine.ForkChoiceV2.GetHead | pkg/consensus/fork_choice_v2.go:171-216 | returns the end of the walk from the justified root that takes the open child with the largest (64-bit vote weight, root); error exactly when the justified root is unknown; the store is unchanged |
| ForkChoiceStores.RunKeepsWellFormed | pkg/consensus/fork_choice_v2.go:108-145 | over every run parents precede children and roots differ |
| ForkChoiceStores.VotesAreLatestMessages | pkg/consensus/fork_choice_v2.go:149-167 | after any run the vote of a validator is its latest attestation by epoch, then by arrival |
| ForkChoiceTraces.CheckpointsAreHighest | pkg/consensus/fork_choice_v2.go:234-250 | after any run the justified checkpoint is the first of the highest epoch among the one at the start and those given to the calls, and so is the finalized one |
| ForkChoiceTraces.BlocksWereGiven | pkg/consensus/fork_choice_v2.go:108-145 | after any run every block of the tree was given by a call with this slot, root, parent and justified and finalized epoch |
| ForkChoiceTraces.BalancesAreLastSet | pkg/consensus/fork_choice_v2.go:99-103 | after any run the balance of a validator is the last one set |
| ForkChoiceTraces.HeadByEpochs | pkg/consensus/fork_choice_v2.go:171-216 | whatever the weights: if some block strictly below the justified root has the justified epoch of the store, unless that is 0, and its finalized epoch, unless that is 0, then the head is such a block; if none has, the head is the justified root; without the justified root there is none |
| ForkChoiceStores.WeightsExactWhenTheyFit | pkg/consensus/fork_choice_v2.go:356-380 | 64-bit weights equal the true weights exactly when every parentless block weighs less than 2^64 |
| ForkChoiceStores.HeadIsGhostWhenWeightsFit | pkg/consensus/fork_choice_v2.go:171-216 | then the head is the LMD-GHOST head |
| ForkChoiceOverflow.RunHeadIsGhost | pkg/consensus/fork_choice_v2.go:171-216 | after any run whose balances add up to less than 2^64 the head is the LMD-GHOST head |
| ForkChoiceOverflow.OverflowMovesHead | pkg/consensus/fork_choice_v2.go:356-380 | a run of nine calls from an empty store, with balances of exactly 2^64, after which the 64-bit weights give another head than the rule |
| ForkChoiceOverflow.HeadIsGhostExactlyBelow | pkg/consensus/fork_choice_v2.go:171-216 | the head is the LMD-GHOST head after every run whose balances add up to at most T if and only if T is below 2^64 |
| ForkChoiceStores.PruningIsInvisible | pkg/consensus/fork_choice_v2.go:253-285 | pruning leaves the head unchanged if and only if the justified root is not among the blocks before the one pruned to |
| ForkChoiceStores.PruningStaysInvisible | pkg/consensus/fork_choice_v2.go:253-318 | over any calls, with any number of prunings among them and late blocks on discarded forks, the head is that of the run without the prunings if and only if no pruning has discarded a known justified root; a block on a kept block must not be one that was discarded |
| LmdRule.RulesAgree | pkg/consensus/fork_choice_lmd.go:236-253 | with all blocks viable the lower-root and the higher-root rule end at the same block if and only if at no block of the walk two children tie for heaviest |
| LmdRule.RecursiveIsSubtree | pkg/consensus/forkchoice.go:141-151 | the recursive subtree weight is the subtree sum modulo 2^64 |
| LmdForkChoice.SortBySlot | pkg/consensus/fork_choice_lmd.go:279-286 | the exchange sort keeps every block once, highest slot first, and leaves a list in such an order as it is, so any such order may come out |
| LmdForkChoice.PassSumsSubtrees | pkg/consensus/fork_choice_lmd.go:288-294 | in any order by descending slot each block ends with its subtree's sum, when grandchildren are later than their parents |
| LmdExact.OnePassIsRightExactlyWhen | pkg/consensus/fork_choice_lmd.go:263-297 | the pass is right for all votes and all such orders if and only if every block whose parent has a parent is at a later slot than its parent |
| LmdHeads.CleanIsRight | pkg/consensus/fork_choice_lmd.go:288-294 | a block gets its subtree's sum in every such order when no block two or more levels below it is as early as its parent |
| LmdHeads.HeadIsRightExactlyWhen | pkg/consensus/fork_choice_lmd.go:216-297 | the walk over one-pass weights ends at the rule's head, for all votes and all such orders, if and only if every block below the start that has a sibling is of that kind; the first block's parent must not be in the tree |
| LmdStores.ComputeSubtreeWeights | pkg/consensus/fork_choice_lmd.go:263-297 | the result is a pass in some order by descending slot over the direct votes; under that condition every block gets the balances voting at or below it, modulo 2^64 |
| LmdStores.OnePassIsRecursive | pkg/consensus/forkchoice.go:141-151 | which is the recursive subtree weight of the direct votes |
| LmdStores.PickChild | pkg/consensus/fork_choice_lmd.go:243-251 | the heaviest child, the lowest root among equals |
| LmdStores.Walk | pkg/consensus/fork_choice_lmd.go:236-253 | ends where repeatedly taking the best child ends |
| LmdStores.FindAnyRoot | pkg/consensus/fork_choice_lmd.go:301-308 | the first block, or the zero hash when its parent is known |
| LmdStores.LmdGhostForkChoice.OnBlock | pkg/consensus/fork_choice_lmd.go:165-187 | children lists and parents keep representing the tree, the new block joins its parent's children; errors exactly for duplicates and unknown parents |
| LmdStores.LmdGhostForkChoice.ProcessAttestation | pkg/consensus/fork_choice_lmd.go:191-210 | records the vote unless the block is unknown or the recorded vote is newer |
| LmdStores.LmdGhostForkChoice.GetHead | pkg/consensus/fork_choice_lmd.go:216-258 | the end of the walk, from the justified or else the first block, over the weights of a pass in some order by descending slot; the rule's head when every block with a sibling gets its full weight; exact error and reorg conditions, store unchanged |
| LmdStores.LaterIsUncontested | pkg/consensus/fork_choice_lmd.go:279-294 | which is the case when every block whose parent has a parent is at a later slot than its parent |
| LmdAgreement.MatchingHeads | pkg/consensus/fork_choice_lmd.go:216-258 | stores with the same shape, votes and voter balances have the same head under both rules if and only if no tie lies on the walk, when the justified block is there; otherwise the proto-array has none |
| LmdAgreement.SameFeedSameHead | pkg/consensus/fork_choice_lmd.go:165-258 | the same blocks, and votes for known blocks at fixed stakes, give both rules the same head at genesis checkpoints if and only if no tie lies on the walk, when the justified block is there |
| LmdAgreement.HeadsAfter | pkg/consensus/fork_choice_lmd.go:165-297 | both objects, driven by the same feed through their own calls, return the same head from `GetHead` if and only if no tie lies on the walk, when every block with a sibling gets its full weight; the proto-array fails exactly without the justified block, where the map-based object falls back to the first block |
| LmdAgreement.LaterIsUnmisled | pkg/consensus/fork_choice_lmd.go:165-187 | which every block does when each block of the feed is at a later slot than its parent |
| LmdMisled.EqualSlotsMislead | pkg/consensus/fork_choice_lmd.go:263-297 | a feed of five blocks at one slot, three votes and no sibling ties, after which the map-based object can return another head than the proto-array |
| FinalityRounds.VoteKeepsRound | pkg/consensus/endgame_engine_v2.go:188-203 | per-hash counters equal recorded votes, voters are eligible, and a hash is finalized exactly when it has a quorum |
| FinalityRounds.RunKeepsEngine | pkg/consensus/endgame_engine_v2.go:151-243 | this holds of every round after every run, and finalized rounds are in the history and the retention window |
| FinalityRounds.FinalizedAboveTwoThirds | pkg/consensus/endgame_engine_v2.go:74-203 | over every run a round of one validator or more is finalized for a hash if and only if more than two thirds of its validators have voted for that hash |
| FinalityRounds.RunTracesCalls | pkg/consensus/endgame_engine_v2.go:151-243 | over every run a round has the number of validators it was started with, the latest slot is the highest of the history, and the history starts within the retention window |
| FinalityRounds.RecordedVotesWereCast | pkg/consensus/endgame_engine_v2.go:167-206 | every recorded vote was cast by a call |
| FinalityRounds.FinalityIsKept | pkg/consensus/endgame_engine_v2.go:209-243 | a finalized round never changes while its slot is within the retention window of the latest one |
| FinalityRounds.RetainedExactlyInWindow | pkg/consensus/endgame_engine_v2.go:224-243 | and is there exactly as long as that |
| FinalityRounds.OneHashPerSlot | pkg/consensus/endgame_engine_v2.go:151-243 | over whole runs, pruning and restarting included, a slot is never reported finalized with two hashes |
| FinalityRounds.EndgameFinality.StartRound | pkg/consensus/endgame_engine_v2.go:151-162 | an existing round is returned unchanged, a new one is empty and has the given number of validators |
| FinalityRounds.EndgameFinality.CastVote | pkg/consensus/endgame_engine_v2.go:167-206 | refines the engine step; errors in the order of the source, with nothing changed; an accepted vote is added to the round |
| FinalityRounds.EndgameFinality.FinalizeRound | pkg/consensus/endgame_engine_v2.go:209-220 | marks the round, moves the latest slot forward and prunes |
| FinalityRounds.EndgameFinality.PruneOldRounds | pkg/consensus/endgame_engine_v2.go:224-243 | drops the rounds and the history prefix below the cutoff |
| FinalityRounds.EndgameFinality.CleanUp | pkg/consensus/endgame_engine_v2.go:334-346 | drops the older rounds that never finalized, and only those |
| EquivocationDetector.RunKnows | pkg/consensus/finality_equivocation_detector.go:80-201 | after any run both evidence indexes hold, for every slot and validator, exactly the evidence of the votes heard since the slot was last pruned |
| EquivocationDetector.EvidenceIffTwoRoots | pkg/consensus/finality_equivocation_detector.go:80-201 | there is evidence if and only if the validator voted for two roots, the earlier vote not pruned since; the two indexes agree |
| EquivocationDetector.EvidenceNamesVotes | pkg/consensus/finality_equivocation_detector.go:80-129 | every entry of both indexes names two recorded votes of its validator in its slot, the earlier first, each root with its own signature |
| EquivocationDetector.TotalCountsFound | pkg/consensus/finality_equivocation_detector.go:108-129 | the counter is the number of votes that contradicted the first one heard |
| EquivocationDetector.Compact | pkg/consensus/finality_equivocation_detector.go:188-194 | in-place compaction keeps exactly the later slots, in order |
| EquivocationDetector.RebuildEvidence | pkg/consensus/finality_equivocation_detector.go:186-200 | every validator's list compacted, emptied validators removed |
| EquivocationDetector.FinalityEquivocationDetector.RecordVote | pkg/consensus/finality_equivocation_detector.go:80-129 | refines the recording step; returns evidence exactly when the first vote was for another root |
| EquivocationDetector.FinalityEquivocationDetector.PruneOldSlots | pkg/consensus/finality_equivocation_detector.go:163-201 | refines the pruning step |
| EquivocationDetector.FinalityEquivocationDetector.SlashableValidators | pkg/consensus/finality_equivocation_detector.go:213-241 | strictly ascending list of exactly the validators with evidence in the slot |
| AccountableSafety.QuorumsOverlap | pkg/consensus/endgame_engine_v2.go:74-78 | two quorums of n validators share more than n/3 |
| AccountableSafety.FinalizedHasQuorum | pkg/consensus/endgame_engine_v2.go:188-220 | behind a finalized hash stands a quorum of eligible validators whose calls cast it |
| AccountableSafety.ConflictingFinalityIsAccountable | pkg/consensus/endgame_engine_v2.go:74-220 | if two replicas with n validators finalize different hashes for a slot, more than n/3 validators voted for both, and a detector fed all those votes in any order holds evidence against each |
| CasperFinality.SuperMajorityIsTwoThirds | pkg/consensus/finality_rules.go:361-367 | the 64-bit test means two thirds for every vote up to the total if and only if three times the total is below 2^64 |
| CasperFinality.RunIsOrdered | pkg/consensus/finality_rules.go:230-281 | finalized <= previous justified <= justified <= epoch over every run with increasing epochs |
| CasperFinality.RunIsMonotone | pkg/consensus/finality_rules.go:230-281 | none of the three checkpoints ever goes back |
| CasperFinality.FinalizedHadTwoThirds | pkg/consensus/finality_rules.go:196-281 | over consecutive epochs every finalized epoch after genesis and its successor passed the two-thirds test |
| CasperFinality.SafeExactlyBelow | pkg/consensus/finality_rules.go:196-367 | every finalized epoch after genesis and its successor had two thirds of the total weight behind them, in every run over vote weights with totals up to T, if and only if T is below 2^63 |
| CasperFinality.TwoEpochsFinalize | pkg/consensus/finality_rules.go:196-281 | two consecutive epochs that pass the test at their own step finalize the first |
| CasperFinality.LiveExactlyBelow | pkg/consensus/finality_rules.go:196-367 | two consecutive epochs with two thirds of the weight at their own step finalize the first, in every such run, if and only if 3T is below 2^64 |
| FinalizationRule.RunFinalizesExactly | pkg/consensus/finality_rules.go:196-281 | over consecutive epochs, after every step: the justified checkpoint is the last epoch to pass; the step of epoch e has finalized e - 1 if it and e passed at their own steps, else e - 2 if it passed at its own step and e - 1 at either or both passed late and e at its own, else e - 3 if it passed at either step, e - 2 late and e - 1 at either, and otherwise nothing new; each checkpoint with the block root of the step at which it passed |
| FinalizationRule.LateSuccessorFinalizes | pkg/consensus/finality_rules.go:196-225 | so an epoch that passed at its own step is final once the next has passed a step late |
| FinalizationRule.TwoLateEpochsFinalize | pkg/consensus/finality_rules.go:196-225 | two epochs that passed a step late and a third at its own step finalize the first |
| FinalizationRule.ThreeEpochsFinalize | pkg/consensus/finality_rules.go:196-225 | three epochs in a row, the second late and the others at either step, finalize the first |
| FinalizationRule.FinalizedStaysListed | pkg/consensus/finality_rules.go:196-225 | every epoch ever finalized stays in the table of finalized checkpoints |
| CasperFinality.CasperFinalityTracker.ShiftBits | pkg/consensus/finality_rules.go:257-261 | the in-place shift of the four bits |
| CasperFinality.CasperFinalityTracker.ApplyFinalization | pkg/consensus/finality_rules.go:196-225 | the four conditions in order, the last that holds wins |
| CasperFinality.CasperFinalityTracker.ProcessJustificationAndFinalization | pkg/consensus/finality_rules.go:230-281 | refines the run step with the two-thirds tests of its weights; a new justified root is the block root of the first slot of its epoch; refused calls change nothing |
| Shuffling.FlipIsInvolution | pkg/consensus/committee_assignment.go:144-145 | taking the partner twice gives the position back, for every pivot, if and only if the count is at most 2^63 |
| Shuffling.RoundUndoesItself | pkg/consensus/committee_assignment.go:136-166 | each round is an involution, whatever the hash function |
| Shuffling.RoundMeaning | pkg/consensus/committee_assignment.go:136-166 | a round takes a position to the one that adds up with it to the pivot, modulo the count, if and only if a bit of a digest is set: the digest of seed, round byte and the four bytes of the higher position / 256, read as a little-endian number, at bit position % 256; the pivot is the low 64 bits of the digest of seed and round byte, modulo the count; past 2^63 the 64-bit difference is spelled out |
| Shuffling.ShuffleIsNinetyRounds | pkg/consensus/committee_assignment.go:136-166 | ninety such rounds in ascending order take a position to its shuffled position and to no other |
| Shuffling.ShuffleRoundTrip | pkg/consensus/shuf_shuffling.go:39-128 | for counts up to 2^63 the rounds in reverse order undo the shuffle |
| Shuffling.UnshuffleRoundTrip | pkg/consensus/shuf_shuffling.go:39-128 | and the shuffle undoes them |
| Shuffling.ShuffleIsBijectionExactlyWhen | pkg/consensus/shuf_shuffling.go:39-128 | shuffle and reverse undo each other, either way round, for every hash function, seed and position if and only if the count is at most 2^63 |
| Shuffling.SwapOrNotShuffle | pkg/consensus/committee_assignment.go:124-168 | the result is where ninety such rounds take the index, round 0 first; errors for a zero count and an index out of range |
| Shuffling.UnshuffleIndex | pkg/consensus/shuf_shuffling.go:87-128 | the result is where the same rounds take the index with round 89 first, with the same errors |
| Shuffling.RotationShuffle | pkg/consensus/committee_rotation.go:397-430 | the copy without range check agrees on every index below the count; 0 for a count of 0 or 1 |
| Shuffling.StateShuffle | pkg/consensus/beacon_state_v2.go:231-256 | so does the copy that returns the index itself for a count of 0 or 1 |
| Shuffling.ShuffleIsPermutation | pkg/consensus/committee_assignment.go:172-186 | the shuffled list is a rearrangement, repeated entries included |
| Shuffling.ShuffleIndices | pkg/consensus/committee_assignment.go:172-186 | entry i of the result is the entry at the position that ninety rounds take i to; a rearrangement up to 2^63; error exactly for an empty list |
| Committees.SliceSize | pkg/consensus/committee_assignment.go:239-241 | every slice has count/total members or one more |
| Committees.SliceStartMeans | pkg/consensus/committee_assignment.go:239-241 | slice g of n starts at the last position i with i / count at most g / n |
| Committees.SliceIsUnique | pkg/consensus/committee_assignment.go:239-241 | a position lies in one slice only |
| Committees.BoundsAreExactWhen | pkg/consensus/committee_assignment.go:239-241 | the slice bounds computed in 64 bits are the true ones if and only if validators times committees is below 2^64 |
| Committees.AscendExactlyWhenFitting | pkg/consensus/committee_assignment.go:239-243 | no slice ends before it starts, where the runtime would refuse a negative capacity, if and only if that product is below 2^64, as long as validators and committees together are at most 2^64 |
| Committees.CommitteesFit | pkg/consensus/committee_assignment.go:191-204 | the number of committees itself never wraps |
| Committees.CommitteeCountMeans | pkg/consensus/committee_assignment.go:191-204 | the number of committees per slot is the largest that leaves each its target size, but at least one and at most the maximum |
| Committees.ComputeBeaconCommittee | pkg/consensus/committee_selection.go:150-189 | the per-slot form returns the members between the 64-bit bounds of its slot and index in the shuffled list; errors for no validators, indices out of range and bounds that descend |
| Committees.ListBeaconCommittees | pkg/consensus/committee_assignment.go:227-259 | the flat form lists the members between the bounds of every slice in order with slot and index, exactly when all bounds ascend |
| Committees.CommitteeAssigner.ComputeBeaconCommittees | pkg/consensus/committee_assignment.go:208-265 | the first computation of an epoch that succeeds is kept and returned to every later call, even one without validators; exact errors otherwise |
| Committees.BuildCommittees | pkg/consensus/committee_rotation.go:215-246 | completes exactly when all bounds ascend; every committee is the members between its bounds, and when the bounds are true ones the map names every validator's slot, committee, size and position |
| Committees.EverySeatIsUnique | pkg/consensus/committee_rotation.go:215-246 | with distinct validators and true bounds each has exactly one seat, the one the map names |
| Committees.CommitteesPartition | pkg/consensus/committee_rotation.go:178-264 | every capped validator has exactly one seat if and only if validators times committees is below 2^64, and then no others have one |
| Committees.AssignmentLeadsToSeat | pkg/consensus/committee_rotation.go:215-284 | looking up the slot and committee of a validator's assignment leads to its seat, when the slots of the epoch fit in 64 bits |
| Committees.SizesDifferByOne | pkg/consensus/committee_rotation.go:224-233 | with true bounds committee sizes differ by at most one |
| Committees.FormsAgree | pkg/consensus/committee_rotation.go:224-233 | flat list, epoch table and per-slot slice agree |
| Committees.CommitteeRotationManager.ComputeEpochCommittees | pkg/consensus/committee_rotation.go:178-264 | the first computation of an epoch that succeeds fixes its committees and later calls return them; errors exactly for no validators and bounds that descend, with nothing changed |
| Committees.CommitteeRotationManager.GetCommitteeBySlot | pkg/consensus/committee_rotation.go:268-284 | the slice for the slot and index; errors for epochs not computed and indices out of range |
| Merkle.FullRootIsNode | pkg/consensus/beacon_state_v2.go:517-542 | the root of a complete tree is the top node of the padded tree |
| Merkle.MerkleizeVirtual | pkg/consensus/beacon_state_v2.go:517-542 | the sparse computation returns the root of the full tree padded with zero chunks to 2^depth leaves, for every list |
| Merkle.DepthFor | pkg/consensus/beacon_state_v2.go:484-488 | the least depth that covers the capacity |
| Merkle.DoublingEndsExactlyWhen | pkg/consensus/beacon_state_v2.go:484-488 | the doubling loop ends if and only if the capacity is at most 2^63 |
| Merkle.VirtualListRoot | pkg/consensus/beacon_state_v2.go:483-497 | the padded root at that depth with the length mixed in |
| Merkle.BuildBranch | pkg/consensus/cl_proof_circuits.go:390-431 | the branch holds the siblings on the way up and the root is the node they lead to |
| Merkle.WalkBranch | pkg/consensus/cl_proof_circuits.go:434-444 | climbs along the bits of the index |
| Merkle.BranchRoundTrip | pkg/consensus/cl_proof_circuits.go:390-444 | walking the built branch from the leaf gives the built root |
| Merkle.SecondWayUpCollides | pkg/consensus/cl_proof_circuits.go:434-444 | another leaf or branch of the same length with the same root yields a collision of the pair hash |
| Merkle.OnlyTheLeafReachesTheRoot | pkg/consensus/cl_proof_circuits.go:390-444 | so with an injective pair hash there is no other |
| SquareRoot.IntegerSquareRoot | pkg/consensus/beacon_state_v2.go:182-192 | for every 64-bit n the loop ends without overflow or division by zero at the r with r*r <= n < (r+1)*(r+1) |
| Bitfields.BitfieldOr | pkg/consensus/attestation_aggregator.go:353-364 | the positions of the result are the union |
| Bitfields.BitfieldOverlaps | pkg/consensus/attestation_aggregator.go:368-379 | true exactly when a position is set in both |
| Bitfields.CountBits | pkg/consensus/attestation_aggregator.go:397-408 | Kernighan's loop counts the set positions |
| Aggregation.TryAggregate | pkg/consensus/attestation_aggregator.go:201-212 | combines exactly when data agree and bits are disjoint; every participation is counted once |
| Aggregation.MergeAggregates | pkg/consensus/attestation_aggregator.go:216-224 | union of positions and combined signature |
| Aggregation.GreedyPass | pkg/consensus/attestation_aggregator.go:262-276 | the result is made of the entry and later unused ones: the union of their positions, and their signatures combined in order; exactly these become used; participations are conserved and every entry left over overlaps the result |
| Aggregation.GreedyAggregate | pkg/consensus/attestation_aggregator.go:246-277 | every entry is part of exactly one result, which has the combined signature of its parts; nothing is lost or counted twice, and any two results overlap |
| AggregationPools.MergeInto | pkg/consensus/attestation_aggregator.go:176-184 | merges into the first aggregate without overlap, if there is one |
| AggregationPools.AggregationPool.AddAttestation | pkg/consensus/attestation_aggregator.go:138-158 | accepted exactly unless malformed or overlapping all aggregates of a full slot |
| AggregationPools.AggregationPool.AddAggregate | pkg/consensus/attestation_aggregator.go:162-196 | merges into the first disjoint aggregate or appends, other lists unchanged; over every run the stored participations are those accepted and not pruned, and the counters equal the list lengths within the limit |
| AggregationPools.AggregationPool.AggregateAll | pkg/consensus/attestation_aggregator.go:230-291 | returns what the slot then holds: for each data the old aggregates regrouped, each part of exactly one new aggregate with the combined signature; keeps all participations, leaves no two aggregates of the same data mergeable, never raises the count and touches no other slot |
| AggregationPools.AggregationPool.PruneOld | pkg/consensus/attestation_aggregator.go:332-347 | forgets exactly the slots below the cutoff |

## Left out

- WaveLevels.ScheduleFromGraph: acyclic graphs only, because the source's recursion does not end on cycles; the same
  holds for WaveLevels.FindParallelGroups, WaveLevels.ComputeDepths and CriticalPaths.CriticalPath.
- WaveLevels.FindParallelGroups: every dependency is itself a node, as in all graphs the package builds from conflicts;
  the same holds for CriticalPaths.CriticalPath.
- ForkChoiceMachine.ForkChoiceV2.OnBlock: fewer than 2^64 - 1 blocks ever added, where the index would meet the sentinel.
- ForkChoiceStores.PruningStaysInvisible: a block on a kept block must not carry the root of a discarded one; the
  unpruned store refuses it as a duplicate.
- LmdHeads.HeadIsRightExactlyWhen: the parent of the first block is not in the tree; `LmdExact.OnePassIsRightExactlyWhen`
  covers trees where it is.
- LmdAgreement.HeadsAfter: each validator votes with a fixed stake, so that vote weight and balance agree, and the feed
  has fewer than 2^64 - 1 items.
- Merkle.DepthFor: capacities above 2^63, for which the source's loop never ends, as `Merkle.DoublingEndsExactlyWhen` says.
- FinalityRounds.EndgameFinality.StartRound: returns the round's value, not a live pointer to it; validator counts are
  non-negative and their products are not wrapped.
- Committees.BuildCommittees: what a runtime panic leaves behind; it is modelled as an error that changes nothing. The
  same holds for Committees.ComputeBeaconCommittee and Committees.ListBeaconCommittees.
- CasperFinality.CasperFinalityTracker.ProcessJustificationAndFinalization: epoch sums are not wrapped; the split
  methods and manual setters of the tracker are not modelled.
- The same FFG step inside the epoch processors: `CasperFinality.Step` takes the two tests as inputs and covers it.
- The further copies of the shuffle, two with and two without range checks: the same loop, entry checks and results for
  small counts as `SwapOrNotShuffle` or `StateShuffle`.
- Slices the source updates in place are sequence values reassigned step by step; aliasing between slices is not modelled.
- Round-robin worker assignment, speculative execution, conflict matrix and conflict-free batches: easy or simulated.
- Pruning of the map-based fork choice stores and their checkpoint setters.
- Proposer selection, sync committees, seeds and the pruning of committee caches.
- Locks, metrics, timing, slashing pools, deposits, rewards and the network: no part of the chosen cores.
- SHA-256, Keccak and BLS internals: parameters of the model.
