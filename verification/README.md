# Verified models of a Dynamo-style store

This project models the parts of the store whose correctness is hardest to see from the code, and proves what
they promise. Each component is a small group of modules: a specification in plain functions and relations, the
code's own algorithm as methods or classes proved against it, and theorems about the whole.

| component | files | main results |
|---|---|---|
| RAMP-Fast read-atomic transactions | `RampCore`, `RampProtocol`, `RampReads`, `RampRaces`, `RampMisses`, `RampStore`, `RampWrap` | over every interleaving of writers and readers, each free to stop anywhere: reads that name no key twice are never fractured, no read dangles, and reads see every completed write of a key as long as no two commits of it overlap, and need not once two do; the flat byte store and the coordinator refine the protocol |
| Merkle Search Tree | `MstTree`, `MstBuild`, `MstDiff`, `MstReconcile`, `MstSweeps` | the tree is a function of the map; the pruned diff is exact or two nodes collide, within a comparison budget; however the sweeps of two sides interleave, they end with equal stores and every object kept if and only if no key was held with two values, or something collides |
| segmented hash tree | `HashTreeSpec`, `HashTreeObject` | every published digest is current; equal roots, empty difference and equal contents coincide up to a collision |
| OTP-style supervisor | `SupervisorModel`, `SupervisorSafety`, `SupervisorRuns`, `SupervisorRevival`, `SupervisorRestarts`, `SupervisorObject`, `FailureCounter` | what every exit leads to, by policy and strategy; in every run each child is accounted for, no Permanent child is given up before shutdown, the loop never waits in vain, nothing that was stopped has a later effect, nothing outlives the return; exactly when a removed child runs again |
| replica planning and quorums | `RingWalk`, `Replication`, `Quorum` | the plan around down peers is the plan on the ring without them; replica sets are stable under removal; read and write quorums meet exactly when they outnumber the plan, or the two plans of different liveness views |
| CRDT operation codec | `CrdtCodec`, `CrdtReprint`, `CrdtDepth`, `CrdtLayout`, `CrdtWire` | what is printed parses back at any nesting depth, what is parsed prints back exactly when its booleans are 0 or 1, and no encoding is a prefix of another |
| list-append history checker | `ElleGraph`, `ElleHistory`, `ElleScan`, `ElleEndpoints`, `ElleSerial` | the report is sound and complete for its anomaly classes; no cycle means an order of the committed transactions that extends the write-read and write-write dependencies; a serial execution is never reported, though write skew is not either; exactly when dependencies run between committed transactions only |
| civil dates | `CivilDate` | the closed form is the day-by-day calendar, exactly as long as the year fits a `u32` |

`Bytes`, `Digests` and `Collections` hold big-endian numbers, byte-string order, key/digest pairs and a few facts
about sets.

Hash functions, level functions, UTF-8 validity and liveness oracles are parameters, so every result holds for all
of them. No hash is assumed to be injective: a result that depends on the hash says "or two of these preimages
collide", and counts a non-empty node or segment whose digest is the reserved zero value as a collision.

Concurrent code is a relation between states, one store operation, event or atomic access per step, and the
theorems are about every finite run. The methods of the supervisor, the flat store, the coordinator, the clock, the
parser and the hash tree are classes with the source's fields; their contracts tie the new state to the function that the
theorems are about.

## Where the code and its documentation differ

- The supervisor documents a shutdown deadline that can expire. Handling the shutdown event marks every running
  child idle at once, so nothing counts as alive when the loop next looks, and `run` returns at once without
  waiting (`SupervisorSafety.ShutdownReturnsAtOnce`, `SupervisorRuns.ReturnLeavesNothing`).
- A removed child is documented not to run again. Under OneForAll and RestForOne another child's exit, even a clean
  one, respawns it unless it is Temporary (`SupervisorRevival.RemovedIsRevived`); `SupervisorRevival.RevivedIff` gives
  the exact condition.
- A pointer is documented to move only forward. The code reads it under one lock and writes it under another
  (crates/dyniak/src/ramp_store.rs:203-219, crates/dyniak/src/datastore/noxu.rs:266-282), so of two overlapping commits
  of one key the older can win: the pointer goes back and a later read misses a write that had returned
  (`RampRaces.CompletedWriteMissed`). The pointer can go back exactly when two commits of the key overlap
  (`RampRaces.RegressIffOverlap`), and from every overlap a later read can miss the newer write after it returned
  (`RampMisses.OverlapMisses`). A read that names a key twice can then be fractured, and only such a read can
  (`RampRaces.AtomicIffNoRepeats`).
- The clock documents unique, increasing timestamps. Two of them are equal exactly when the coordinators are the same
  and the counters agree modulo 2^48 (`RampCore.StampsCollideIff`), and a stamp is not above the one before exactly when
  the counter reaches a multiple of 2^48 (`RampCore.StampsIncreaseIff`). What coordinator 0 then writes is stored at
  stamp 0 and read fractured (`RampWrap.WrapThenRead`).
- Anti-entropy is documented to keep the higher version on every conflict (crates/model-tests/src/aae.rs:10-13, 32-35)
  and to converge once both directions have run. The pull compares no versions: a key held with two values is
  overwritten by whatever the other side holds. In turn, the first puller's object is lost
  (`MstReconcile.PullBothWays`); overlapping, the two values are swapped (`MstSweeps.SweepsSwap`). The two sides are
  sure to converge if and only if no key is held with two values (`MstSweeps.AlwaysConvergeIff`).
- The failure counter documents that no update is lost. A reset while a caller is about to return the saturated value
  loses that caller's update (`FailureCounter.UpdateLost`); `FailureCounter.ResetExactIff` gives the exact condition.
- The liveness-aware planner is documented to return a short plan when every peer is down. It panics then, and only
  then; `Replication.PlanWithLiveness` returns `None` exactly in that case.
- The version body encoder clamps counts and lengths to 32 bits without reporting it. What is stored decodes to what
  was encoded if and only if they fit (`RampStore.BodyRoundTripIff`).
- `epoch_to_civil` reports year 0 once the year no longer fits 32 bits (`CivilDate.EpochToCivilIs` gives the exact
  second).
- The operation parser takes any non-zero boolean byte as true, so it accepts bytes that nothing prints
  (`CrdtReprint.FlagNormalized`); printing gives back the input exactly when those bytes are 0 or 1
  (`CrdtReprint.ReprintIff`).
- The history checker says that it looks at committed transactions only, but the writer it records for a value may
  be an invocation that never committed, so a dependency can start at one (`ElleEndpoints.DependsOnInvocation`);
  `ElleEndpoints.EndpointsCommittedIff` says exactly when none does.
- The history checker calls its cycles "G-single / G2-ish". Its graph has no edges from a read to a later append, so
  write skew, the plainest such cycle, passes (`ElleSerial.WriteSkewPasses`).

## Model

| member | source | states |
|---|---|---|
| `RampCore.Select` | crates/dyniak/src/ramp.rs:145-177 | The second round is exactly the sibling versions newer than what the first round saw, each key once, at the highest timestamp demanded, in key order |
| `RampCore.CurrentVersions` | crates/dyniak/src/ramp.rs:146-155 | The first pass knows the highest timestamp seen of every key |
| `RampCore.AddDemands` | crates/dyniak/src/ramp.rs:157-174 | Folding in one more item keeps the demands equal to the maximum over the items so far |
| `RampCore.RaiseSiblings` | crates/dyniak/src/ramp.rs:161-173 | Only siblings newer than what was seen are demanded, and a demand is never lowered |
| `RampCore.StampsCollideIff` | crates/dyniak/src/ramp.rs:187-205 | Two stamps are equal exactly when the coordinators are the same and the counters agree modulo 2^48 |
| `RampCore.StampLayout` | crates/dyniak/src/ramp.rs:201-204 | A stamp has the coordinator's id above the counter's low 48 bits |
| `RampCore.StampsIncreaseIff` | crates/dyniak/src/ramp.rs:201-204 | A coordinator's next stamp is larger if and only if the counter does not then reach a multiple of 2^48 |
| `RampCore.WrappedStampIsZero` | crates/dyniak/src/ramp.rs:201-204 | After 2^48 mints coordinator 0 issues stamp 0 and then repeats its first stamp |
| `RampCore.RampClock.Mint` | crates/dyniak/src/ramp.rs:201-204 | Each mint is the stamp of the next counter value |
| `RampProtocol.WriterKeeps` | crates/dyniak/src/ramp_store.rs:298-317 | Every writer step, the two halves of a commit included, keeps the store invariant: pointers name fully prepared transactions, stamps are unique, every stored version belongs to its writer's batch |
| `RampProtocol.BeginKeeps` | crates/dyniak/src/ramp_store.rs:298-302 | Starting a transaction hands out a stamp nobody holds |
| `RampProtocol.PrepareKeeps` | crates/dyniak/src/ramp_store.rs:305-310 | Preparing never disturbs a version that a reader may already rely on |
| `RampProtocol.CommitKeeps` | crates/dyniak/src/ramp_store.rs:203-219 | Reading a pointer and writing it back as two steps, with anything in between, still leaves it on a fully prepared transaction |
| `RampProtocol.SteadyKeeps` | crates/dyniak/src/ramp_store.rs:203-219 | While no two commits of a key overlap, its pointer moves only forward |
| `RampProtocol.Siblings` | crates/dyniak/src/ramp_store.rs:305-308 | A version's siblings are exactly the other keys of its batch |
| `RampProtocol.SiblingsInOrder` | crates/dyniak/src/ramp_store.rs:305-308 | Siblings are in batch order, one for every write of another key |
| `RampReads.ReadsAreAtomic` | crates/dyniak/src/ramp_store.rs:422-463 | In every run, a finished read holds only versions that were written; if every key it asked for twice is one whose commits do not overlap, then with a key at some stamp it holds every sibling of that version at that stamp or later |
| `RampReads.ReadsNeverDangle` | crates/dyniak/src/ramp_store.rs:422-463 | In every run, no read meets a pointer or a demand without its version |
| `RampReads.PointersNeverRegress` | crates/dyniak/src/ramp_store.rs:203-219 | Over every run, the visible version of a key only gets newer if no two commits of that key overlap |
| `RampReads.ReadsSeeCompletedWrites` | crates/dyniak/src/ramp_store.rs:298-317 | A read that starts after a write returned holds every key of that write at its stamp or later, if no two commits of that key overlap |
| `RampReads.OneRoundIff` | crates/dyniak/src/ramp_store.rs:423-439 | In every reachable store, a read needs no second round exactly when each visible sibling of its keys is asked for and visible at the same stamp or later |
| `RampReads.OneRoundIffClosed` | crates/dyniak/src/ramp_store.rs:423-439 | Once every fully prepared write is committed, others stopped anywhere, that is when the keys are closed under the siblings of their visible versions |
| `RampReads.RepairedIsFractureFree` | crates/dyniak/src/ramp_store.rs:437-456 | A first round overlaid with the demanded versions is fracture-free |
| `RampReads.OverlayNewest` | crates/dyniak/src/ramp_store.rs:444-447 | Keeping the last item of each key keeps its newest version, if the versions of a key come in order |
| `RampReads.NextKeeps` | crates/dyniak/src/ramp_store.rs:298-463 | Any step of any writer or reader keeps the combined invariant |
| `RampRaces.RegressIffOverlap` | crates/dyniak/src/ramp_store.rs:203-219 | In a run without overlap so far no pointer went back, and it can go back within two steps if and only if two commits of the key overlap now |
| `RampRaces.CompletedWriteMissed` | crates/dyniak/src/ramp_store.rs:203-219 | A run in which a pointer goes back and a read that starts after a write returned misses that write |
| `RampRaces.AtomicIffNoRepeats` | crates/dyniak/src/ramp_store.rs:422-463 | A list of keys is read without fracture in every run if and only if it names no key twice |
| `RampMisses.OverlapMisses` | crates/dyniak/src/ramp_store.rs:203-219 | From every state in which two commits of a key overlap, some continuation completes the newer write and then has a read of that key which misses it |
| `RampWrap.CounterReaches` | crates/dyniak/src/ramp.rs:201-204 | There is a run to every counter value below the wrap |
| `RampWrap.WrapThenRead` | crates/dyniak/src/ramp.rs:145-205 | The write that wraps coordinator 0's counter is stored at stamp 0, demands no sibling, and is read fractured, on any store that does not show its first key yet |
| `RampStore.VersionKeyInjective` | crates/dyniak/src/ramp_store.rs:125-132 | Distinct versions have distinct store keys, even when keys contain zero bytes |
| `RampStore.PointerKeyInjective` | crates/dyniak/src/ramp_store.rs:135-140 | Distinct keys have distinct pointer entries |
| `RampStore.KeysDisjoint` | crates/dyniak/src/ramp_store.rs:125-140 | A version entry and a pointer entry never share a store key |
| `RampStore.KeyLayout` | crates/dyniak/src/ramp_store.rs:125-140 | The bytes of a version's and of a pointer's storage key |
| `RampStore.BodyLayout` | crates/dyniak/src/ramp_store.rs:148-159 | The bytes of a stored body: the number of siblings, each after its length, then the value; all ones for a number that does not fit |
| `RampStore.BodyRoundTripIff` | crates/dyniak/src/ramp_store.rs:148-177 | A stored body decodes to what was encoded if and only if the sibling count and lengths fit 32 bits |
| `RampStore.EncodeBody` | crates/dyniak/src/ramp_store.rs:148-159 | The encoding loop produces the body format the round trip is about |
| `RampStore.DecodeBody` | crates/dyniak/src/ramp_store.rs:163-194 | The decoding loop accepts exactly what the body grammar accepts, and returns on every input |
| `RampStore.FlatStore.PutVersion` | crates/dyniak/src/ramp_store.rs:197-201 | Writing the flat entry is adding the version to the abstract store, whatever its size |
| `RampStore.FlatStore.CommitPointer` | crates/dyniak/src/ramp_store.rs:203-219 | The flat pointer moves forward only, as the abstract one does |
| `RampStore.FlatStore.LatestVisible` | crates/dyniak/src/ramp_store.rs:221-231 | Reads the abstract pointer |
| `RampStore.FlatStore.GetVersion` | crates/dyniak/src/ramp_store.rs:233-246 | Reads what the stored body decodes to: a version, nothing, or a corrupt record |
| `RampStore.FetchedIff` | crates/dyniak/src/ramp_store.rs:148-246 | A version is read back as it was stored if and only if its sibling count and lengths fit 32 bits |
| `RampStore.PutVersionRepresents` | crates/dyniak/src/ramp_store.rs:197-201 | One flat write changes one abstract version and nothing else |
| `RampStore.SetPointerRepresents` | crates/dyniak/src/ramp_store.rs:203-219 | One flat write changes one abstract pointer and nothing else |
| `RampStore.PrepareAllVersions` | crates/dyniak/src/ramp_store.rs:304-310 | After preparing, every key of the batch has its version with the rest of the batch as siblings, and other versions and all pointers are untouched |
| `RampStore.CommitAllPointers` | crates/dyniak/src/ramp_store.rs:311-315 | After committing, every key of the batch points at the newer of its old version and this one, and others are untouched |
| `RampStore.WriteFollowsProtocol` | crates/dyniak/src/ramp_store.rs:298-317 | An uninterrupted write is a path of writer steps: begin, prepare each version, read and write each pointer; it keeps the protocol's invariant and leaves every batch key visible at its stamp or later |
| `RampStore.RampCoordinator.Write` | crates/dyniak/src/ramp_store.rs:298-317 | A write mints one stamp and leaves the batch prepared then committed; below 2^48 mints the store is again one the protocol reaches, with every batch key at that stamp or later; an empty batch changes nothing |
| `RampStore.RampCoordinator.Read` | crates/dyniak/src/ramp_store.rs:319-345 | On any store the protocol can reach whose records fit, a read succeeds, is fracture-free, at least as new as the pointers, and holds only what was asked for or is a sibling of a visible version; it returns exactly the values stored at the versions it holds; otherwise a failure names a real cause |
| `RampStore.WriteThenRead` | crates/dyniak/src/ramp_store.rs:298-345 | A read after a write succeeds, is fracture-free, and holds every batch key it asks for at the write's stamp or later, unless the counter wraps or a record does not fit 32 bits; at that stamp it returns the batch's last value of the key; a failed read names a real cause |
| `RampStore.FirstRound` | crates/dyniak/src/ramp_store.rs:423-435 | The first round is the visible version of every requested key that has one, or the first record that is missing or corrupt |
| `RampStore.SecondRound` | crates/dyniak/src/ramp_store.rs:441-456 | Fetching the demands keeps the repair invariant and never misses one in a reachable store |
| `RampStore.ReadRounds` | crates/dyniak/src/ramp_store.rs:422-463 | On any store the protocol can reach whose records fit, a read succeeds, is fracture-free and at least as new as the pointers; it returns exactly the values stored at the versions it holds; one round exactly when nothing is demanded; every failure names a missing or corrupt record |
| `MstTree.CountIsLength` | crates/dyn-hashtree/src/mst.rs:416-422 | The count of a tree is the number of pairs it holds |
| `MstTree.PreimageLayout` | crates/dyn-hashtree/src/mst.rs:194-211 | The bytes a node's digest is taken over: the tag, the number of keys, the pairs, the children's digests, zeros for a missing child |
| `MstTree.PreimageParses` | crates/dyn-hashtree/src/mst.rs:194-211 | A node's preimage determines its keys, values and child digests |
| `MstTree.EqualDigests` | crates/dyn-hashtree/src/mst.rs:194-211 | Subtrees with one digest are equal, or two of their nodes collide |
| `MstBuild.TreeAtSound` | crates/dyn-hashtree/src/mst.rs:440-483 | The build drops and repeats no item: the tree holds the sorted input, every node has a key and one more child than keys, children sit strictly lower, digests are current |
| `MstBuild.Rebuild` | crates/dyn-hashtree/src/mst.rs:440-496 | Any well-formed tree is the one the build makes of its own contents |
| `MstBuild.BuildAt` | crates/dyn-hashtree/src/mst.rs:440-483 | Listing pivots and filling gaps gives the recursively specified tree, and no level underflows |
| `MstBuild.ListPivots` | crates/dyn-hashtree/src/mst.rs:444-450 | The pivots are exactly the indices of the items on the level, in order |
| `MstBuild.FillNode` | crates/dyn-hashtree/src/mst.rs:460-475 | Keys and gap children come out aligned: one child before each key and one after the last |
| `MstBuild.ChildBelow` | crates/dyn-hashtree/src/mst.rs:491-496 | A gap becomes the tree of its items one level down, or no tree |
| `MstDiff.TreeOfMapSound` | crates/dyn-hashtree/src/mst.rs:428-435 | The tree of a map holds exactly the map in key order |
| `MstDiff.RootIdentifiesMap` | crates/dyn-hashtree/src/mst.rs:246-273 | Equal maps have equal roots, and equal roots mean equal maps or a collision |
| `MstDiff.ShapeIsCanonical` | crates/dyn-hashtree/src/mst.rs:428-496 | Two well-formed trees with the same contents are the same tree |
| `MstDiff.InsertionOrderIrrelevant` | crates/dyn-hashtree/src/mst.rs:246-259 | Inserting distinct keys in another order gives the same map |
| `Digests.LastWins` | crates/dyn-hashtree/src/mst.rs:246-249 | Of several pairs with one key the last counts |
| `MstDiff.WithBase` | crates/dyn-hashtree/src/mst.rs:237-259 | Building from pairs gives the tree of the map they leave behind |
| `MstDiff.Emit` | crates/dyn-hashtree/src/mst.rs:636-642 | A whole subtree is added to one side |
| `MstDiff.DiffNodes` | crates/dyn-hashtree/src/mst.rs:503-535 | What is pruned is held alike by both sides, everything else reaches its side, unless two nodes collide; at most 1 + 2 min comparisons, and exactly one on equal trees |
| `MstDiff.DiffAligned` | crates/dyn-hashtree/src/mst.rs:542-633 | The same for two nodes whose keys and levels need not agree |
| `MstDiff.PassExtra` | crates/dyn-hashtree/src/mst.rs:596-630 | A key only one side has goes, with the child before it, to that side alone |
| `MstDiff.DiffShared` | crates/dyn-hashtree/src/mst.rs:577-595 | A key both sides have compares the children before it and keeps the comparison budget |
| `MstDiff.DiffLast` | crates/dyn-hashtree/src/mst.rs:566-576 | The last children complete the walk over both nodes |
| `MstDiff.Unmatched` | crates/dyn-hashtree/src/mst.rs:333-350 | The keys reported for a side are exactly those the other lacks or holds differently, in key order |
| `MstDiff.Diff` | crates/dyn-hashtree/src/mst.rs:310-356 | The differing keys of each side exactly, or two nodes collide; one comparison when the trees are equal, none when the bases differ |
| `MstDiff.CompareReplicas` | crates/dyn-hashtree/src/mst.rs:237-356 | Building both replicas and diffing finds exactly the keys on which their maps differ, or a collision |
| `MstDiff.WalkedKeepsDifference` | crates/dyn-hashtree/src/mst.rs:333-350 | Leaving out what was pruned does not change which keys differ |
| `MstReconcile.CompareStores` | crates/dyniak/src/aae/mst_reconcile.rs:114-121 | Comparing two object stores by their trees lists exactly the keys each side is missing, or two nodes collide; one comparison when they agree |
| `MstReconcile.Fetch` | crates/dyniak/src/aae/mst_reconcile.rs:198-209 | Fetching the listed keys puts exactly the source's objects under them, and skips what the source no longer has |
| `MstReconcile.Pull` | crates/dyniak/src/aae/mst_reconcile.rs:190-216 | A pull leaves the local store with all the peer's objects and its own others, and reports how many were applied and how many the peer is missing, or something collides |
| `MstReconcile.PullBothWays` | crates/dyniak/src/aae/mst_reconcile.rs:190-216 | When the second pull starts after the first has ended, both sides hold the right side's objects and the left side's others, and a further comparison finds nothing in one step, or something collides |
| `MstSweeps.NothingInvented` | crates/dyniak/src/aae/mst_reconcile.rs:198-209 | However fetches and puts of the two sides interleave, no side loses a key and nothing is invented |
| `MstSweeps.ConvergesIff` | crates/dyniak/src/aae/mst_reconcile.rs:33-43 | However the sweeps interleave, once both sides have finished one the stores are equal and every object is kept if and only if no key was held with two values, unless compared trees collide |
| `MstSweeps.SweepsSwap` | crates/dyniak/src/aae/mst_reconcile.rs:196-209 | For every key held with two values there is a run in which each side sweeps once and the two values end up swapped, unless something collides |
| `MstSweeps.AlwaysConvergeIff` | crates/dyniak/src/aae/mst_reconcile.rs:33-43 | Every run ends with equal stores if and only if no key was held with two values, or something collides |
| `MstReconcile.Exchange` | crates/dyniak/src/aae/mst_reconcile.rs:33-43 | One comparison applied in both directions, the second after the first, leaves the same stores as two pulls in turn |
| `HashTreeSpec.EqualSegmentDigests` | crates/dyn-hashtree/src/lib.rs:141-155 | Segments have one digest exactly when they hold the same entries or collide |
| `HashTreeSpec.PairBytesParse` | crates/dyn-hashtree/src/lib.rs:146-151 | A segment's entries can be parsed back out of what is hashed |
| `HashTreeSpec.ReducesToOne` | crates/dyn-hashtree/src/lib.rs:347-359 | fanout^depth digests are down to exactly one after depth reductions |
| `HashTreeSpec.EqualReductions` | crates/dyn-hashtree/src/lib.rs:486-499 | Levels that reduce to one digest are equal, or two groups at the same place collide |
| `HashTreeSpec.SlicesDetermine` | crates/dyn-hashtree/src/lib.rs:308-322 | Two maps are equal exactly when they agree segment by segment |
| `HashTreeSpec.RootIdentifiesContents` | crates/dyn-hashtree/src/lib.rs:347-359 | For one shape, equal roots mean equal contents or a collision between the two trees |
| `HashTreeSpec.DifferingSegments` | crates/dyn-hashtree/src/lib.rs:361-384 | A reported segment holds a differing key; a segment that holds one is reported unless it collides |
| `HashTreeSpec.EmptyDifference` | crates/dyn-hashtree/src/lib.rs:361-384 | An empty difference means equal contents, or two segments collide |
| `HashTreeSpec.EqualTrees` | crates/dyn-hashtree/src/lib.rs:347-384 | Without a collision, equal contents, equal roots and an empty difference are the same thing |
| `HashTreeObject.CheckedSegmentCount` | crates/dyn-hashtree/src/lib.rs:503-509 | The power exactly when it fits a 64-bit usize; an early overflow is a real one |
| `HashTreeObject.HashSegment` | crates/dyn-hashtree/src/lib.rs:141-155 | Feeding the entries in key order gives the segment digest, the zero digest when empty |
| `HashTreeObject.ReduceLevel` | crates/dyn-hashtree/src/lib.rs:486-499 | Hashing chunk by chunk gives the next level, a short last chunk included |
| `HashTreeObject.ReduceAll` | crates/dyn-hashtree/src/lib.rs:352-354 | The loop over the depth gives the specified reductions |
| `HashTreeObject.HashTree.constructor` | crates/dyn-hashtree/src/lib.rs:244-255 | A new tree is empty and has its full number of segments |
| `HashTreeObject.HashTree.SegmentFor` | crates/dyn-hashtree/src/lib.rs:308-322 | The segment is in range and is the one that the placement results below are about |
| `HashTreeSpec.SlotOfWord` | crates/dyn-hashtree/src/lib.rs:308-322 | A key whose leading eight digest bytes are a word below the number of segments sits in the segment of that number |
| `HashTreeSpec.SlotsShare` | crates/dyn-hashtree/src/lib.rs:308-322 | Two keys share a segment if and only if the number of segments divides the difference of their leading words |
| `HashTreeSpec.ParentsAt` | crates/dyn-hashtree/src/lib.rs:486-499 | Each digest of the next level up is that of the fanout digests below it in order, or of those that are left |
| `Digests.PairLayout` | crates/dyn-hashtree/src/lib.rs:146-151 | Entries are hashed in order, each as the key's length in eight bytes, the key, and the value digest |
| `HashTreeObject.HashTree.Insert` | crates/dyn-hashtree/src/lib.rs:279-290 | The contents gain the pair and every published digest stays current, whether or not the cell is cleared |
| `HashTreeObject.HashTree.Remove` | crates/dyn-hashtree/src/lib.rs:294-300 | The contents lose the key and every published digest stays current |
| `HashTreeObject.HashTree.SegmentHash` | crates/dyn-hashtree/src/lib.rs:332-336 | The answer is the digest of the current entries, cached or not; zero past the end |
| `HashTreeObject.HashTree.Root` | crates/dyn-hashtree/src/lib.rs:347-359 | The root is a function of shape and contents alone, whatever is cached |
| `HashTreeObject.HashTree.Diff` | crates/dyn-hashtree/src/lib.rs:370-384 | Exactly the segments whose digests differ, ascending; when the shapes differ, every segment of either tree and no other |
| `HashTreeObject.HashTree.Clone` | crates/dyn-hashtree/src/lazy_hash.rs:108-116 | A clone has the same contents and no published digest |
| `SupervisorSafety.SpawnRuns` | crates/dyn-sup/src/supervisor.rs:583-606 | Spawning a quiet child leaves it running with one live task of its new generation, others untouched |
| `SupervisorSafety.ScheduleBacksOff` | crates/dyn-sup/src/supervisor.rs:560-581 | Scheduling leaves a quiet child backing off with one pending timer of its new generation |
| `SupervisorSafety.TerminateQuiets` | crates/dyn-sup/src/supervisor.rs:496-523 | Terminating any child leaves no task, timer or event of it that counts |
| `SupervisorSafety.TerminateSetQuiets` | crates/dyn-sup/src/supervisor.rs:496-523 | The sweep quiets exactly the children in scope |
| `SupervisorSafety.RespawnSetRestores` | crates/dyn-sup/src/supervisor.rs:525-558 | The respawn sweep accounts for every child from its start on, and touches none before |
| `SupervisorSafety.CascadeRestores` | crates/dyn-sup/src/supervisor.rs:464-492 | After any cascade every child is accounted for, and children outside the strategy's reach are as before |
| `SupervisorSafety.StopAllStops` | crates/dyn-sup/src/supervisor.rs:376-388 | Shutdown takes every abort handle and leaves no child alive |
| `SupervisorSafety.ShutdownReturnsAtOnce` | crates/dyn-sup/src/supervisor.rs:280-289 | Once shutting down, the loop returns the next time it looks |
| `SupervisorRuns.StepKeeps` | crates/dyn-sup/src/supervisor.rs:268-327 | Every step of loop, task, timer or caller keeps the invariant |
| `SupervisorRuns.EveryChildAccountedFor` | crates/dyn-sup/src/supervisor.rs:268-327 | In every run, before shutdown each child runs with exactly one live task or queued exit, or backs off with exactly one timer or wakeup, or is removed with neither |
| `SupervisorRuns.NeverWaitsInVain` | crates/dyn-sup/src/supervisor.rs:280-301 | Whenever the loop waits, an event is queued, a timer is pending or a task is live |
| `SupervisorRuns.ReturnLeavesNothing` | crates/dyn-sup/src/supervisor.rs:280-327 | When the loop has returned, no abort handle is left untaken and every remaining task is aborted |
| `SupervisorRuns.ExitStaysInScope` | crates/dyn-sup/src/supervisor.rs:464-523 | An exit changes nobody outside its strategy's reach: RestForOne nobody registered before, OneForOne nobody else |
| `SupervisorRuns.TemporaryStartsOnce` | crates/dyn-sup/src/supervisor.rs:525-558 | Over every run and under every strategy, a Temporary child is started at most once |
| `SupervisorRuns.ExitSetsTally` | crates/dyn-sup/src/supervisor.rs:390-434 | An error or a panic adds one to the child's failure tally, up to saturation, any other exit zeroes it, and every other tally stays |
| `SupervisorRestarts.ExitDecides` | crates/dyn-sup/src/supervisor.rs:390-558 | Under every strategy, by policy and kind of exit: a Permanent child is started again at once after a clean exit or a cancellation, a Permanent or Transient one backs off after an error or a panic, any other is removed; the others in reach are started again, or removed if Temporary; nobody else changes |
| `SupervisorRestarts.ReadyStarts` | crates/dyn-sup/src/supervisor.rs:436-462 | A backoff that has run its time leaves its child running as the next generation, started once more, with its handle and a live task, and changes nothing else |
| `SupervisorRestarts.PermanentNeverRemoved` | crates/dyn-sup/src/supervisor.rs:390-462 | In every run, before shutdown no Permanent child is ever removed |
| `SupervisorRestarts.OnlyShutdownReturns` | crates/dyn-sup/src/supervisor.rs:280-301 | A supervisor with a Permanent child returns for a shutdown only |
| `SupervisorRestarts.ShutdownMarks` | crates/dyn-sup/src/supervisor.rs:376-388 | A shutdown takes every handle, idles running children, removes those that back off, and tells exactly the tasks whose handles were held to stop |
| `SupervisorRestarts.LateEvents` | crates/dyn-sup/src/supervisor.rs:376-462 | Once shutting down, a current exit removes its child, an outdated one changes nothing, and no backoff restarts one |
| `SupervisorRevival.AbortedTaskIsIgnored` | crates/dyn-sup/src/supervisor.rs:390-434 | In every run, once a task was told to stop its exit report changes nothing but the queue, however much later it is handled |
| `SupervisorRevival.SupersededTimerIsIgnored` | crates/dyn-sup/src/supervisor.rs:436-462 | In every run, a timer or wakeup that is not its child's current backoff changes nothing but the queue, however much later it is handled |
| `SupervisorRevival.RunNewer` | crates/dyn-sup/src/supervisor.rs:496-606 | Over every run generations never go back, policies never change and a shutdown is never undone |
| `SupervisorRevival.RevivedIff` | crates/dyn-sup/src/supervisor.rs:390-558 | Handling an event brings a removed child back if and only if it is the current exit of another child whose strategy reaches it and the child is not Temporary |
| `SupervisorRevival.RemovedStays` | crates/dyn-sup/src/supervisor.rs:280-558 | A removed child stays removed for as long as no such exit is handled, through shutdown and return |
| `SupervisorRevival.RemovedIsFinal` | crates/dyn-sup/src/supervisor.rs:486-558 | Under OneForOne and SimpleOneForOne, and for a Temporary child under every strategy, a removed child stays removed for the rest of the run |
| `SupervisorRevival.RemovedIsRevived` | crates/dyn-sup/src/supervisor.rs:525-558 | Under OneForAll and under RestForOne there is a run in which a removed Transient child runs again after another child's clean exit |
| `SupervisorObject.Supervisor.TryAddChild` | crates/dyn-sup/src/supervisor.rs:217-246 | A child is refused exactly when the strategy's limit is reached, and otherwise registered last |
| `SupervisorObject.Supervisor.SpawnChild` | crates/dyn-sup/src/supervisor.rs:583-606 | The fields change as the state machine's spawn does |
| `SupervisorObject.Supervisor.ScheduleRestart` | crates/dyn-sup/src/supervisor.rs:560-581 | The fields change as the state machine's backoff does |
| `SupervisorObject.Supervisor.StartAll` | crates/dyn-sup/src/supervisor.rs:272-275 | Starting spawns every registered child once, in order; from a fresh registration that is the first state of a run, with every child accounted for |
| `SupervisorObject.Supervisor.TerminateInScope` | crates/dyn-sup/src/supervisor.rs:496-523 | The termination loops are the state machine's sweep |
| `SupervisorObject.Supervisor.RespawnFrom` | crates/dyn-sup/src/supervisor.rs:525-558 | The respawn loop is the state machine's sweep |
| `SupervisorObject.Supervisor.RunCascade` | crates/dyn-sup/src/supervisor.rs:464-492 | The four strategies are the state machine's cascade |
| `SupervisorObject.Supervisor.HandleChildExited` | crates/dyn-sup/src/supervisor.rs:390-434 | The exit handler is the state machine's, whose outcome `SupervisorRestarts.ExitDecides` states |
| `SupervisorObject.Supervisor.HandleRestartReady` | crates/dyn-sup/src/supervisor.rs:436-462 | The wakeup handler is the state machine's, whose outcome `SupervisorRestarts.ReadyStarts` states |
| `SupervisorObject.Supervisor.HandleShutdownEvent` | crates/dyn-sup/src/supervisor.rs:376-388 | The shutdown handler is the state machine's, whose outcome `SupervisorRestarts.ShutdownMarks` states |
| `SupervisorObject.Supervisor.CountAlive` | crates/dyn-sup/src/supervisor.rs:618-623 | The number of children that run or back off |
| `SupervisorObject.Supervisor.EveryChildRemoved` | crates/dyn-sup/src/supervisor.rs:612-616 | True exactly when every child is removed, so also when there is none |
| `SupervisorObject.Supervisor.Turn` | crates/dyn-sup/src/supervisor.rs:280-322 | One turn of the loop is one step of the state machine and keeps its invariant: while the loop goes on every child is accounted for, and once it is over no abort handle is left and every remaining task was told to stop |
| `FailureCounter.NoUpdateLost` | crates/dyn-sup/src/atomics.rs:107-129 | Over every interleaving of load, compare-exchange and reset in which no reset meets a caller about to return the saturated value, the count is the number of observations completed since the last reset, saturating, and each observer is told its own rank |
| `FailureCounter.ResetExactIff` | crates/dyn-sup/src/atomics.rs:107-129 | After a reset the count stays exact however the calls go on, if and only if no caller was about to return the saturated value when it happened |
| `FailureCounter.UpdateLost` | crates/dyn-sup/src/atomics.rs:107-129 | A run in which an observation completed after a reset is not counted |
| `FailureCounter.SequentialCall` | crates/dyn-sup/src/atomics.rs:107-124 | Run alone, an observation is the handler's saturating increment |
| `RingWalk.SortSorts` | crates/dyniak/src/replication.rs:187-190 | A ring view is sorted by token and holds exactly the given points |
| `RingWalk.SortKeeps` | crates/dyniak/src/replication.rs:187-190 | Building a ring commutes with dropping points, so ties keep their order |
| `RingWalk.RotateIsClockwise` | crates/dyniak/src/replication.rs:214-228 | With distinct tokens the slot search has one answer: rotating there lists the tokens at or past the hash, then the others |
| `RingWalk.DistinctPeers` | crates/dyniak/src/replication.rs:349-360 | The deduplicated walk has every peer once |
| `RingWalk.DistinctFirst` | crates/dyniak/src/replication.rs:349-360 | The walk keeps the first point of each peer, in the order in which the peers are met |
| `RingWalk.WalkWithoutPeers` | crates/dyniak/src/replication.rs:328-389 | Removing peers from a ring removes exactly them from every key's walk |
| `RingWalk.ReplicaSetWithout` | crates/dyniak/src/replication.rs:328-389 | Removing a peer changes a replica set only if it was in it, and then lets in at most the next peer of the walk |
| `Replication.PrimaryIndex` | crates/dyniak/src/replication.rs:214-228 | Some point at the hash, else the first past it, wrapping; none exactly on an empty ring |
| `Replication.ChooseOwners` | crates/dyniak/src/replication.rs:349-378 | The loop with its early exit collects the first wanted distinct peers of the rotation |
| `Replication.PlanSuccessors` | crates/dyniak/src/replication.rs:328-389 | The plan is the first max(n, 1) peers of the key's clockwise walk in order, or all of them if there are fewer, the first as primary, each with its data centre and rack, none a stand-in; with distinct tokens its peers are the replica set; a placeholder on an empty ring |
| `Replication.FirstPass` | crates/dyniak/src/replication.rs:490-523 | The window keeps its live peers and the pool gets every later peer, in walk order |
| `Replication.FillUp` | crates/dyniak/src/replication.rs:524-538 | Searching and removing takes the first live peers of the pool in order, until enough or none |
| `Replication.PlanWithLiveness` | crates/dyniak/src/replication.rs:469-549 | The plan is the first max(n, 1) live peers of the walk in order, or all of them if there are fewer, each with its data centre and rack, a stand-in exactly if it is outside the window; no plan exactly when the ring has points and nobody is up |
| `Replication.LiveTargetsAre` | crates/dyniak/src/replication.rs:469-549 | The targets are the first max(n, 1) live peers of the walk, and a stand-in is exactly one from outside the window |
| `Replication.LivePlanIsPlanWithoutDown` | crates/dyniak/src/replication.rs:469-549 | Planning around down peers lists the peers that planning on the ring without them lists |
| `Replication.AllUpIsPlain` | crates/dyniak/src/replication.rs:408-418 | With every peer up the plan is the plain one |
| `Replication.NoTargetIffAllDown` | crates/dyniak/src/replication.rs:540-542 | No target is left exactly when no peer is up |
| `Quorum.Resolve` | crates/dyniak/src/quorum.rs:30-50 | Every knob asks for at least one replica and never more than there are |
| `Quorum.KnobsMean` | crates/dyniak/src/quorum.rs:10-50 | By their reserved values: a deferring knob is the bucket's and a deferring bucket is a quorum; a quorum is the least strict majority of max(n, 1) replicas; all is all of them; one is one |
| `Quorum.CountsMean` | crates/dyniak/src/quorum.rs:30-50 | A literal count, given outright or by the bucket, asks for one replica when it is 0, for all when it reaches their number, and for itself in between; asking for more never gets less |
| `Quorum.QuorumsMeetIff` | crates/dyniak/src/quorum.rs:30-50 | Read and write quorums of a plan always share a replica if and only if together they outnumber it |
| `Quorum.ReadsMeetWrites` | crates/dyniak/src/quorum.rs:30-50 | Knobs that add up to more than n make every read meet every write, on every ring and for every key |
| `Quorum.DefaultsMeet` | crates/dyniak/src/quorum.rs:43-50 | Unset and default knobs over an unset bucket always add up to more than n |
| `Quorum.ReadsMeetWritesAcrossRemoval` | crates/dyniak/src/replication.rs:328-389 | One more answer keeps reads meeting earlier writes across the removal of a peer |
| `Quorum.QuorumsMeetAcrossIff` | crates/dyniak/src/quorum.rs:30-50 | Read quorums of one plan always share a replica with write quorums of another if and only if together they outnumber the two plans |
| `Quorum.LiveReadsMeetWritesIff` | crates/dyniak/src/replication.rs:469-549 | The same for a read and a write planned around the down peers of two different views |
| `Quorum.PlanForBoth` | crates/dyniak/src/replication.rs:328-389 | Knobs that add up to more than max(n, 1) make whoever answers a read of a plan share a replica with whoever took a write of it |
| `Quorum.PlanAcross` | crates/dyniak/src/replication.rs:469-549 | A read and a write planned around the down peers of two views always meet if and only if what their knobs ask for outnumbers the peers of both plans |
| `CrdtCodec.OpRoundTrip` | crates/dyniak/src/crdt_store.rs:198-319 | Every operation, at any nesting depth, parses back to itself and leaves the bytes after it |
| `CrdtCodec.MapOpBack` | crates/dyniak/src/crdt_store.rs:361-389 | Map operations parse back |
| `CrdtCodec.NestedBack` | crates/dyniak/src/crdt_store.rs:391-436 | Nested operations parse back |
| `CrdtCodec.OpCut` | crates/dyniak/src/crdt_store.rs:260-319 | Parsing depends only on the bytes it consumes: cut after them it gives the same, cut inside them it reports truncation |
| `CrdtCodec.ProperPrefixTruncated` | crates/dyniak/src/crdt_store.rs:260-319 | Every proper prefix of an encoding is rejected as truncated |
| `CrdtCodec.EncodingIsPrefixFree` | crates/dyniak/src/crdt_store.rs:198-251 | No encoding is a prefix of another operation's |
| `CrdtReprint.ReprintIff` | crates/dyniak/src/crdt_store.rs:198-319 | Printing what was parsed gives as many bytes as were consumed, and gives those bytes if and only if every boolean byte read is 0 or 1 |
| `CrdtReprint.MapOpAgain` | crates/dyniak/src/crdt_store.rs:361-436 | The same for map operations at any nesting depth |
| `CrdtReprint.FlagNormalized` | crates/dyniak/src/crdt_store.rs:260-319 | A flag written as 2 parses as set and prints as 1 |
| `CrdtDepth.LevelsAreDepth` | crates/dyniak/src/crdt_store.rs:375-436 | A parsed map operation nests as deep as the parser recursed |
| `CrdtDepth.LevelsBound` | crates/dyniak/src/crdt_store.rs:375-436 | On any input the parser recurses at most once per eleven bytes, and once more |
| `CrdtDepth.BoundReached` | crates/dyniak/src/crdt_store.rs:375-436 | For every depth there is an input that reaches this bound |
| `CrdtDepth.DeepParses` | crates/dyniak/src/crdt_store.rs:260-319 | For every depth there is an accepted operation that nests that deep, eleven bytes per level |
| `CrdtLayout.NestedLayout` | crates/dyniak/src/crdt_store.rs:349-436 | Every nested operation byte by byte: its tag, a length before every blob, two's complement for a counter; any other tag is reported as unknown |
| `CrdtLayout.MapOpLayout` | crates/dyniak/src/crdt_store.rs:323-389 | Every map operation byte by byte: tag, field name after its length, number of the field's type, nested operation |
| `CrdtLayout.OpLayout` | crates/dyniak/src/crdt_store.rs:260-267 | An operation is its type's tag, the actor's data centre and peer, each after its length, and the payload |
| `CrdtLayout.NotText` | crates/dyniak/src/crdt_store.rs:494-496 | An actor that is not text is reported as truncation, whatever the tag |
| `CrdtLayout.PayloadLayout` | crates/dyniak/src/crdt_store.rs:268-317 | The payloads of counters, registers and flags byte by byte; any other tag is reported as unknown |
| `CrdtLayout.SetLayout` | crates/dyniak/src/crdt_store.rs:272-316 | A set's adds come before its removes, each list after its length |
| `CrdtLayout.HllLayout` | crates/dyniak/src/crdt_store.rs:272-316 | A sketch's payload is its items after their number |
| `CrdtLayout.MapLayout` | crates/dyniak/src/crdt_store.rs:299-307 | A map is its operations in order after their number |
| `CrdtLayout.PrintsNested` | crates/dyniak/src/crdt_store.rs:391-419 | Every nested operation is printed with these bytes |
| `CrdtLayout.PrintsMapOp` | crates/dyniak/src/crdt_store.rs:361-373 | Every map operation is printed with these bytes |
| `CrdtLayout.PrintsOp` | crates/dyniak/src/crdt_store.rs:198-251 | Every operation is printed with its tag and its actor before the payload |
| `CrdtLayout.PrintsPayload` | crates/dyniak/src/crdt_store.rs:198-251 | Every payload is printed with these bytes |
| `CrdtWire.PutMapOp` | crates/dyniak/src/crdt_store.rs:361-373 | Appends exactly the operation's bytes to the buffer |
| `CrdtWire.PutNestedOp` | crates/dyniak/src/crdt_store.rs:391-419 | Appends exactly the operation's bytes to the buffer |
| `CrdtWire.PutList` | crates/dyniak/src/crdt_store.rs:214-221 | Appends a count and each element with its length |
| `CrdtWire.Print` | crates/dyniak/src/crdt_store.rs:198-251 | The buffer ends up holding the operation's bytes, which the round trip is about |
| `CrdtWire.OpReader.U64` | crates/dyniak/src/crdt_store.rs:463-476 | The cursor moves by eight over a full word, else reports truncation |
| `CrdtWire.OpReader.Bytes` | crates/dyniak/src/crdt_store.rs:480-493 | A declared length is honoured only if the bytes are there |
| `CrdtWire.OpReader.MapOp` | crates/dyniak/src/crdt_store.rs:375-389 | The cursor parser agrees with the grammar on map operations |
| `CrdtWire.OpReader.NestedOp` | crates/dyniak/src/crdt_store.rs:421-436 | The cursor parser agrees with the grammar on nested operations, and its recursion ends |
| `CrdtWire.OpReader.BlobList` | crates/dyniak/src/crdt_store.rs:273-278 | A counted loop reads exactly the declared elements or fails where the grammar does |
| `CrdtWire.OpReader.Op` | crates/dyniak/src/crdt_store.rs:260-319 | The cursor parser agrees with the grammar on whole operations, errors included |
| `CrdtWire.Parse` | crates/dyniak/src/crdt_store.rs:260-319 | Parsing returns on every input with the value or the error of the grammar, inverts printing whatever follows, and rejects every proper prefix as truncated |
| `ElleGraph.CycleFinder.Visit` | scripts/consistency/elle_check.py:138-150 | A visit finds a real cycle, or finishes the transaction and everything it leads to |
| `ElleGraph.CycleFinder.VisitSuccessors` | scripts/consistency/elle_check.py:141-147 | A grey successor closes a cycle along the stack; otherwise every successor is finished |
| `ElleGraph.FindCycle` | scripts/consistency/elle_check.py:133-157 | A cycle is found if and only if there is one, and finding none yields an order that extends every edge |
| `ElleGraph.FinishOrderIsSchedule` | scripts/consistency/elle_check.py:148-150 | The finish order read backwards puts every transaction before its successors |
| `ElleGraph.ScheduleExcludesCycle` | scripts/consistency/elle_check.py:133-157 | A graph whose transactions can be put in order has no cycle |
| `ElleScan.Catalogue` | scripts/consistency/elle_check.py:69-80 | For every value: its last writer, and whether it was committed, only aborted, or neither, whatever the order of the records |
| `ElleScan.Raise` | scripts/consistency/elle_check.py:92-126 | One operation raises exactly the reports its kind can raise against what was seen before |
| `ElleScan.AddDependencies` | scripts/consistency/elle_check.py:109-117 | A read adds exactly its writer-to-reader edges and the edges between writers of consecutive values |
| `ElleScan.BackNext` | scripts/consistency/elle_check.py:118-131 | Comparing with the longest list seen is enough to detect that some earlier list is not a prefix |
| `ElleScan.ShowsNext` | scripts/consistency/elle_check.py:92-131 | One more operation shows exactly the earlier anomalies and those it raises |
| `ElleScan.Observe` | scripts/consistency/elle_check.py:90-131 | One operation keeps report, seen values, remembered lists and edges exact |
| `ElleScan.ScanHistory` | scripts/consistency/elle_check.py:85-131 | The second pass covers every operation of every committed record and no other |
| `ElleScan.Check` | scripts/consistency/elle_check.py:56-159 | Duplicate, aborted-read and non-monotonic reports are exactly the anomalies of the history; a cycle is reported if and only if the dependencies have one, and is one; with none, all committed transactions have an order every dependency agrees with |
| `ElleHistory.ReportsMean` | scripts/consistency/elle_check.py:92-131 | What each report other than a cycle says, in terms of the records' own fields |
| `ElleHistory.DependsMeans` | scripts/consistency/elle_check.py:109-117 | A dependency is between two transactions, and a committed read saw a value of the first and is itself the second, or saw a value of the second right after it |
| `ElleEndpoints.EndpointsCommittedIff` | scripts/consistency/elle_check.py:69-117 | Every dependency runs between committed transactions if and only if, for every value a committed read observed, each invocation that set out to append it is followed by a commit that does |
| `ElleEndpoints.DependsOnInvocation` | scripts/consistency/elle_check.py:69-117 | A three-record history in which a dependency starts at an invocation that never committed |
| `ElleSerial.CheckSerial` | scripts/consistency/elle_check.py:56-159 | The history of a serial execution in which every value is appended once, invoked before it commits, gets no report |
| `ElleSerial.DependsForward` | scripts/consistency/elle_check.py:109-117 | Every dependency of a serial execution runs forward in it |
| `ElleSerial.WriteSkewPasses` | scripts/consistency/elle_check.py:109-159 | Write skew gets no report, though neither order of its two transactions is a serial execution |
| `CivilDate.YearOfEraParts` | crates/dyniak-bench/src/config.rs:444 | The closed form's year of the era is the year the day falls in, the era's last day included |
| `CivilDate.MarchNext` | crates/dyniak-bench/src/config.rs:446-450 | Within a year that starts in March the month formula follows the month lengths |
| `CivilDate.CivilCountsDays` | crates/dyniak-bench/src/config.rs:440-450 | For every day number the closed form is the date that counting days from 1970-01-01 gives |
| `CivilDate.DatesIncrease` | crates/dyniak-bench/src/config.rs:433-459 | Counting days never gives a date twice |
| `CivilDate.DateReached` | crates/dyniak-bench/src/config.rs:433-459 | Every valid date from the epoch on is given |
| `CivilDate.EpochToCivilIs` | crates/dyniak-bench/src/config.rs:433-459 | Date and time are those of the calendar if and only if the second is before the year 2^32; afterwards the year alone is lost |
| `CivilDate.CivilUnique` | crates/dyniak-bench/src/config.rs:433-459 | No other valid date and time of day is that many seconds after the epoch |

## Left out

- `RampCore.RampClock.Mint`: the protocol theorems take fewer than 2^48 mints per coordinator id, distinct ids for distinct clocks and a store that starts empty, because the counter restarts at 0 with the process.
- `RampStore.RampCoordinator.Write`: store failures part way are modelled as a writer that stops.
- `RampStore.FlatStore.CommitPointer`: the object's methods run one at a time; the interleaving of its read and its write with other commits is in `RampProtocol` and `RampRaces`.
- `MstDiff.CompareReplicas`: takes maps with fewer than 2^64 entries and key lengths below 2^64, the width of the length fields.
- `MstReconcile.PullBothWays`: the same bound on the merged store; failing fetches and puts, and the split of a composite key into bucket and key, are not modelled.
- `MstReconcile.Exchange`: the same.
- `MstSweeps.ConvergesIff`: building a tree reads its store in one step, and clients do not write during the sweeps.
- `HashTreeSpec.RootIdentifiesContents`: the same bound on entries and key lengths.
- `HashTreeObject.HashTree.SegmentHash`: the race of several first readers to publish a digest is one atomic step; they would all publish the same value.
- `CrdtWire.Parse`: the source's parser recurses once per nesting level with no limit, so an input that nests deeper than its stack allows ends the process, which the model does not; `CrdtDepth` says how deep an input of a given length goes.
- `ElleScan.Check`: the cycle is returned whole, where the printed message shows its first eight transactions; reports carry the facts, not the message text; the source's search recurses once per transaction on the path, so a dependency chain longer than the interpreter's recursion limit ends it, which the model does not.
- BLAKE3 and the level of a key: any hash function and any level function will do.
- Snapshots of the hash tree: they rest on a serialisation library and do not check where keys belong.
- CRDT state, merging and applying operations: only the operation codec is modelled.
- Supervisor backoff delays, jitter, drain timing and the task runtime: a timer may fire at any time, and queued events may be handled in any order.
- Topology replication and the wire selectors of strategies: they would add only easy members.
- The HTTP and protocol-buffer front ends, bucket properties, admin tools, encodings and benchmark drivers: plumbing around these components.
- Reading history files and re-indexing merged histories by time: the checker takes the records in order.
