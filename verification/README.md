# RAILGUN wallet engine: a verified model

A Dafny model of the core of a native RAILGUN wallet engine, with proofs about it. The hard parts come first.

**The Poseidon permutation** (`Fields`, `Linear`, `Gauss`, `Sparse`, `Poseidon`). `PoseidonParams::new` replaces the
partial rounds of the permutation by cheaper ones: round constants are pulled backwards through the inverse MDS matrix,
and each dense matrix product becomes a sparse one after a single product with `m_i` (Supplementary Section B of the
Poseidon paper, ePrint 2019/458). The model proves, over any field, for any width, matrix, constants and number of
rounds, that the rewritten permutation returns what the textbook rounds return, spelled out state by state and
element by element, and says for exactly which matrices the
precomputation meets a zero pivot: those where the MDS matrix, or a power of its inner part, has a singular leading
block. The elimination behind it is proved to give a two-sided inverse exactly for matrices
whose leading square blocks are all nonsingular. `FieldInstances` shows that the field laws are met by the reals and by
the field of two elements.

**The Merkle frontier and the syncer** (`Merkle`, `Roots`, `Frontiers`, `Windows`, `Syncer`). The O(depth) accumulator is the
full zero-padded tree, for any hash and any depth; the gapped scan, the snapshots and the appending of windows all give
the same accumulator; in every store reachable by `commit_window` steps, committed or aborted, a tree has a snapshot
exactly when it has leaves and the snapshot is current; a run ends, tiles its range, holds exactly the source's events,
stops exactly at the first window that conflicts, and may be interrupted and resumed any number of times with any
window sizes without changing the final store.

**The layered store** (`Bytes`, `Listing`, `Store`, `Keys`, `Ledger`, `Commitments`, `Staging`, `Replay`, `Codec`,
`ByteReader`, `Layout`, `Malformed`).
Tables are maps from byte keys to byte values. Every typed operation is proved against a *ledger* (nodes, nullifiers,
counters, watermark and snapshots as plain maps and sets) through the relation `Ledger.Rep`, which says what bytes
represent a ledger. The batch overlay, the merging iterator and `apply` refine a plain map; staging and applying equals
writing directly, and for a store written in between it is said exactly when it still does. The node codec is a
bijection, with every field at a stated offset, and every cut-off or prolonged record is reported as such.

**BabyJubJub** (`Ring`, `Edwards`, `Scalars`, `Jubjub`). Projective addition is the affine twisted Edwards law; that law
has inverses, keeps its sums on the curve, and, where `a` is a square and `d` is none, is defined for every two points
of the curve. Double-and-add then never meets a zero denominator, stays on the curve, and, given associativity, is the
n-fold sum.

**Smaller cores**: balances against the nullifier set (`Balances`), Base37 (`Base37`), and the derivation path
parser and printer (`DerivationPath`).

Loops and objects are methods and classes, as in the source: the accumulator, the byte reader, the merging iterator, the
transaction or overlay (`Store.ReadWrite`, both worlds behind one interface) and the database are classes. A ghost
ledger parameter `l` of a method is what the store means before the call. `Basics` holds two devices of the proofs:
markers that fold a definition away until it is asked for, and `Same`, an equality that is not taken apart.

## Where the code and its words differ

- The comment in `crates/crypto/src/merkle.rs` at lines 324-325 says a snapshot made stale by a backfill is never
  trusted. The test there compares lengths only, and a backfill does not change the length. Inside `commit_window` this
  cannot be seen, because the snapshot is rebuilt in the same transaction (`Windows.QueryAfter`). For insertions past
  the windows `Roots.OutsideWindowsIff` says exactly when the answer is still right. `Windows.StaleRootReached` is such
  a store, one window away from the empty one, for any hash and the source's depth: a second leaf is put before the
  first, and the query still gives the root of the first alone. That is the wrong root unless two different pairs hashed
  in the two trees collide; `Merkle.CollisionFound` would hand over those pairs. `Frontiers.MissingSnapshotIff` gives
  the condition for a tree whose snapshot was cleared.
- `crates/database/src/batch.rs` (lines 5-8) lets a batch wait for a validation before it is applied, with no lock held.
  `apply` (`crates/database/src/lib.rs`, lines 150-169) then repeats the staged writes without reading again. If the
  store was written in between, that equals performing the mutations there exactly when `Replay.RepeatedIff` says so;
  `Replay.LengthSetBack` and `Replay.NodeOverwritten` are stores where it does not.
- `tree_count` is the highest tree + 1, except that the last tree number wraps in the release build:
  `Ledger.CountIsHighestIff` and `Ledger.LastTreeIsNotCounted`.
- `run` to the last block number never ends, because the start of the next window saturates at the target:
  `Syncer.RunEndsIff`.

## Model

| member | source | states |
|---|---|---|
| Gauss.MatInverse | crates/poseidon-rust/src/parameters.rs:76-158 | elimination without pivoting succeeds exactly when every leading square block is nonsingular, and then returns a two-sided inverse, although it skips the entries it relies on being zero |
| Gauss.Forward | crates/poseidon-rust/src/parameters.rs:86-121 | the first pass leaves a unit upper triangle `inv * mat`, with `inv` undone by the ghost matrix; it panics exactly on a singular leading block |
| Gauss.ZeroPivotIsSingular | crates/poseidon-rust/src/parameters.rs:110 | a zero pivot exhibits a nonzero vector that the leading block of that size sends to zero |
| Gauss.PivotsMeanNonsingular | crates/poseidon-rust/src/parameters.rs:86-121 | when no pivot is zero no leading block has a kernel |
| Poseidon.MatVecMul | crates/poseidon-rust/src/parameters.rs:244-257 | the loops compute the matrix-vector product |
| Poseidon.MatMatMul | crates/poseidon-rust/src/parameters.rs:259-272 | the loops compute the matrix product |
| Poseidon.MatTranspose | crates/poseidon-rust/src/parameters.rs:160-172 | the loops compute the transpose |
| Poseidon.FactorStage | crates/poseidon-rust/src/parameters.rs:188-205 | one turn finds `v` and `w_hat` that factor the current matrix, and panics exactly on a singular leading block of its inner part |
| Poseidon.EquivalentMatrices | crates/poseidon-rust/src/parameters.rs:175-218 | every stage factors into its block-diagonal part times the sparse matrix of `v` and `w_hat`; the returned `m_i` is the block of the last stage; panics exactly when one of the first `rounds_p` powers of the inner transposed MDS has a singular leading block |
| Sparse.Factorisation | crates/poseidon-rust/src/parameters.rs:189-213 | a matrix is its block-diagonal part times the sparse matrix whose `w_hat` solves the inner system |
| Sparse.StageCorner | crates/poseidon-rust/src/parameters.rs:207-214 | the top-left entry of every stage is `mds[0][0]` |
| Sparse.InnerStage | crates/poseidon-rust/src/parameters.rs:188-215 | the inner matrix inverted in each turn is the next power of the first one |
| Sparse.BlockCommutes | crates/poseidon-rust/src/parameters.rs:207-213 | a block-diagonal matrix leaves the first element alone and commutes with changing it, so it moves past a partial S-box |
| Sparse.CheapIsSparse | crates/poseidon-rust/src/poseidon.rs:79-97 | `cheap_matmul` is the product with the sparse matrix |
| Sparse.SparseStep | crates/poseidon-rust/src/poseidon.rs:33-41 | block product, change of the first element and `cheap_matmul` are one change and one dense product |
| Sparse.SparseRunTracks | crates/poseidon-rust/src/poseidon.rs:32-41 | after any number of rounds the sparse state is the dense state, ahead by the blocks still to come |
| Sparse.SparseRunIsDense | crates/poseidon-rust/src/poseidon.rs:32-41 | one `m_i` and all `cheap_matmul` calls equal repeated dense MDS products with the same partial S-boxes |
| Poseidon.EquivalentRoundConstants | crates/poseidon-rust/src/parameters.rs:220-242 | the constants pulled back through the inverse MDS: a full first vector and one element for each later round; panics exactly when a leading block of the MDS is singular |
| Poseidon.MoveStep | crates/poseidon-rust/src/parameters.rs:231-238 | one pull-back: a vector added after the MDS product is its inverse image added before it |
| Poseidon.MovedRunTracks | crates/poseidon-rust/src/parameters.rs:220-242 | after any number of partial rounds, moved constants give the textbook state plus what has been moved ahead |
| Poseidon.New | crates/poseidon-rust/src/parameters.rs:25-73 | exact conditions on the arguments for an error, a panic and success; on success the precomputed fields stand in the proved relation to the plain ones |
| Poseidon.SboxPIsPow | crates/poseidon-rust/src/poseidon.rs:54-77 | the multiplication chains for degrees 3, 5 and 7 are the power |
| Poseidon.Sbox | crates/poseidon-rust/src/poseidon.rs:50-52 | every element raised to the degree |
| Poseidon.AddRc | crates/poseidon-rust/src/poseidon.rs:99-104 | the constants added element by element |
| Poseidon.CheapMatmul | crates/poseidon-rust/src/poseidon.rs:79-97 | the loops compute the sparse product |
| Poseidon.SparseLoop | crates/poseidon-rust/src/poseidon.rs:33-41 | the loop is the run of sparse rounds |
| Poseidon.SparseRoundsAreDense | crates/poseidon-rust/src/poseidon.rs:31-41 | the optimised partial rounds are dense rounds with the moved constants |
| Poseidon.DenseRoundsAreTextbook | crates/poseidon-rust/src/bn254/parameters.sage:398-435 | dense rounds with the moved constants are the textbook partial rounds |
| Poseidon.Permutation | crates/poseidon-rust/src/poseidon.rs:19-48 | for every accepted parameter set and input, the optimised permutation returns the state of the textbook rounds, with the states between and what each round multiplies given element by element: constants added, the S-box on all of the state or its first element, and a row of the matrix for each new element; the only error is a wrong input length |
| Poseidon.TextbookTrace | crates/poseidon-rust/src/poseidon.rs:19-48 | the textbook rounds are such a sequence of states |
| Merkle.Accumulator.constructor | crates/crypto/src/merkle.rs:127-140 | the new accumulator is that of no leaves |
| Merkle.Accumulator.FromState | crates/crypto/src/merkle.rs:157-171 | resumes with the given state, and refuses exactly a frontier of another depth |
| Merkle.Accumulator.Insert | crates/crypto/src/merkle.rs:175-193 | from the accumulator of any leaves below 2^depth to the accumulator of one more, frontier, index and root |
| Merkle.ZeroValueLevels | crates/crypto/src/merkle.rs:221-230 | level by level the roots of empty subtrees |
| Merkle.CachedSibling | crates/crypto/src/merkle.rs:185-187 | at an odd position the cached left child is the root of its subtree, by then complete |
| Merkle.NewLeftChild | crates/crypto/src/merkle.rs:181-184 | at an even position the value cached is the partial subtree's root and its right sibling is empty |
| Merkle.RootIsFullRoot | crates/crypto/src/merkle.rs:99-101 | the folded root is the root of the full binary tree over the leaves padded with zeros |
| Merkle.LayerByLayer | crates/crypto/src/merkle.rs:175-193 | the padded root is what hashing neighbours in pairs gives, layer by layer up from the leaves |
| Merkle.CanonicalRoot | crates/crypto/src/merkle.rs:144-150 | a canonical state carries the full tree's root and the number of leaves |
| Merkle.ZeroLeafKeepsRoot | crates/crypto/src/merkle.rs:389-404 | appending a zero leaf never changes the root |
| Merkle.FoldScan | crates/crypto/src/merkle.rs:383-404 | folding a gapped scan gives the accumulator of the zero-filled leaves, and counts the gaps |
| Roots.TreeFrontier | crates/crypto/src/merkle.rs:368-407 | the rebuilt accumulator is that of the zero-filled stored leaves up to the recorded length, trailing gap included; missing is that length minus the stored count; overfull exactly above 2^depth |
| Roots.WalkUp | crates/crypto/src/merkle.rs:352-355 | the slow path returns the root of the full tree over what is stored |
| Roots.Validate | crates/crypto/src/merkle.rs:331-346 | judges the recomputed root, never the snapshot, and the gaps it reports are the positions of the recorded length that hold no leaf |
| Roots.MerkleRoot | crates/crypto/src/merkle.rs:314-329 | the answer whatever the snapshot holds: its root if its length is the tree's, else the recomputed one; under the invariant always the recomputed root |
| Merkle.SameRootIff | crates/crypto/src/merkle.rs:175-193 | equally long leaf sequences have one root exactly when they are one, unless two different pairs hashed in their two trees collide |
| Merkle.CollisionFound | crates/crypto/src/merkle.rs:175-193 | where two trees collide, two different pairs of nodes with one hash are at hand |
| Roots.AnsweredRightIff | crates/crypto/src/merkle.rs:314-329 | for a snapshot of any leaf sequence: the answer is the recomputed root if the lengths differ or the sequence is the stored one, and in no other case unless the two trees collide |
| Roots.OutsideWindowsIff | crates/crypto/src/merkle.rs:317-326 | after any run of insertions past the windows the answer is the recomputed root exactly when the tree was empty, or grew longer, or got only zeros (the "only" unless the trees before and after collide); otherwise it is the root from before |
| Windows.LateLeafIsMissed | crates/crypto/src/merkle.rs:317-326 | in every current store, a leaf other than zero put into a gap below its tree's length leaves the query at the root from before, which is wrong unless the trees collide |
| Windows.StaleRootReached | crates/crypto/src/merkle.rs:317-326 | such a store is reached from the empty one by a window with one leaf, for any hash and the source's depth |
| Windows.QueryAfterLateLeaf | crates/crypto/src/merkle.rs:314-329 | the same over the bytes: a window commits, a transaction adds the leaf, and the query answers the root from between them |
| Frontiers.MissingSnapshotIff | crates/sync/src/manager.rs:186-217 | a tree with leaves and no snapshot, after its next window: the snapshot is of the window alone, and the answer is the recomputed root exactly when the tree goes on past the window or stores only zeros besides it (the "only" unless the trees of snapshot and leaves collide) |
| Frontiers.ExtendOver | crates/sync/src/manager.rs:206-211 | appending a window with zero-filled gaps gives the accumulator of everything stored |
| Frontiers.AppendWindow | crates/sync/src/manager.rs:206-211 | from the accumulator of any leaf sequence to that of the sequence and the window, zeros between |
| Frontiers.AdvanceOne | crates/sync/src/manager.rs:186-217 | from a snapshot of any leaf sequence, or none: on a backfill the new snapshot is of all that is stored, else of that sequence and the window; nothing but this snapshot is written |
| Frontiers.AdvancedIsCurrent | crates/sync/src/manager.rs:167-174 | from a current snapshot the new one is current, whether the window extends the tree or backfills it |
| Windows.GroupByTree | crates/sync/src/manager.rs:178-184 | for each tree of the window exactly its leaf hashes by position, and no other tree |
| Windows.AdvanceFrontiers | crates/sync/src/manager.rs:175-219 | every snapshot of the store is current afterwards, whichever way the touched trees changed |
| Windows.InsertCommitments | crates/sync/src/manager.rs:155-157 | stops exactly when the window conflicts with the store or with itself |
| Windows.CommitWindow | crates/sync/src/manager.rs:148-165 | commits exactly the conflict-free windows; nodes, nullifiers, snapshots and watermark land together, or the store is unchanged |
| Windows.CommittedKeeps | crates/sync/src/manager.rs:144-165 | a committed window keeps the invariant |
| Windows.ReachableInv | crates/sync/src/manager.rs:144-165 | from an empty store every sequence of windows, committed or aborted, keeps the invariant |
| Windows.ReachableSnapshots | crates/sync/src/manager.rs:167-219 | in every reachable store a tree has a snapshot exactly when it has leaves; it is the accumulator of the zero-filled leaves, its root the recomputed root, its length current and within capacity |
| Windows.DepthIs16 | crates/crypto/src/merkle.rs:314-329 | a tree holds as many leaves as a node position can name at depth 16 and no other |
| Windows.CommitAll | crates/sync/src/manager.rs:144-165 | after any sequence of windows on an empty database the bytes represent the ledger reached, whichever windows aborted |
| Windows.QueryAfter | crates/crypto/src/merkle.rs:314-329 | a root query after any sequence of windows answers with the recomputed root |
| Syncer.ChainsAreConsistent | crates/sync/src/source.rs:34-47 | serving any chain of valid events by stream and inclusive block range meets the consistency the syncer's theorems require |
| Syncer.Fetch | crates/sync/src/manager.rs:112-131 | both streams drained page by page, events told apart by kind, none lost and order kept |
| Syncer.StepHolds | crates/sync/src/manager.rs:108-137 | committing the next window extends what is held to exactly the events up to its end |
| Syncer.WindowAgreesIff | crates/sync/src/manager.rs:135 | a window aborts exactly when the blocks up to its end report two different nodes at one position |
| Syncer.Run | crates/sync/src/manager.rs:98-141 | terminates; its windows tile the range, each `block_window` blocks long or cut off at the target; the store holds exactly the events up to the watermark; the summary counts what was committed; a failed fetch or a conflicting window keeps the windows before it; with no failed fetch the target is reached exactly when the blocks up to it report no conflict |
| Syncer.NothingSaturates | crates/sync/src/manager.rs:98-108 | a run starts one block past the watermark, or at the floor, and each window ends `block_window - 1` blocks on or at the target: the saturating sums are exact below the last block number |
| Syncer.SameWatermarkSameStore | crates/sync/src/manager.rs:93-98 | two stores synced to one block from one source are byte for byte the same in commitments and snapshots |
| Syncer.InterruptedEqualsUninterrupted | crates/sync/src/manager.rs:93-141 | for a source without conflicts up to the target, any list of runs, each with its own window size, nearer target and failing window, and then one run to the target end in the store of one uninterrupted run |
| Syncer.RunEndsIff | crates/sync/src/manager.rs:107-137 | the loop ends exactly when the target is below the last block number |
| Listing.MergeLists | crates/database/src/read.rs:53-110 | merging two ordered scans lists, once each and in key order, the base overridden by the staged entries with tombstoned keys gone |
| Listing.MergedIter.Next | crates/database/src/read.rs:53-110 | yields the next merged entry, passing over any run of tombstones; `None` only at the end |
| Listing.MergedIter.Drain | crates/database/src/read.rs:53-110 | the iterator yields the whole merge |
| Listing.RestrictOverride | crates/database/src/batch.rs:92-115 | restricting base and batch to a range and then overriding is the range of the override |
| Listing.ListsUnique | crates/database/src/read.rs:25 | an ordered scan is determined by the entries it lists |
| Store.ReadWrite.Get | crates/database/src/batch.rs:84-90 | a point read of the overlaid map: the batch's answer, a tombstone included, before the base |
| Store.ReadWrite.Put | crates/database/src/batch.rs:118-125 | changes the visible map at one key of one table, whether staged or direct, and never the base |
| Store.ReadWrite.Delete | crates/database/src/batch.rs:127-134 | removes one key of the visible map, whether staged or direct, and never the base |
| Store.ReadWrite.Range | crates/database/src/batch.rs:92-115 | the ordered scan of the entries of the visible map with keys from the one end to the other, both included; callers must not turn the range upside down over a table with staged entries, where the batch's ordered map panics |
| Store.StageIsWrite | crates/database/src/batch.rs:117-135 | staging a put or a tombstone acts on the overlaid view as a direct write |
| Store.Database.Begin | crates/database/src/lib.rs:123 | a transaction starts from the committed tables |
| Store.Database.Finish | crates/database/src/lib.rs:124-147 | commit on success, discard on failure |
| Store.ApplyTable | crates/database/src/lib.rs:160-165 | the writes of one table, in any order, give the overridden table |
| Store.Database.Apply | crates/database/src/lib.rs:157-169 | the tables become what the overlay showed |
| Store.CheckAndStamp | crates/database/src/version.rs:50-67 | succeeds exactly when no table has a wrong or malformed stamp, and then adds the missing stamps and nothing else |
| Store.StampedOpens | crates/database/src/version.rs:44-67 | a stamped file passes the check again, unchanged |
| Store.Database.Initialize | crates/database/src/lib.rs:185-194 | opening fails exactly on a wrong stamp and then leaves the file as it was; else it adds the missing stamps |
| Store.Database.ClearAll | crates/database/src/lib.rs:175-183 | every table is emptied but for the version stamps, which are put back |
| Staging.RunBoth | crates/database/src/batch.rs:83-135 | a sequence of typed mutations behaves the same directly and staged: same outcomes, same visible store after every step |
| Staging.StagedEqualsDirect | crates/database/src/lib.rs:105-169 | staging and applying leaves the store of one write transaction; a failed mutation leaves both as they were |
| Replay.PerformedAllRep | crates/database/src/lib.rs:150-169 | the writes that mutations choose from one ledger, made on a store of another, represent that other ledger with exactly those writes repeated |
| Replay.SameBatch | crates/database/src/batch.rs:83-135 | the batch depends on what the snapshot means, not on the store it is applied to |
| Replay.StageThenApplyLater | crates/database/src/lib.rs:150-169 | a batch staged over a snapshot and applied after another transaction leaves the moved store with the staged writes repeated |
| Replay.RepeatedIff | crates/database/src/lib.rs:150-169 | repeating the writes on a store that any mutations moved equals performing the mutations there exactly when no insertion meets another node at its position and no written counter is below the one it overwrites |
| Replay.RunTracks | crates/database/src/tables/commitments.rs:217-253 | performed, a mutation run is refused exactly on such a clash, and else the counters are the greater ones; repeated, they are the last ones written |
| Replay.LengthSetBack | crates/database/src/lib.rs:150-169 | a batch that sets a length back leaves a stored leaf past its tree's length |
| Replay.NodeOverwritten | crates/database/src/lib.rs:150-169 | a batch that overwrites another node, where performing the insertion reports the conflict |
| Keys.KeyOfInjective | crates/database/src/tables/commitments.rs:303-337 | no two slots, of whatever namespace, share a key |
| Keys.OrderInTree | crates/database/src/tables/commitments.rs:303-310 | within a tree keys sort as positions do |
| Keys.OrderAcrossTrees | crates/database/src/tables/commitments.rs:303-310 | keys of different trees sort as tree numbers do |
| Keys.PositionFromKeyBack | crates/database/src/tables/commitments.rs:294-301 | the position is read back from the key |
| Keys.TreeRangeIsTree | crates/database/src/tables/commitments.rs:76-95 | the scanned key range of a tree holds the keys of its nodes and no key of any other namespace or tree |
| Bytes.BeOrder | crates/database/src/tables/commitments.rs:303-310 | big-endian integers of one width sort as numbers |
| Bytes.LessIff | crates/database/src/tables/commitments.rs:303-310 | keys sort by the first byte in which they differ, and a proper prefix comes first |
| Layout.KeyLayout | crates/database/src/tables/commitments.rs:303-338 | every key is its letter, then the tree, then the position or the nullifier, in big-endian bytes |
| Layout.ValueLayout | crates/database/src/tables/commitments.rs:217-279 | what is stored under each key: a record, nothing, a four-byte counter or an eight-byte block number |
| Layout.StampLayout | crates/database/src/version.rs:14-28 | the four stamps are the number 1 in four bytes |
| Layout.StampKeys | crates/database/src/version.rs:21-28 | a stamp lies under `v` and the name of the table |
| Ledger.RepUnique | crates/database/src/tables/commitments.rs:303-337 | the stored bytes are determined by what they represent |
| Ledger.InsertNodeKeeps | crates/database/src/tables/commitments.rs:217-253 | one insertion replaces no node and keeps the counters exact |
| Ledger.InsertNodesAdd | crates/database/src/tables/commitments.rs:217-253 | a run of insertions adds exactly its nodes and replaces none |
| Ledger.InsertNodesKeep | crates/database/src/tables/commitments.rs:236-251 | over every run of insertions a tree's length is its highest position + 1, and the count the highest tree + 1 below the last tree number |
| Ledger.InsertNodesIff | crates/database/src/tables/commitments.rs:221-231 | a run of insertions fails exactly when two different nodes meet at one position |
| Ledger.CountIsHighestIff | crates/database/src/tables/commitments.rs:237-251 | the count is the highest tree + 1 exactly when nothing is stored in the last tree number |
| Ledger.LastTreeIsNotCounted | crates/database/src/tables/commitments.rs:237-251 | a first node in the last tree leaves the count at zero |
| Commitments.InsertOne | crates/database/src/tables/commitments.rs:217-253 | succeeds exactly without a conflict, writes node, length and count, and changes nothing on a conflict |
| Commitments.InsertNullifier | crates/database/src/tables/commitments.rs:259-265 | adds one nullifier and nothing else |
| Commitments.SetSyncedBlock | crates/database/src/tables/commitments.rs:273-279 | sets the watermark and nothing else |
| Commitments.GetTreeLength | crates/database/src/tables/commitments.rs:101-107 | the stored length, zero when absent |
| Commitments.GetTreeCount | crates/database/src/tables/commitments.rs:113-119 | the stored count, zero when absent |
| Commitments.GetSyncedBlock | crates/database/src/tables/commitments.rs:146-156 | the watermark, if any |
| Commitments.IsNullified | crates/database/src/tables/commitments.rs:134-140 | true exactly for the nullifiers inserted |
| Commitments.GetNode | crates/database/src/tables/commitments.rs:41-50 | the node inserted at the position, if any |
| Commitments.RangeIsTree | crates/database/src/tables/commitments.rs:76-95 | the range scan of a tree lists the entries of its nodes, all of them and no others |
| Commitments.LeafHashes | crates/database/src/tables/commitments.rs:76-83 | exactly the tree's positions and hashes, in position order |
| Commitments.Nodes | crates/database/src/tables/commitments.rs:89-95 | exactly the tree's nodes, in position order |
| Commitments.GetSnapshot | crates/database/src/tables/frontier.rs:31-33 | the snapshot set for the tree, if any |
| Commitments.SetSnapshot | crates/database/src/tables/frontier.rs:51-54 | sets one tree's snapshot and nothing else |
| Commitments.ClearSnapshot | crates/database/src/tables/frontier.rs:61-64 | removes one tree's snapshot and nothing else |
| Commitments.SaveNotes | crates/database/src/tables/decoded.rs:56-60 | replaces the stored note list and nothing else |
| Codec.DecodeEncode | crates/database/src/tables/codec.rs:38-166 | every valid node decodes back from its encoding |
| Codec.EncodeDecode | crates/database/src/tables/codec.rs:38-166 | every accepted byte string is the encoding of a valid node |
| Codec.SameBytesSameNode | crates/database/src/tables/commitments.rs:221-231 | the byte comparison of `insert_node` tells nodes apart exactly |
| Codec.HashAgrees | crates/database/src/tables/codec.rs:168-172 | `decode_hash` reads the hash `decode_node` would |
| Layout.NodeLayout | crates/database/src/tables/codec.rs:38-72 | tree, leaf, hash and block lie at bytes 0, 4, 8 and 40, the tag at 48: 0 for a shield, 1 for a transact, and the body after it |
| Layout.ShieldLayout | crates/database/src/tables/codec.rs:49-56 | the fields of a shield body at their offsets, the words of the bundle one after the other, the key last |
| Layout.TransactLayout | crates/database/src/tables/codec.rs:57-64 | the fields of a transact body in order, each blob behind its four-byte length |
| Malformed.CutShort | crates/database/src/tables/codec.rs:126-166 | every proper prefix of a record is reported as cut short, whatever the field it ends in |
| Malformed.GoesOn | crates/database/src/tables/codec.rs:157 | every record with bytes after it is reported as having them |
| Malformed.UnknownTag | crates/database/src/tables/codec.rs:132-156 | an unknown tag is reported with its value, whatever follows |
| Malformed.LeafTooHigh | crates/database/src/tables/codec.rs:233-237 | a leaf index past the capacity is reported with its value, whatever follows |
| ByteReader.EncodeNode | crates/database/src/tables/codec.rs:38-66 | appending field by field gives the layout |
| ByteReader.DecodeNode | crates/database/src/tables/codec.rs:126-166 | the moving reader accepts, rejects and fails as the layout's parser does, trailing bytes included |
| ByteReader.ReadHash | crates/database/src/tables/codec.rs:168-172 | the hash read past the position alone |
| ByteReader.Reader.Take | crates/database/src/tables/codec.rs:185-193 | the next bytes and the position past them, or end of input |
| Edwards.InverseAdds | crates/crypto/src/babyjubjub.rs:181-212 | a point of the curve and its mirror image add up to the neutral point |
| Edwards.SumOnCurve | crates/crypto/src/babyjubjub.rs:181-212 | where the law is defined, the sum of two points of the curve is on the curve |
| Edwards.SumEquation | crates/crypto/src/babyjubjub.rs:181-212 | the curve equation of the sum before the denominators are divided out |
| Edwards.AlwaysDefined | crates/crypto/src/babyjubjub.rs:181-212 | when 2 is not 0, `a` is a square and `d` is none, no denominator vanishes for two points of the curve |
| Jubjub.AddIsAffine | crates/crypto/src/babyjubjub.rs:181-212 | projective addition is the affine twisted Edwards law wherever that has no zero denominator, and falls to z = 0 exactly everywhere else |
| Jubjub.DeadStays | crates/crypto/src/babyjubjub.rs:165-212 | a point that stands for (0, 0) makes every later sum stand for (0, 0) |
| Jubjub.MulScalar | crates/crypto/src/babyjubjub.rs:140-162 | for every point and scalar: affine double-and-add when no denominator on the way to the sum vanishes, else (0, 0); from a point of the curve the result is on the curve, and on a complete curve no denominator vanishes |
| Jubjub.CurveRunIsTimes | crates/crypto/src/babyjubjub.rs:140-162 | affine double-and-add is the n-fold sum on any set of points where the law is complete and associative |
| Jubjub.MulScalarInGroup | crates/crypto/src/babyjubjub.rs:140-162 | on such a set the loop returns the n-fold sum |
| Jubjub.CompleteCurveIsGroup | crates/crypto/src/babyjubjub.rs:181-212 | a complete curve is closed under its law and has its neutral point, so that associativity alone makes the law a group law there |
| Jubjub.MulScalarOnCurve | crates/crypto/src/babyjubjub.rs:140-162 | on a complete curve with an associative law the loop returns the n-fold sum of any point of the curve, on the curve |
| Scalars.RunIsTimes | crates/crypto/src/babyjubjub.rs:154-159 | double-and-add is the n-fold sum under any associative operation with a neutral element |
| Scalars.TestBitsAreBits | crates/crypto/src/common.rs:34-36 | the bits tested in the little-endian bytes are the binary digits of the scalar |
| Scalars.ScalarKeyRange | crates/crypto/src/babyjubjub.rs:115-129 | after pruning (section 5.1.5 of RFC 8032) the key lies in [2^251, 2^252), and the shift drops no set bit |
| Scalars.ScalarKeyIs | crates/crypto/src/babyjubjub.rs:115-129 | the key is the half digest without its three lowest bits, cut to 251 bits, plus 2^251 |
| Scalars.LeBytesBack | crates/crypto/src/babyjubjub.rs:151 | the little-endian bytes of a number stand for it |
| Balances.FromNotes | crates/decoder/src/notes.rs:35-42 | each asset's group is exactly its notes in order, and only held assets have one |
| Balances.ToNotes | crates/decoder/src/notes.rs:66-69 | flattening keeps the multiset of notes, and each asset's order |
| Balances.Regroup | crates/decoder/src/notes.rs:35-69 | grouping the flattened notes gives the same wallet |
| Balances.BalancesOf | crates/decoder/src/notes.rs:79-105 | an asset appears exactly when some note of it has a nullifier not committed in the tree of that note, with exactly those notes in order, and their sum or the highest 256-bit number |
| Balances.BalancesAreExact | crates/decoder/src/notes.rs:79-105 | from the flat list: an asset appears exactly when it has a note whose nullifier is not committed in the tree of that note, with exactly those notes, and its value is the exact sum |
| Balances.NeverSaturates | crates/decoder/src/notes.rs:91 | with up to 2^128 notes of an asset the saturating sum is the exact sum |
| Balances.UnspentPlusSpent | crates/decoder/src/notes.rs:87-93 | unspent plus spent is the total |
| Balances.UnspentIff | crates/decoder/src/notes.rs:87-93 | a note is among the unspent exactly when its nullifier is not committed in its own tree |
| Balances.NoteByNote | crates/decoder/src/notes.rs:87-93 | selecting the unspent notes and adding their values goes note by note: both split over concatenation, so the order is kept |
| Balances.OneNote | crates/decoder/src/notes.rs:87-93 | what selecting, grouping and adding do to a single note |
| Balances.MoreNullifiers | crates/decoder/src/notes.rs:87-93 | more nullifiers leave a sublist of the unspent notes, worth no more |
| Balances.WindowNeverRaises | crates/sync/src/manager.rs:148-165 | no window raises a balance or adds an asset |
| Base37.Encode | crates/types/src/protocol.rs:26-40 | succeeds exactly for texts in the character set whose base 37 number fits 128 bits, with that number's bytes; each error is at the first character where it happens |
| Base37.TryDecode | crates/types/src/protocol.rs:50-62 | the buffer ends in the number's base 37 text and never holds more than 25 characters of it |
| Base37.CharsetIsIndexed | crates/types/src/protocol.rs:109-116 | `charset_index` inverts the character table |
| Base37.NumberOfText | crates/types/src/protocol.rs:26-62 | the text of a number stands for that number |
| Base37.TextOfNumber | crates/types/src/protocol.rs:26-62 | the text of a text's number is the text without its leading spaces |
| Base37.DecodeThenEncode | crates/types/src/protocol.rs:26-62 | any 128-bit value survives decoding and encoding |
| Base37.EncodeThenDecode | crates/types/src/protocol.rs:26-62 | any text that encodes comes back without its leading spaces |
| Base37.SameEncodingIff | crates/types/src/protocol.rs:26-40 | two texts share an encoding exactly when they differ in leading spaces alone |
| Base37.EncodingKeepsOrder | crates/types/src/protocol.rs:109-116 | the 37 spellable characters, and texts of one length are encoded in the order of their character codes |
| DerivationPath.FromStr | crates/types/src/derivation.rs:68-120 | the index-driven parser ends, stays inside the segment array, and answers as the recursive parser does |
| DerivationPath.ReadSegment | crates/types/src/derivation.rs:85-117 | one turn: a u32 and its quote, then a slash or the end, or the error the recursive parser gives there |
| DerivationPath.ReadDigits | crates/types/src/derivation.rs:90-100 | the checked accumulation returns the value of the digit run, and fails exactly when it exceeds a u32 |
| DerivationPath.ParseIff | crates/types/src/derivation.rs:68-120 | the accepted texts are exactly `m` and `m/` with one to eight u32 segments, each quoted, slashes between, at most one after |
| DerivationPath.TooDeepIff | crates/types/src/derivation.rs:86-88 | the depth error is for texts that go on after eight good segments, and no others |
| DerivationPath.ParseShow | crates/types/src/derivation.rs:65-131 | every path of at most eight u32 segments parses back from its printed form |
| DerivationPath.ShowParseIff | crates/types/src/derivation.rs:65-131 | an accepted text is its path's printed form exactly when it has no trailing slash and no leading zeros |
| DerivationPath.OneSpelling | crates/types/src/derivation.rs:85-117 | a text has one reading |
| DerivationPath.Display | crates/types/src/derivation.rs:123-131 | writes the printed form |
| DerivationPath.PrintedSnoc | crates/types/src/derivation.rs:123-131 | the printed form is `m`, then a slash, the digits and a quote for each segment |
| DerivationPath.PrintedDigits | crates/types/src/derivation.rs:123-131 | the digits are the decimal ones, most significant first |
| DerivationPath.FromSegments | crates/types/src/derivation.rs:43-52 | the path holds the given segments and zeros after them |
| DerivationPath.PrintThenParse | crates/types/src/derivation.rs:65-131 | printing and parsing returns the same path, unused array entries included |

## Left out

- Engine and input-output errors, including an iterator whose base yields an error: reads and commits of the engine always succeed here.
- The redb adapter (`crates/database/src/engine.rs`): the engine is a map with snapshot reads and atomic commit.
- Stores whose bytes no typed write produced (malformed counters, keys or nodes in the tables): typed reads are stated for tables that represent a ledger. The codec itself is modelled on all byte strings.
- The serialised form of snapshots and decoded notes: any lossless encoding (`Ledger.Lossless`).
- Tracing counters, the public reader of one version stamp, and reading the saved notes back: a saved note list is its serialisation.
- HTTP, GraphQL, retries and asynchrony: a source is a fixed function from stream and block range to a finite list of pages; a cursor that never ends is not modelled.
- Syncer.Run: a source that fails is modelled as failing at one window number; which page of the window failed makes no difference to the store.
- Merkle.Accumulator.Insert: at most 2^depth leaves, which the source demands of its callers and every reachable store respects.
- Roots.TreeFrontier: no leaf is stored past the recorded length (the same for the other root queries), as holds for every store the typed writes produce.
- Frontiers.AdvanceOne: the snapshot it meets is one an accumulator left; the failure on a snapshot of another depth is that of `Merkle.Accumulator.FromState`, and the failing window that follows from it is not modelled.
- Jubjub.MulScalar: the scalar is its magnitude, as in the source, which drops the sign.
- Jubjub.MulScalarOnCurve: associativity of the Edwards law on the curve is a hypothesis (and a group law on the given set for `Jubjub.MulScalarInGroup`). So is that 168700 is a square and 168696 is none in the field of BabyJubJub, since that field is not computed with here.
- Base field arithmetic, the `circom_t*.rs` constants and the parameter generator: the field is any structure with the field laws; `pow` is the power function.
- Matrices and state vectors of the Poseidon code are sequences, so updating a row in place is a sequence update; aliasing is not captured.
- Debug builds: the extra checks and the overflow panics they bring.
- AES-GCM, HMAC, SHA, Blake, ed25519, BIP-39, bech32m, signing, note decryption and key derivation.
- `latest_tree`, `leaf_hash`, `is_synced`, `run_to_head`, the account path constructors and similar one-line readers: easy members.
- Iteration order of hash maps: the loops take any order, and the results are proved not to depend on it.
