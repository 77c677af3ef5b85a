# OceanFS: a verified model of its core protocols

OceanFS is a distributed object store. This project models the parts of it where correctness is
least obvious and proves what they promise, for every input, every schedule and every run:

- **Erasure coding.** GF(2^8) from its doubling tables, the Cauchy generator, Gauss-Jordan
  inversion, scalar and vectorised encoders, and the decoder. The linear algebra is proved over any
  field of characteristic two; the tables are then proved to make one.
- **Hybrid logical clocks.** The packed word, the lock-free `now` and `update`, and a cluster of
  nodes and threads exchanging timestamps.
- **Hints and remaps.** Last-writer-wins application of hinted writes and deletes, the accounting
  of a handoff batch, and the rewriting of chunk references after compaction.
- **Reconciliation and repair.** The holder index, the bounded risk-ordered repair queue with paced
  retries, the membership view, the drift scan, the transfer of a segment, one repair attempt with
  its retries, and several attempts racing for one segment.
- **Caches.** The Bloom-filter negative cache with its overlay, and the object cache's accounting.

Objects the source updates in place are classes, loops over buffers are loops over arrays, and
protocols with concurrent tasks are state machines whose steps are the stretches of code between
suspension points or atomic operations. Clocks, hashes, the network, disks and task scheduling
appear as parameters and may do anything.

`dafny verify dfyconfig.toml` checks the whole project with Dafny 4.11.

## What the proofs found

Where the source does not keep a promise in general, the exact condition is proved.

- *Shard count.* Any k of k+m shards recover the data when k+m is at most 256, and no decoder then
  finds a singular matrix. The documentation names 255 as a checked limit (isal.rs:107); nothing
  checks it. The coders of isal.rs and cauchy.rs use an inverse that panics on zero, so with k and m
  at least 1 they build their matrix exactly up to 256 shards and panic past that; isal.rs answers
  empty shards before it builds one. The inverse of
  arm_sve.rs maps zero to zero: past 256 shards its generator exists and has singular selections,
  and the dispatching decoder then falls back to the decoder of cauchy.rs, which panics.
- *Hint convergence.* A delivery checks the local row and tombstone, and writes later without
  checking again; deliveries of different batches overlap. All runs agree exactly when all deliveries
  have the same visible effect (one put, or deletes only): otherwise an older operation that passed
  its checks early may write last. The newest operation decides in every run in which no delivery of
  another is between its check and its write when it is written. One delivery at a time, replicas
  agree exactly when one operation is strictly newer than all others.
- *Handoff counts.* `accepted_count` and `retry_indices` add up to the batch size plus, for every
  panicked fetch, one less than the number of deferred hints: each panic re-reports all of them.
- *Remap.* Reapplying a remap is a no-op exactly when the two segment ids differ. A row keeps its
  bytes exactly when none of its chunks still refers to the deleted segment.
  The documentation of `announce_remap` says `applied` is true only when all four steps
  succeeded; the code also reports `applied` when the delete or the unlink fails. The model
  follows the code.
- *Clock ends.* `now` advances except at the very last timestamp; `update` advances except when the
  logical counter overflows with no wall time left to bump.
- *Starvation.* Segments put back after a repair request are queued as if they had no live copy. Once
  a batch's worth of them has been put back, and while the segments checked stay short of copies, no
  segment queued with a live copy is popped.
- *Repair pacing.* A request the repair sink refuses is logged as one to retry in the next tick; it
  counts as issued all the same, so the next one comes only after the retry window.
- *Event wake-up.* A node stops counting as a holder without any event waking its segments exactly
  when it is present, none of its data pools is healthy and at least one is not dead either, for
  example degraded or draining; only the drift scan finds those segments.
- *Repair retries.* After a failed seal, stamp or clean-up the next retry finds the segment
  registered, reports success and does nothing. A retried request leaves a complete copy exactly
  when some run within the limit completes and every run before it fails cleanly and is queued.
- *Repair races.* A sealed copy always matches its root exactly when no two concurrent requests
  accept bytes with different hashes, that is, for a hash that tells bytes apart, when there is at
  most one request or all carry one root.
  An attempt's clean-up after a failed write deletes whatever registration there is, even a copy
  another attempt has sealed and stamped; that success lasts exactly when no two requests can both
  be served. An attempt also reports success on finding a bare reservation: a reported success means
  a sealed segment at the end of every run exactly when no request that can be served has another
  beside it. With roots that are someone's, both mean at most one request.
- *Truncated transfers.* A stream that ends early but cleanly yields a shorter prefix as if it were
  the segment; only the root check, when there is a root, rejects it.
- *Negative cache.* The documentation says an invalidated key can never be answered "absent". It
  can, exactly when the overlay has overflowed since and keys inserted after that cover all its bits.
- *Object cache.* A blob refused for its size leaves the older blob in place, so a hit is the last
  blob put exactly when that one was accepted.

## Model

| member | source | states |
|---|---|---|
| Gf256.Log | crates/oceanfs-accel/src/arm_sve.rs:152-166 | every nonzero byte is a power of 2: its logarithm exists, below 255 |
| Gf256.NoSmallerOrder | crates/oceanfs-accel/src/arm_sve.rs:169-195 | 2 has order exactly 255, which is what makes the tables bijective |
| Gf256.MulIsDoubling | crates/oceanfs-accel/src/arm_sve.rs:199-205 | table multiplication by a is repeated doubling modulo the polynomial, an independent definition |
| Gf256.MulDistributes | crates/oceanfs-accel/src/arm_sve.rs:199-205 | table multiplication distributes over XOR |
| Gf256.MulInverts | crates/oceanfs-accel/src/arm_sve.rs:209-214 | the table inverse is the multiplicative inverse of every nonzero byte |
| Gf256.Gf256Laws | crates/oceanfs-accel/src/arm_sve.rs:199-214 | XOR, table multiplication and table inverse satisfy all field laws |
| Gf256Tables.BuildLogTable | crates/oceanfs-ec/src/gf/mod.rs:43-56 | the loop fills exactly the logarithm table |
| Gf256Tables.BuildExpTable | crates/oceanfs-ec/src/gf/mod.rs:59-73 | the loop fills exactly the powers of 2, twice round |
| Gf256Tables.TablesMultiply | crates/oceanfs-ec/src/gf/mod.rs:89-130 | reading the tables with and without reducing the sum gives the same product, and the two inverses agree on every nonzero byte |
| GaussJordan.Invert | crates/oceanfs-accel/src/arm_sve.rs:1018-1070 | returns a two-sided inverse, and returns one exactly when the matrix is nonsingular |
| GaussJordan.PivotStep | crates/oceanfs-accel/src/isal.rs:522-578 | swapping, scaling and clearing keep the solutions of the augmented system and reduce one more column |
| GaussJordan.NoPivotGivesKernel | crates/oceanfs-accel/src/isal.rs:522-578 | a column without a pivot yields a nonzero vector the matrix kills |
| GaussJordan.Eliminate | crates/oceanfs-accel/src/arm_sve.rs:1049-1059 | clears a column in all other rows in place and keeps the solutions |
| GaussJordan.Normalize | crates/oceanfs-accel/src/arm_sve.rs:1044-1047 | divides the pivot row by its pivot in place |
| Cauchy.OnlyZeroSolution | crates/oceanfs-accel/src/isal.rs:457-470 | a Cauchy system with distinct nodes and enough equations has only the zero solution, over any field |
| Cauchy.EliminateSum | crates/oceanfs-accel/src/isal.rs:457-470 | eliminating one unknown and one equation leaves a Cauchy system with rescaled coefficients |
| Codec.BuildGenerator | crates/oceanfs-accel/src/arm_sve.rs:989-1012 | builds the identity above the Cauchy rows, indices wrapping in a byte |
| Codec.EntryLaw | crates/oceanfs-accel/src/arm_sve.rs:989-1012 | every coefficient, times the sum of its column's and its row's number counted from one, is one |
| Codec.ParityByCoefficients | crates/oceanfs-accel/src/arm_sve.rs:316-333 | whatever coefficients invert those sums, a parity byte is their combination of the data bytes |
| Codec.ParityOfOneByte | crates/oceanfs-accel/src/arm_sve.rs:316-333 | where only one data shard has a nonzero byte, the parity byte times that shard's sum is the byte |
| Codec.ParityAdds | crates/oceanfs-accel/src/arm_sve.rs:316-333 | the parity of a sum of data is the sum of the parities |
| Codec.AnyRowsNonsingular | crates/oceanfs-accel/src/isal.rs:476-496 | up to 256 shards, any k generator rows are nonsingular |
| Codec.WrappedRowsSingular | crates/oceanfs-accel/src/arm_sve.rs:989-1012 | past 256 shards, with zero inverting to zero, an erasure pattern with a singular matrix exists |
| Codec.RecoverableExactly | crates/oceanfs-accel/src/arm_sve.rs:989-1012 | with zero inverting to zero, every choice of k rows is invertible if and only if k is 0 or k+m is at most 256 |
| Codec.BuildStrictGenerator | crates/oceanfs-accel/src/isal.rs:476-513 | with an inverse that panics on zero, the generator is built if and only if k is 0, m is 0 or k+m is at most 256 |
| Codec.EncodeStrict | crates/oceanfs-accel/src/isal.rs:215-290 | the matrix encoder yields the parity of the code word, or panics exactly past 256 shards, except that isal.rs answers empty shards |
| Codec.Encode | crates/oceanfs-accel/src/arm_sve.rs:316-333 | the scalar encoder computes the parity shards of the code word |
| Codec.Systematic | crates/oceanfs-accel/src/arm_sve.rs:989-1012 | the first k shards of the code word are the data |
| Codec.Decode | crates/oceanfs-accel/src/isal.rs:345-444 | each error exactly in its case, never a singular matrix, a panic exactly past 256 shards; otherwise the data of every code word the shards can come from |
| Codec.DecodeFrom | crates/oceanfs-accel/src/isal.rs:375-444 | inverting the chosen rows of a built generator recovers the data, and fails exactly for singular rows |
| Codec.MultiplyShards | crates/oceanfs-accel/src/isal.rs:397-401 | applies a matrix to shards byte by byte |
| Kernels.BuildMulTable | crates/oceanfs-accel/src/arm_sve.rs:101-112 | the two nibble tables of a coefficient |
| Kernels.LookupMultiplies | crates/oceanfs-accel/src/arm_sve.rs:232-251 | two nibble lookups and an XOR multiply any byte |
| Kernels.RegisterKernel | crates/oceanfs-accel/src/arm_sve.rs:262-313 | chunks summed in a register plus a scalar tail give the scalar product, for every size and width |
| Kernels.AccumulateKernel | crates/oceanfs-accel/src/arm_sve.rs:355-442 | column passes that accumulate in memory, plus an overwritten tail, give the same |
| Kernels.EncodeNeon | crates/oceanfs-accel/src/arm_sve.rs:262-313 | the sixteen-lane encoder equals the scalar encoder |
| Kernels.EncodeSve2 | crates/oceanfs-accel/src/arm_sve.rs:355-442 | the scalable-vector encoder equals the scalar encoder, for every vector length of at least 16 |
| Kernels.MultiplyShardsVector | crates/oceanfs-accel/src/arm_sve.rs:481-574 | the vector decoder's product equals the scalar one |
| Kernels.DecodeVector | crates/oceanfs-accel/src/arm_sve.rs:904-982 | the vector decoder recovers the data, and fails exactly for singular rows |
| Kernels.DecodeArm | crates/oceanfs-accel/src/arm_sve.rs:824-882 | the dispatch with its fallback: each error in its case, when it panics, and otherwise the data |
| ErasureCode.RoundTrip | crates/oceanfs-accel/src/arm_sve.rs:701-882 | over GF(2^8), for every encoder and every decoder, scalar or vector: encode, lose any shards, decode returns the data whenever k shards are left, else reports the shortage |
| ErasureCode.EncodeParity | crates/oceanfs-accel/src/arm_sve.rs:989-1012 | over GF(2^8), every encoder, scalar or vector: each parity byte is the sum of the data bytes divided by the XOR of column and row number, counted from one |
| ErasureCode.ExactShardBound | crates/oceanfs-accel/src/arm_sve.rs:989-1012 | over GF(2^8) with zero inverting to zero, any k rows are invertible if and only if k+m is at most 256 |
| HybridClock.LessIsStrictTotalOrder | crates/oceanfs-core/src/hlc.rs:81-85 | timestamps are totally ordered |
| HybridClock.PackingIsOrder | crates/oceanfs-core/src/hlc.rs:110-124 | packing into one word is injective and keeps the order |
| HybridClock.NowAdvances | crates/oceanfs-core/src/hlc.rs:140-164 | a local event is strictly later exactly when the last timestamp is not reached; it never lags the physical clock |
| HybridClock.NowIsLeast | crates/oceanfs-core/src/hlc.rs:140-164 | a local event gets the least timestamp behind neither wall time with a larger counter, or, with the counter used up, ahead of both wall times; the last wall time if there is none |
| HybridClock.UpdateAdvances | crates/oceanfs-core/src/hlc.rs:194-222 | a receive is strictly later than clock and message exactly unless the counter overflows with no wall time left |
| HybridClock.UpdateIsLeast | crates/oceanfs-core/src/hlc.rs:194-222 | a receive gets the least timestamp behind none of the three wall times that exceeds the counters it must, or, with those used up, is ahead of all three; the last wall time if there is none |
| HybridClock.HlcClock.Now | crates/oceanfs-core/src/hlc.rs:140-164 | the retry loop applies the local rule to the last word other threads stored, whatever exchanges fail |
| HybridClock.HlcClock.Update | crates/oceanfs-core/src/hlc.rs:194-222 | the retry loop applies the receive rule to the last word other threads stored |
| ClockCluster.StepKeepsInv | crates/oceanfs-core/src/hlc.rs:140-222 | every step of any thread on any node keeps the cluster invariant |
| ClockCluster.ClockResults | crates/oceanfs-core/src/hlc.rs:140-222 | in every interleaving before the last wall time, one node's results grow strictly in commit order, follow the physical clock and exceed what they received |
| ClockCluster.Causality | crates/oceanfs-core/src/hlc.rs:140-222 | in every run before the last wall time, for any physical clocks, happens-before implies a smaller timestamp |
| ClockCluster.WallsAreSourced | crates/oceanfs-core/src/hlc.rs:140-222 | in every run without counter overflow, every stamp's wall time is its node's first one or was read or received by a call on the node |
| HintRaces.ConvergesExactly | crates/oceanfs-durability/src/healing_service.rs:530-726 | with overlapping deliveries, all ended runs agree if and only if all deliveries have the same visible effect |
| HintRaces.NewestDecides | crates/oceanfs-durability/src/healing_service.rs:530-726 | from the moment the newest operation is written with no other delivery between check and write, the row is its effect, in every run |
| HintRaces.NewestWins | crates/oceanfs-durability/src/healing_service.rs:530-726 | in every ended run whose writes of the newest operation are undisturbed, the newest operation decides the row |
| HintRaces.InTurnIsRun | crates/oceanfs-durability/src/healing_service.rs:530-726 | deliveries one after another are among the runs, with the state of their replay |
| Hints.InTurnLargestWins | crates/oceanfs-durability/src/healing_service.rs:530-726 | one delivery at a time, in any order and with any repetition, the strictly newest operation decides the row |
| Hints.InTurnConvergesExactly | crates/oceanfs-durability/src/healing_service.rs:530-726 | one delivery at a time, all orders agree if and only if one operation is newer than all others |
| Hints.InTurnTieDiverges | crates/oceanfs-durability/src/healing_service.rs:530-726 | two orders disagree whenever two operations tie for the largest timestamp |
| Hints.MetadataStore.ApplyHintObject | crates/oceanfs-durability/src/healing_service.rs:530-628 | discarded by a newer row or tombstone when checked, else stored over whatever others have written since; other keys are untouched |
| Hints.MetadataStore.ApplyHintDelete | crates/oceanfs-durability/src/healing_service.rs:664-726 | discarded by something newer when checked, else the row goes and its tombstone stays, whatever others have written since |
| Hints.MetadataStore.DeliverInTurn | crates/oceanfs-durability/src/healing_service.rs:530-726 | deliveries one after another leave the state of their replay |
| Hints.MetadataStore.Write | crates/oceanfs-storage/src/metadata/store.rs:712-880 | the store writes a row without its tombstone, or a tombstone without a row, checking nothing |
| Handoff.Pass | crates/oceanfs-durability/src/healing_service.rs:927-1150 | the first pass defers exactly the segment references for this node while the holder is reachable, and reports exactly the other hints that did not take effect |
| Handoff.AcceptedTookEffect | crates/oceanfs-durability/src/healing_service.rs:927-1150 | in the first pass a hint is accepted exactly if its effect took place, deferred exactly if it is a segment reference for a reachable local target |
| Handoff.JoinAll | crates/oceanfs-durability/src/healing_service.rs:1151-1240 | the counts after the deferred fetches, for every completion order and every panic |
| Handoff.HintedHandoff | crates/oceanfs-durability/src/healing_service.rs:887-1252 | without panics the indices sent back are exactly those of hints that did not take effect; exact totals for any panics; acknowledged exactly when all are settled |
| Remap.MoveKeepsBytes | crates/oceanfs-durability/src/healing_service.rs:746-816 | rewritten chunk references read the same bytes when the table is a faithful relocation |
| Remap.TableHolds | crates/oceanfs-durability/src/healing_service.rs:753-757 | the table holds a chunk exactly if an entry names it, with the new offset of the last such entry |
| Remap.RepointedIsRewritten | crates/oceanfs-durability/src/healing_service.rs:746-816 | a rewritten row keeps its attributes and its number of chunks; each chunk an entry names moves to where the last such entry says, the others stay |
| Remap.MoveDependsExactly | crates/oceanfs-durability/src/healing_service.rs:746-816 | which rewritten rows still depend on the old segment |
| Remap.RemapKeepsReads | crates/oceanfs-durability/src/healing_service.rs:1733-1779 | after the remap and the deletion, a row reads the same bytes if and only if the entries name every chunk it has in the old segment and the row was rewritten, or it has none there |
| Remap.IdempotentExactly | crates/oceanfs-durability/src/healing_service.rs:746-816 | reapplying is a no-op for all tables and rows if and only if the ids differ |
| Remap.Receiver.RepointObjects | crates/oceanfs-durability/src/healing_service.rs:746-816 | all announced affected rows that can be read are rewritten as the entries say in one batch, or none; when which |
| Remap.Receiver.AnnounceRemap | crates/oceanfs-durability/src/healing_service.rs:1667-1791 | when a remap is applied, exactly what rows, aliases, holders and segments become in terms of its entries, and which rows still read the same bytes |
| Holders.CountIsCardinality | crates/oceanfs-durability/src/reconcile.rs:152-162 | the live-copy count is the number of live holders if and only if no live holder is listed twice |
| Holders.HolderIndex.Record | crates/oceanfs-durability/src/reconcile.rs:220-245 | replaces one segment's holders in both maps and leaves no empty bucket |
| Holders.HolderIndex.SegmentsHeldBy | crates/oceanfs-durability/src/reconcile.rs:248-250 | returns exactly the segments whose last recorded holders include the node |
| Holders.RecordAll | crates/oceanfs-durability/src/reconcile.rs:212-250 | the same after any sequence of records |
| ReconcileQueue.PopTakesMostUrgent | crates/oceanfs-durability/src/reconcile.rs:276-299 | nothing left in the queue has fewer live copies than anything popped, or as many and a larger id |
| ReconcileQueue.PopInOrder | crates/oceanfs-durability/src/reconcile.rs:276-299 | items are popped in that order |
| ReconcileQueue.StepKeepsInv | crates/oceanfs-durability/src/reconcile.rs:546-559 | every step of the loop or of an enqueuing task keeps the queue, pacing and rate invariants |
| ReconcileQueue.QueueGuarantees | crates/oceanfs-durability/src/reconcile.rs:732-848 | in every run: each pending segment once, within the bound; requests spaced by the retry window, for segments below the factor, at most a batch per tick |
| ReconcileQueue.ShortIsRequested | crates/oceanfs-durability/src/reconcile.rs:757-838 | in every run, a segment popped and found short of copies has, once its tick's repairs are sent, a request of that tick or of one within the retry window before it |
| ReconcileQueue.QueueConserves | crates/oceanfs-durability/src/reconcile.rs:546-559 | the queue changes by what was accepted less what vanished or healed |
| Starvation.Starves | crates/oceanfs-durability/src/reconcile.rs:837-837 | in every run, while a batch's worth of put-back segments stay short, no segment queued with a live copy is popped or repaired |
| Starvation.PopTakesZeros | crates/oceanfs-durability/src/reconcile.rs:276-299 | with enough items queued without a live copy, only such items are popped |
| ReconcileLoop.BatchGuarantees | crates/oceanfs-durability/src/reconcile.rs:732-848 | a tick removes exactly the popped segments that vanished or healed and requests repairs only for the short ones |
| ReconcileLoop.BatchRequestsExactly | crates/oceanfs-durability/src/reconcile.rs:757-838 | a tick requests the repair of a popped segment if and only if it is short of copies and was not requested within the retry window |
| ReconcileLoop.BatchKeepsInv | crates/oceanfs-durability/src/reconcile.rs:732-848 | a whole tick keeps the queue invariant |
| ReconcileLoop.EnqueueAllAccounts | crates/oceanfs-durability/src/reconcile.rs:546-559 | every segment of a scan is queued or counted as overflow, and only a full queue overflows |
| ReconcileLoop.ReconciliationLoop.EnqueueWithLive | crates/oceanfs-durability/src/reconcile.rs:546-559 | queues a segment exactly if it is not queued and there is room; a refusal for lack of room is counted and changes nothing else |
| ReconcileLoop.ReconciliationLoop.PopBatch | crates/oceanfs-durability/src/reconcile.rs:734-744 | the popping loop takes the most urgent items |
| ReconcileLoop.ReconciliationLoop.DecideOne | crates/oceanfs-durability/src/reconcile.rs:757-790 | an item leaves the queue exactly if its segment vanished or has enough live copies, goes back exactly if short and within the retry window, and is else marked for repair in this tick |
| ReconcileLoop.ReconciliationLoop.DecideBatch | crates/oceanfs-durability/src/reconcile.rs:757-790 | the decision loop is the model's decisions in order |
| ReconcileLoop.ReconciliationLoop.DispatchBatch | crates/oceanfs-durability/src/reconcile.rs:796-839 | one request per marked segment in order, each put back as if it had no live copy |
| ReconcileLoop.ReconciliationLoop.ProcessBatch | crates/oceanfs-durability/src/reconcile.rs:732-848 | an undisturbed tick is the model's tick |
| ReconcileLoop.ReconciliationLoop.DriftScan | crates/oceanfs-durability/src/reconcile.rs:687-719 | every under-replicated segment is queued with its live-copy count or counted as overflow, nothing else enters or leaves |
| ReconcileLoop.ReconciliationLoop.OnEvent | crates/oceanfs-durability/src/reconcile.rs:641-679 | exactly the segments indexed for a lost node are woken, each queued with its live-copy count or counted; other events change nothing |
| Membership.TakeSnapshot | crates/oceanfs-durability/src/reconcile.rs:588-617 | a node counts as a live holder exactly when it is present and not known to lack a healthy data pool |
| Membership.CountsExactly | crates/oceanfs-durability/src/reconcile.rs:580-617 | a member counts exactly if it is alive or suspect and has a healthy data pool, as far as its manifest lists any |
| Membership.WakesExactly | crates/oceanfs-durability/src/reconcile.rs:641-670 | an event wakes segments exactly if it shows the node dead, left or leaving, or all its data pools, at least one, dead |
| Membership.WakeGapExactly | crates/oceanfs-durability/src/reconcile.rs:580-670 | which members stop counting without any event waking their segments, for any pool statuses |
| ReconcileLoop.BuildIndex | crates/oceanfs-durability/src/reconcile.rs:852-860 | the rebuilt index shows the registry's holders for every registered segment |
| Transfer.CutIntoChunks | crates/oceanfs-durability/src/healing_service.rs:1389-1398 | nonempty chunks, all but the last full, that join to the data |
| Transfer.Reassemble | crates/oceanfs-durability/src/repair.rs:590-634 | the bytes before the end of the stream, or nothing when it breaks or is empty |
| Transfer.TransferYields | crates/oceanfs-durability/src/repair.rs:590-634 | a transfer cut off anywhere yields the segment if and only if nothing was cut off |
| Transfer.SendAndReceive | crates/oceanfs-durability/src/healing_service.rs:1371-1405 | chunking and reassembly undo each other for every chunk size |
| Transfer.FetchFromHolders | crates/oceanfs-durability/src/repair.rs:528-664 | of the holders other than this node, the first to yield bytes wins; nothing is served only if none yields any |
| Transfer.ServedIsPrefix | crates/oceanfs-durability/src/repair.rs:590-664 | if all holders send one segment, what is served is a nonempty run of its first chunks |
| Transfer.ServedByOne | crates/oceanfs-durability/src/repair.rs:640-664 | bytes are served exactly when some attempt yields any, and are the bytes of the first that does |
| Transfer.StampLocations | crates/oceanfs-durability/src/repair.rs:498-509 | holders and self, each once, so that the live-copy count is a set cardinality |
| Repair.RepairTarget.Install | crates/oceanfs-durability/src/repair.rs:436-521 | the state every failure of reserve, write, seal or stamp leaves |
| Repair.RepairTarget.ExecuteRepair | crates/oceanfs-durability/src/repair.rs:387-521 | nothing is stored before verification and reservation; success exactly when a complete copy results |
| Repair.RepairTarget.RepairFromCopies | crates/oceanfs-durability/src/repair.rs:387-664 | a success stores a nonempty run of the holder's first chunks, and the whole segment when its root is given and no shorter run shares it |
| Repair.RepairTarget.ProcessRequest | crates/oceanfs-durability/src/repair.rs:294-367 | at most the retry limit plus one runs; a complete copy, and a reported success, exactly under conditions on the runs' outcomes alone |
| RepairRaces.RunKeeps | crates/oceanfs-durability/src/repair.rs:294-521 | what every interleaving of concurrent attempts keeps |
| RepairRaces.OnlyVerifiedStored | crates/oceanfs-durability/src/repair.rs:418-434 | in every run, stored bytes were accepted by some request |
| RepairRaces.RunLocated | crates/oceanfs-durability/src/repair.rs:498-521 | in every run, a sealed segment's locations are empty or the stamping request's holders and this node, each once |
| RepairRaces.SealLasts | crates/oceanfs-durability/src/repair.rs:436-496 | in every run, only a clean-up unseals a segment, and no attempt takes up writing while it is sealed |
| RepairRaces.ConsistentExactly | crates/oceanfs-durability/src/repair.rs:387-521 | a sealed copy matches its root in every run if and only if no two requests accept different hashes |
| RepairRaces.RootsDecide | crates/oceanfs-durability/src/repair.rs:427-434 | the requests agree if and only if there is at most one or all carry one root |
| RepairRaces.StoredStandsExactly | crates/oceanfs-durability/src/repair.rs:454-496 | the success of attempts that stored the segment or found it sealed lasts in every run if and only if no two requests can both be served |
| RepairRaces.DeliversExactly | crates/oceanfs-durability/src/repair.rs:325-401 | any reported success means a sealed segment at the end of every run if and only if no request that can be served has another beside it |
| RepairRaces.SuccessNeedsOneRequest | crates/oceanfs-durability/src/repair.rs:325-401 | with a hash that tells bytes apart and attained roots, both hold if and only if there is at most one request |
| Bloom.BloomFilter.Insert | crates/oceanfs-cache/src/l3_negative.rs:112-118 | sets exactly the probed bits, in place |
| Bloom.BloomFilter.Contains | crates/oceanfs-cache/src/l3_negative.rs:99-109 | true exactly when all probed bits are set |
| Bloom.HashIndex | crates/oceanfs-cache/src/l3_negative.rs:343-346 | every probe is within the filter |
| Bloom.ProbesExactly | crates/oceanfs-cache/src/l3_negative.rs:343-346 | the probed bits are exactly h1 + i * h2 in 64-bit arithmetic, reduced to the filter, for i below the number of hashes |
| NegativeCache.AnswersExplained | crates/oceanfs-cache/src/l3_negative.rs:193-273 | in every run, "absent" exactly when inserted keys since the last reset cover the bits and the overlay lacks the key; the overlay keeps its bound |
| NegativeCache.InsertedExactly | crates/oceanfs-cache/src/l3_negative.rs:222-273 | the keys taken as inserted are exactly those inserted after the last overflow |
| NegativeCache.QuietWithin | crates/oceanfs-cache/src/l3_negative.rs:252-273 | no overflow without a bound, or while the keys invalidated are no more than the bound |
| NegativeCache.OverflowsExactly | crates/oceanfs-cache/src/l3_negative.rs:252-273 | invalidations alone overflow the overlay if and only if they are for more keys than a nonzero bound |
| NegativeCache.InsertedIsReported | crates/oceanfs-cache/src/l3_negative.rs:222-243 | an inserted key is reported until it is invalidated or the overlay overflows |
| NegativeCache.InvalidatedReportedExactly | crates/oceanfs-cache/src/l3_negative.rs:252-273 | exactly when an invalidated key is reported although it was not inserted again |
| NegativeCache.StaleAnswer | crates/oceanfs-cache/src/l3_negative.rs:245-251 | a run in which a written key is answered "absent" |
| NegativeCache.Cache.Contains | crates/oceanfs-cache/src/l3_negative.rs:193-219 | answers from overlay and filter, changing no bucket's contents |
| NegativeCache.Cache.Insert | crates/oceanfs-cache/src/l3_negative.rs:222-243 | sets the bits, clears the overlay entry, touches no other bucket |
| NegativeCache.Cache.Invalidate | crates/oceanfs-cache/src/l3_negative.rs:252-273 | records the key, or resets the bucket when the overlay would exceed its bound |
| NegativeCache.Answer | crates/oceanfs-cache/src/l3_negative.rs:193-273 | after calls on any buckets, an answer depends on its own bucket's operations only |
| ObjectCache.Cache.Get | crates/oceanfs-cache/src/l1_object.rs:230-267 | a hit exactly for stored entries not older than the expiry time; an expired entry goes and nothing else; gauges stay exact |
| ObjectCache.Cache.Put | crates/oceanfs-cache/src/l1_object.rs:274-326 | an accepted blob is stored, keeping the age of one it replaces; victims go only for a new key, as many as eviction takes; refuses others without effect; gauges stay exact |
| ObjectCache.Cache.Invalidate | crates/oceanfs-cache/src/l1_object.rs:332-342 | removes one entry; gauges stay exact |
| ObjectCache.Cache.ClearBucket | crates/oceanfs-cache/src/l1_object.rs:395-409 | removes a bucket; gauges stay exact |
| ObjectCache.Cache.EvictForSpace | crates/oceanfs-cache/src/l1_object.rs:416-445 | removes exactly the first n victims: the bucket lacked room before each of them, and n is reached when it has room, no victim is named or a hundred were tried; gauges stay exact |
| ObjectCache.Cache.Drop | crates/oceanfs-core/src/metrics.rs:180-215 | the saturating subtraction subtracts the whole length |
| ObjectCache.TakenExactly | crates/oceanfs-cache/src/l1_object.rs:290-295 | the last accepted blob is the last put exactly when that one was not refused |
| ObjectCache.Serve | crates/oceanfs-cache/src/l1_object.rs:230-409 | after any calls, a hit is the last accepted blob since the key was invalidated or its bucket cleared |
| ObjectCache.ServesOlder | crates/oceanfs-cache/src/l1_object.rs:290-295 | a refused blob leaves the older one being served |

## Left out

- GF_LOG: the logarithm literal of arm_sve.rs is modelled as the table its loop twin builds, not transcribed; the GF_EXP literal is checked entry by entry.
- SIMD intrinsics and the ISA-L library: vector code is modelled as chunked loops with table lookups, `ec_encode_data` by its documented formula.
- Codec.Decode: requires surviving shards of equal length and k of at least 1, because the source reads every shard at the length of the first survivor; the precomputed matrices of cauchy.rs for common shapes are taken to equal the computed ones.
- Encoders: the errors for a wrong number or unequal lengths of data shards.
- The SVE-without-SVE2 paths: they delegate to the sixteen-lane kernels.
- Hints: failures to read the metadata store; the object payload is one value; a failed write is a delivery that will come again.
- Handoff: the contents of hints; each is reduced to its kind, its target and whether its effect succeeds.
- Remap: how readers use the recorded alias; writes to an announced row between its read and the batch, which carries no version check.
- ReconcileLoop.ReconciliationLoop.ProcessBatch: is stated for a tick without interference; interleaved enqueues are covered by the step lemmas of ReconcileQueue.
- ReconcileLoop.ReconciliationLoop.DriftScan: does not include the index rebuild it starts with, which is ReconcileLoop.BuildIndex.
- Repair: a nonzero delete grace (a deleted entry disappears at once, as by default); the Merkle tree behind the root is any hash of the bytes; permits and connection pooling are omitted.
- RepairRaces: a retry is one more attempt of the same list; a failed write leaves either the old or the new file, as the atomic rename of the store does.
- Bloom: hash values are arbitrary; false-positive rates and the choice of the number of probes are not modelled.
- NegativeCache: calls that overlap; `rebuild`, which loads live keys into the filter of absent ones; hit counters.
- ObjectCache: `set_bucket_config`, which drops entries without adjusting the gauges; per-bucket configurations; concurrent calls.
- ObjectCache.Cache.EvictForSpace: does not claim that the size limit holds afterwards, because the source gives up after a hundred victims and stores anyway.
