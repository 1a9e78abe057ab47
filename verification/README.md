# A verified model of foxing

foxing replicates file systems: a daemon (`foxingd`) orders kernel events and keeps an inode-to-path map, and a
copy library (`fxcp-core`) moves the bytes, finds what changed and packs snapshots into FXAR archives. This project
models the algorithms and protocols in it and proves what they promise. `dafny verify dfyconfig.toml` checks it.

| files | component |
|---|---|
| `Chunker`, `GearCuts` | content-defined chunking with a gear hash, and where it cuts in terms of the bytes |
| `LittleEndian`, `FxarFormat`, `FxarLayout`, `FxarWriter`, `FxarReader`, `FxarRoundTrip`, `FxarManifest` | the FXAR v2 archive: records, dedup tables, layout, both readers, and what any archive is believed |
| `PipelinedRestore` | the producer and the file consumers of a parallel restore |
| `BufferPool`, `CopyEngine`, `CopyOutcome`, `CopyRuns`, `AtomicWrites`, `Sparse` | the io_uring copy engine over its buffer pool: its steps, what they add up to, its loop, its atomic writes; and sparse copies through it |
| `Merkle`, `MerkleDelta`, `DeltaCopy`, `DeltaSync` | Merkle trees, dirty ranges, and the delta copy through sparse mapping and engine |
| `MerkleSignature`, `Hydration`, `HydrationHistory` | stored signatures, adaptive chunk sizes, hydration by signature, once and over a target's history |
| `Reorder`, `ReorderBuffer`, `ReorderOrder`, `ReorderRuns`, `ReorderLosses`, `ReorderMarkers`, `ReorderLedger` | ingress ordering: the step functions, the object, the order in which events leave, whole runs, lost events, overflow markers, the byte counter |
| `Columnar`, `MergeRule`, `Coalescing`, `EventBatch`, `Coalescer`, `CoalescerRules` | write coalescing: its meaning, which rows are merged, the bytes it can change, the five-column batch, the counter, the flush rule and the frontier |
| `Projector`, `Namespace`, `RenameLimits` | the identity map as a picture of the namespace |
| `DeferredRename`, `LateCreate`, `LateHistory` | creations reported late |
| `Pruning` | directory pruning in a full scan |
| `Bytes` | byte strings, digests, paths, concatenation |

**How to read it.** Objects that the program updates in place are classes (`ReorderBuffer.Buffer`, `EventBatch.Batch`,
`Coalescer.Writer`, `Projector.IdentityProjector`, `BufferPool.Pool`); each method is proved equal to a function on the
object's value, and the theorems over runs are about those functions. Protocols whose order the kernel or the scheduler
chooses (`CopyEngine`, `PipelinedRestore`) are step relations, and theorems quantify over every sequence of steps.

**What stands for what.** BLAKE3 is any function to 32 bytes; where a theorem needs it, it is collision-free on the
inputs that the theorem names, no more. JSON and the codecs are inverse pairs. Clocks, read sizes, completion orders,
map iteration orders and sparse layouts are parameters.

**Where the code does less than one would expect**, the condition is stated exactly and proved both ways:

- An archive is readable exactly when its setting is not an `xz…` one and a zstd manifest is at most 16 MiB of JSON
  (`FxarRoundTrip.SeekableRoundTrip`).
- A parallel restore of at least one file ends exactly when the archive has a chunk (`PipelinedRestore.EndsIffSomeChunk`).
- The copy engine's Ok return has everything processed and nothing leaked exactly when no completion was short or
  interrupted, and then the range is copied (`CopyOutcome.CompleteIffFull`, `FullRunCopies`).
- A sparse copy of a range is exact exactly when the destination was zero in every hole below 16 KiB and reaches, or is
  extended by a written block, to the end of the range (`Sparse.SparseCopyExact`). A full copy into a preallocated file
  is the source; without preallocation it is exactly when the source is empty or its last byte is in a written block
  (`Sparse.FullCopyIff`).
- A delta copy gives the source exactly when the target was zero in the small holes of the dirty ranges, was not shorter
  unless the source's last byte is written, was not longer, and was not the list of the source's leaf hashes
  (`DeltaCopy.DeltaIsFullCopy`, `DeltaSync.TryDeltaCopy`). It needs equal chunk sizes: any two different ones can go
  wrong (`DeltaSync.MixedChunkSizes`), though hydration's rule of half the bytes keeps it from patching then
  (`Hydration.HydrationIsSync`). It needs chunk lengths below 2^32: beyond that every source has a target of its own
  length that comes out wrong (`DeltaSync.WideIsWrong`).
- An atomic write that the engine submits is a power of two within the limits and aligned, unless a read came up short
  (`AtomicWrites.AtomicWriteIs`, `ShortReadIsWrittenAtomically`).
- Equal Merkle roots mean equal files, or a one-chunk file that is the list of the other's leaf hashes
  (`Merkle.RootsEqualIff`).
- A hydrated target becomes the source exactly when it suits the way it is hydrated, and what is stored with it stays
  true exactly when besides no file of at most 1 MiB replaces a target with a signature (`HydrationHistory.SyncedIff`,
  `TruthfulIff`, over whole histories `HistoryIff`). A large file, a small one and the large one again end with the small
  one on the target (`HydrationHistory.StaleSignature`).
- After a patch the stored signature is truthful exactly when the target is the source (`Hydration.NewSignatureIff`); the
  next run leaves the target alone either way (`Hydration.PatchIsFinal`).
- A jump never declares a held event missing (`Reorder.NothingToSalvage`), but the marker of an overflow does exactly
  when an event below the rejected number is held (`ReorderMarkers.OverflowDeniesIff`).
- An event reported as accepted is lost exactly when a marker held its number (`ReorderLosses.LostIffMarker`), and the
  byte counter is exact exactly when no marker debt is open (`ReorderLedger.CounterIsExactIff`).
- Coalescing writes that copy from the source can change a byte exactly when a merged write over it passes another kind
  of event of its inode and no write over it is left behind that event (`Coalescing.CopyingIff`).
- A file whose creation is reported last is in the map, with the right path, exactly when the directory it was created in
  still exists (`LateHistory.LateCreationIff`).
- File renames keep the identity map right exactly when the new name is free or the old one; directory renames exactly
  when the new name is free and nothing is below the directory, or it is the old one (`RenameLimits`).
- A tree comes back from its signature exactly when its chunk size is not zero, and is below 2^32 or gives at most one leaf
  (`MerkleSignature.SignatureRoundTrip`).

Shown one way: random access to a piped archive fails unless ten thousand million bytes from the middle of its header
on happen to be a manifest (`FxarRoundTrip.StreamedIsNotSeekable`), and what a short read or an interrupted punch leads
to (`CopyRuns.ShortReadIsOk`, `InterruptedPunchIsOk`).

The comment in `fxar.rs` calls the footer checksum an XOR; the code adds the words, and so does the model.
A comment in `diff` leaves shrinking a file to a truncate that `copy_delta` does not perform; the model follows the
code.

## Model

| member | source | states |
|---|---|---|
| Chunker.FindBoundaries | fxcp-core/src/chunker.rs:76-98 | the single pass finds exactly the boundaries of the recursive definition: cut where the hash of the current chunk stops it |
| Chunker.ChunkSlice | fxcp-core/src/chunker.rs:101-118 | the chunks are those between the boundaries of the gear chunker, which GearCuts.ChunksIff describes by the bytes alone |
| Chunker.ChunkReader | fxcp-core/src/chunker.rs:47-73 | however the reader splits its input, the chunks are those of the whole input |
| Chunker.ChunksPartition | fxcp-core/src/chunker.rs:76-118 | for every input the chunks concatenate to it; each has at most max bytes and each but the last at least min |
| Chunker.BoundariesIncrease | fxcp-core/src/chunker.rs:76-98 | boundaries increase strictly and end at the input length |
| Chunker.HashSeesTail | fxcp-core/src/chunker.rs:82-84 | modulo 2^k the wrapping 64-bit hash of any chunk is the hash of its last k bytes |
| GearCuts.HashIsSum | fxcp-core/src/chunker.rs:82-84 | the running hash of a chunk is the sum of its table entries weighted by powers of two, modulo 2^64 |
| GearCuts.ChunksIff | fxcp-core/src/chunker.rs:76-118 | for an average of 2^k, of all ways to split the data the chunks are the only one in which each piece but the last has min bytes and either max bytes or a weighted sum divisible by 2^k, and no piece has a proper prefix like that |
| GearCuts.DefaultChunksIff | fxcp-core/src/chunker.rs:30-38 | the same for the program's parameters of 2 KiB, 64 KiB and 2 MiB |
| Chunker.CutIsLocal | fxcp-core/src/chunker.rs:77-90 | with avg = 2^k and min >= k the cut test depends on the last k bytes only |
| Chunker.ChunksRestart | fxcp-core/src/chunker.rs:86-90 | chunking restarts at every boundary as on fresh input |
| Chunker.Resynchronise | fxcp-core/src/chunker.rs:76-98 | two inputs with a common suffix in which a window hits, with no boundary shortly before it, have identical chunks from there on |
| Chunker.CommonSuffix | fxcp-core/src/chunker.rs:76-98 | a boundary at the start of a common suffix fixes all later chunks |
| FxarFormat.HeaderRoundTrip | fxcp-core/src/fxar.rs:75-112 | a header is read back from its 64 bytes |
| FxarFormat.EntryRoundTrip | fxcp-core/src/fxar.rs:128-150 | an index entry is read back from its 48 bytes |
| FxarFormat.IndexRoundTrip | fxcp-core/src/fxar.rs:599-608 | a whole chunk index is read back |
| FxarFormat.FooterRoundTrip | fxcp-core/src/fxar.rs:166-207 | a footer is read back from its 32 bytes, with the checksum of its fields |
| FxarLayout.EncodedByte | fxcp-core/src/fxar.rs:75-88 | byte i of a number is its i-th digit to the base 256, the lowest first |
| FxarLayout.HeaderLayout | fxcp-core/src/fxar.rs:75-88 | the order and width of the header fields behind the magic |
| FxarLayout.EntryLayout | fxcp-core/src/fxar.rs:128-134 | the order and width of the fields of an index entry |
| FxarLayout.FooterLayout | fxcp-core/src/fxar.rs:166-190 | the order and width of the footer fields, and the sum of 32-bit words behind them |
| FxarFormat.CompressRoundTrip | fxcp-core/src/fxar.rs:1156-1211 | a blob is read back under its setting's flag if and only if the setting is not an xz one and a zstd blob is within the reader's limit |
| FxarWriter.GearEnvIsLawful | fxcp-core/src/fxar.rs:312-333 | the default chunker satisfies what the archive theorems ask of a chunker |
| FxarWriter.UniqueRepresents | fxcp-core/src/fxar.rs:377-395 | dedup keeps exactly one piece for every hash and nothing else |
| FxarWriter.UniqueGrows | fxcp-core/src/fxar.rs:377-395 | more files only append to the table, so numbers handed out stay valid |
| FxarWriter.AddFile | fxcp-core/src/fxar.rs:376-395 | one file's chunk numbers lead to its pieces, old or new |
| FxarWriter.BuildDedupTables | fxcp-core/src/fxar.rs:363-411 | rows refer to their files' pieces in the index of unique pieces, and blobs follow the index |
| FxarWriter.AssignOffsets | fxcp-core/src/fxar.rs:455-460 | blobs get consecutive offsets from the data start |
| FxarWriter.EmitArchive | fxcp-core/src/fxar.rs:414-488 | the writer's output, its header and its byte count are those of the layout |
| FxarWriter.WriteSeekable | fxcp-core/src/fxar.rs:539-549 | the header is overwritten with the real offsets, nothing else changes |
| FxarWriter.Export | fxcp-core/src/fxar.rs:522-556 | chunk, hash, deduplicate and write: the archive of the files, whose rows FxarManifest.ExportTells describes by the files |
| FxarReader.Assemble | fxcp-core/src/fxar.rs:638-643 | the chunk loop concatenates the chunks fetched by number, or fails with the first failure |
| FxarReader.RestoreFile | fxcp-core/src/fxar.rs:630-656 | manifest, index, row, chunks and whole-file hash, each with its error |
| FxarReader.LoadChunks | fxcp-core/src/fxar.rs:876-892 | streaming reads the chunks one behind the other, whatever the stored offsets |
| FxarRoundTrip.SeekableRoundTrip | fxcp-core/src/fxar.rs:522-656 | restoring any file of a seekable archive gives its bytes if and only if the manifest is readable, else fails |
| FxarRoundTrip.StreamRoundTrip | fxcp-core/src/fxar.rs:843-944 | streaming rebuilds every file from any archive with this body, if and only if the manifest is readable |
| FxarRoundTrip.BothArchivesStream | fxcp-core/src/fxar.rs:491-556 | piped and seekable archives stream back to the same files |
| FxarRoundTrip.ReadersAgree | fxcp-core/src/fxar.rs:610-656 | the reader by offsets and the reader by order agree on every path |
| FxarRoundTrip.StreamedIsNotSeekable | fxcp-core/src/fxar.rs:569-597 | random access on a piped archive takes the magic for a length: it fails on every archive shorter than that, and on a longer one with the error of the bytes there taken for a manifest, or goes by what they say |
| FxarManifest.ExportTells | fxcp-core/src/fxar.rs:340-411 | row i of every export has the path, length, mode, mtime, owner and hash of file i, and numbers that lead to its chunks; entry k has the length of chunk k modulo 2^32 |
| FxarManifest.ListedTells | fxcp-core/src/fxar.rs:830-835 | the rows read back from the bytes of a seekable archive are those of its files, if and only if the manifest is readable |
| FxarManifest.HeaderTells | fxcp-core/src/fxar.rs:414-488 | the header read back: version, setting, chunk limits, and the offsets and sizes of manifest and index |
| FxarManifest.FooterTells | fxcp-core/src/fxar.rs:470-488 | the last 32 bytes of a piped archive say where manifest and index are |
| FxarManifest.IndexTells | fxcp-core/src/fxar.rs:455-469 | every index entry leads to its blob in the archive's bytes |
| FxarManifest.RestoredIsVouched | fxcp-core/src/fxar.rs:610-656 | of any archive, damaged or not: what a restore returns has the hash of the first row with the path, and its pieces those of the index entries |
| FxarManifest.NotFoundIff | fxcp-core/src/fxar.rs:630-637 | an archive that opens has no such file if and only if no row has the path |
| FxarManifest.ImportedIsVouched | fxcp-core/src/fxar.rs:843-944 | of any archive: an import writes the rows in order, and no bytes that do not have the row's hash |
| PipelinedRestore.StepKeepsInv | fxcp-core/src/fxar.rs:720-774 | every step of producer and consumers keeps: a published chunk is stored, a consumer has a prefix of its file |
| PipelinedRestore.RestoreIsSafe | fxcp-core/src/fxar.rs:753-783 | in every interleaving the missing-chunk branch is never taken; a file that ends is the concatenation of its chunks if that has the manifest's hash, and is skipped if it has not |
| PipelinedRestore.StepUsesWork | fxcp-core/src/fxar.rs:720-774 | every step but spinning uses up work |
| PipelinedRestore.NeverStuck | fxcp-core/src/fxar.rs:757-761 | with at least one chunk some step other than spinning is always possible |
| PipelinedRestore.WaitsEnd | fxcp-core/src/fxar.rs:757-761 | in every run, once all of at least one chunk are loaded no consumer spins |
| PipelinedRestore.OnlySpinningIffDone | fxcp-core/src/fxar.rs:720-774 | with at least one chunk, a run can go on by spinning only, or not at all, if and only if all chunks are loaded and all files have ended |
| PipelinedRestore.RunIsBounded | fxcp-core/src/fxar.rs:720-774 | in every interleaving the steps other than spinning are at most the work there was at the start |
| PipelinedRestore.CanFinish | fxcp-core/src/fxar.rs:720-774 | every reachable state can be driven to the end |
| PipelinedRestore.EndsIffSomeChunk | fxcp-core/src/fxar.rs:698-761 | a restore can end if and only if there is a chunk or no file |
| PipelinedRestore.ArchivePlan | fxcp-core/src/fxar.rs:663-728 | from the bytes of a seekable archive the restore reads the manifest, the index and the compressed chunks by their offsets, and decodes the original chunks, if and only if the manifest is readable |
| PipelinedRestore.ParallelRoundTrip | fxcp-core/src/fxar.rs:663-783 | restoring a seekable archive in parallel: no chunk missing, no file skipped, every file that ends has its original bytes, and all can end if and only if there is a chunk or no file; an unreadable manifest fails at once |
| BufferPool.Pool.Acquire | fxcp-core/src/buffer.rs:268-276 | an index never handed out twice, from the end of a stack or the front of a queue; nothing comes only when all are out |
| BufferPool.Pool.Release | fxcp-core/src/buffer.rs:278-293 | the new free list and lengths; every index stays free or handed out exactly once if and only if the index was handed out, does not exist, or a full queue refuses it |
| BufferPool.Pool.FreeCount | fxcp-core/src/buffer.rs:295-300 | the count is the capacity less what is handed out |
| CopyEngine.StepKeepsInv | fxcp-core/src/operations.rs:1971-2377 | every submission, completion in any order and reaped completion keeps the engine's invariant |
| CopyEngine.RunKeepsInv | fxcp-core/src/operations.rs:1971-2377 | so does every run |
| CopyEngine.RunKeepsLimit | fxcp-core/src/operations.rs:2003-2124 | in every run at most the limit of operations is in flight, one more for linked pairs |
| AtomicWrites.AtomicWriteIs | fxcp-core/src/operations.rs:1618-1644 | in every run a submitted atomic write covers its block, an aligned power of two within the limits, unless a read came up short |
| AtomicWrites.ShortReadIsWrittenAtomically | fxcp-core/src/operations.rs:2335-2353 | for every call with a first block of more than three bytes, a read of three is followed by an atomic write of three |
| CopyEngine.PoolIsSound | fxcp-core/src/buffer.rs:268-293 | the engine's free list is that of a sound pool which has handed out exactly the buffers of busy slots and the leaked ones |
| CopyEngine.ReapBalances | fxcp-core/src/operations.rs:2203-2375 | handling one completion balances in-flight operations and bytes due |
| CopyOutcome.FinishedIsIdle | fxcp-core/src/operations.rs:1971-2386 | an Ok return has no slot in use, every unleaked buffer free exactly once, and processed plus missed bytes equal to the total |
| CopyOutcome.CleanStep | fxcp-core/src/operations.rs:2135-2376 | a step leaves no trace of a short or interrupted completion if and only if there was none and the step is none |
| CopyOutcome.CompleteIffFull | fxcp-core/src/operations.rs:1971-2386 | at an Ok return everything is processed and nothing leaked if and only if no completion of the run was short or interrupted |
| CopyOutcome.WrittenEndIsLast | fxcp-core/src/operations.rs:2291-2362 | how far a copy extends a file: to the end of the last block that is written and not punched |
| CopyOutcome.FullRunCopies | fxcp-core/src/operations.rs:1911-2386 | for every order of full completions, refused atomic writes retried: all bytes processed, every buffer free exactly once, and the destination, of whatever length, holds the range and is extended as far as blocks are written |
| CopyRuns.ProcessSegment | fxcp-core/src/operations.rs:1971-2386 | the loop under any schedule: an Ok return has all processed and nothing leaked if and only if no completion was short or interrupted, and then the file is the expected one |
| CopyRuns.ShortReadIsOk | fxcp-core/src/operations.rs:2203-2211 | for every short linked read there is a run that returns Ok having copied nothing |
| CopyRuns.InterruptedPunchIsOk | fxcp-core/src/operations.rs:2250-2263 | for every zero block there is a run with an interrupted punch that returns Ok with all bytes counted, none written and a buffer leaked |
| CopyRuns.StepUsesWork | fxcp-core/src/operations.rs:1971-2377 | every step uses up work, so no run goes on for ever |
| CopyRuns.NeverStuck | fxcp-core/src/operations.rs:2003-2124 | until the end some full step is possible while one buffer has not leaked |
| CopyRuns.CanFinish | fxcp-core/src/operations.rs:1971-2377 | every run can be driven to the end of the loop while one buffer is usable |
| Sparse.SeekData | fxcp-core/src/operations.rs:1658-1672 | the next data byte, everything before it being a hole |
| Sparse.SeekHole | fxcp-core/src/operations.rs:1692-1697 | the next hole byte, everything before it being data, the end of the file counting as a hole |
| Sparse.MapSparseSegments | fxcp-core/src/operations.rs:1646-1710 | the loop yields the segments, and its guard against empty ones never fires |
| Sparse.SegmentsTile | fxcp-core/src/operations.rs:1646-1710 | the segments tile the range in order without overlap; data segments hold data bytes only, hole segments none |
| Sparse.SmallHoleIff | fxcp-core/src/operations.rs:1752-1754 | a byte is in a hole that is left alone if and only if the hole around it, as far as it goes in the range, is under 16 KiB |
| Sparse.CopyAllAt | fxcp-core/src/operations.rs:1750-1803 | byte by byte, for a destination of any length: what comes from the source, what stays, what is zero, and the new length |
| Sparse.SparseCopyExact | fxcp-core/src/operations.rs:1750-1803 | a range copied into a file of any length is exact if and only if the file was zero in every small hole, and reached to the end of the range or is extended there by a written block |
| Sparse.FullCopyIff | fxcp-core/src/operations.rs:1216-1260 | a full copy into a preallocated file is the source; without preallocation it is if and only if the source is empty or its last byte is in a written block |
| Sparse.SparseCopy | fxcp-core/src/operations.rs:1743-1803 | mapping, engine and punches together: every engine call goes through if and only if its schedule completes it, and then the file is that of the segment copy |
| Sparse.CopyWhole | fxcp-core/src/operations.rs:1437-1548 | the full copy through the engine into a prepared destination, whole if and only if the schedules complete it |
| Sparse.SomeSchedulesComplete | fxcp-core/src/operations.rs:1743-1803 | for every range there are schedules that complete all its engine calls |
| Merkle.FromFile | fxcp-core/src/hashing.rs:220-251 | for every pattern of short reads the tree is that of the fixed-size chunks |
| Merkle.ComputeRoot | fxcp-core/src/hashing.rs:254-266 | the root hashes all leaf hashes, with its cases for none and one |
| Merkle.ChunkOfByte | fxcp-core/src/hashing.rs:227-246 | every byte lies in a chunk, at a multiple of the chunk size |
| Merkle.RootsEqualIff | fxcp-core/src/hashing.rs:254-266 | roots are equal if and only if the files are, or one is a single chunk made of the other's leaf hashes; never the latter with equal leaf counts |
| Merkle.ZeroChunkSize | fxcp-core/src/hashing.rs:375-378 | under a chunk size of zero, which the reader of stored signatures turns away, all files would have the same root |
| Merkle.VerifyWithMerkle | fxcp-core/src/hashing.rs:375-378 | against a truthful signature the check succeeds if and only if the files are equal or one is a single chunk made of the other's leaf hashes; with equal leaf counts if and only if they are equal |
| MerkleDelta.Diff | fxcp-core/src/hashing.rs:270-313 | the loop computes the ranges of the scan |
| MerkleDelta.DiffCovers | fxcp-core/src/hashing.rs:270-313 | the ranges are sorted, disjoint and never touch, and cover a byte if and only if it is in a dirty chunk |
| MerkleDelta.DiffIsRuns | fxcp-core/src/hashing.rs:270-313 | for any tree, cut-off lengths included, every range spans a run of dirty chunks |
| DeltaCopy.CopyDelta | fxcp-core/src/operations.rs:2417-2443 | every range goes through mapping and engine: all go through if and only if the schedules complete them, and then the file is that of the range copies |
| DeltaCopy.AppliedMixes | fxcp-core/src/operations.rs:2417-2443 | after all ranges, for a target of any length: bytes brought come from the source, skipped ones stay, new ones are zero, and the length is what written blocks reach |
| DeltaCopy.AppliedIff | fxcp-core/src/operations.rs:2417-2443 | for any ranges, complete or not: the target becomes the source if and only if it agrees with it wherever nothing is brought, and is as long or is extended so far by written blocks |
| DeltaCopy.DeltaIsFullCopy | fxcp-core/src/operations.rs:1373-1435 | the result starts with the source if and only if the target was zero in every small hole of a dirty range, and was not shorter or the source's last byte is in a written block; it is the source if and only if the target was not longer besides |
| DeltaCopy.DenseDelta | fxcp-core/src/hashing.rs:270-313 | for a source without holes, zero blocks not looked for: the result is the source if and only if the target was not longer |
| DeltaSync.TryDeltaCopy | fxcp-core/src/sync.rs:1726-1742 | with the equal-root shortcut, diff, mapping and engine: the copy is whole if and only if the schedules complete it; then the target becomes the source if and only if it was not longer, suits the dirty ranges and was not the list of the source's leaf hashes |
| DeltaSync.WideIsWrong | fxcp-core/src/hashing.rs:238-244 | where chunk lengths do not fit 32 bits, a target that differs in the last byte of the first chunk alone stays as it is, under every hash |
| DeltaSync.MixedChunkSizes | fxcp-core/src/hashing.rs:270-313 | for every two different chunk sizes there are a source and a target not longer whose delta copy is wrong, under every hash |
| MerkleSignature.AdaptiveChunkSize | fxcp-core/src/hashing.rs:45-51 | for every 64-bit size a power of two of at least 64 KiB without overflow, below 2^32 if and only if the size is at most 1800 * 2^31 |
| MerkleSignature.AdaptiveIsLeast | fxcp-core/src/hashing.rs:45-51 | the chunk size is the least power of two from 64 KiB on that makes at most 1800 chunks |
| MerkleSignature.RefusedIff | fxcp-core/src/hashing.rs:326-332 | no signature is refused for as many hashes as its file has chunks or one more, every one for three more |
| MerkleSignature.AdaptiveFits | fxcp-core/src/hashing.rs:357-368 | at most 1800 leaves, and the signature fits an extended attribute |
| MerkleSignature.FromSignature | fxcp-core/src/hashing.rs:326-354 | for every signature: a panic on a zero chunk size, a refusal of too many hashes, or the leaves rebuilt |
| MerkleSignature.SignatureRoundTrip | fxcp-core/src/hashing.rs:316-354 | a tree comes back from its signature if and only if the chunk size is not zero, and is below 2^32 or there is at most one leaf |
| Hydration.Hydrate | foxingd/src/hydration_worker.rs:1907-1993 | the decision between full copy, leaving alone and delta copy, with the delta copy itself, whole if and only if the schedules complete it |
| Hydration.Loaded | fxcp-core/src/sidecar.rs:458-465 | a stored signature counts if and only if a tree can be made of it |
| Hydration.OutcomeIff | foxingd/src/hydration_worker.rs:1907-1993 | whatever is stored, nothing included: left alone if and only if the file is over 1 MiB and a usable signature has the source's root; patched if and only if one has not and fewer than half of the bytes, but some, are dirty; copied in full in every other case |
| Hydration.MixedIsDirty | foxingd/src/hydration_worker.rs:1930-1934 | with a signature of another chunk size all but two chunks are dirty |
| Hydration.HydrationIsSync | foxingd/src/hydration_worker.rs:1910-1980 | with a truthful signature of whatever chunk size, for sources of any 64-bit length: a full copy is the source, without preallocation exactly when its end is written; a target left alone is the source or the list of its leaf hashes; a patch stores the source's signature; as long as the source's chunks are below 2^32 bytes only a target of its chunk size is patched, and becomes the source if and only if it was not longer and suits the dirty ranges |
| Hydration.PatchIff | foxingd/src/hydration_worker.rs:1930-1975 | for sources of any length and signatures truthful or not: a patched target becomes the source if and only if it agrees with it wherever the dirty ranges bring nothing, and is as long or is extended so far |
| Hydration.NewSignatureIff | foxingd/src/hydration_worker.rs:1968-1975 | the signature stored after a patch tells the truth if and only if the target is the source |
| Hydration.PatchIsFinal | foxingd/src/hydration_worker.rs:1923-1975 | whatever a patch left behind, the next run over the same source leaves it alone |
| HydrationHistory.Sync | foxingd/src/hydration_worker.rs:1907-2205 | one hydration with its full copy and the signature stored afterwards, whole if and only if the schedules complete it |
| HydrationHistory.SyncedIff | foxingd/src/hydration_worker.rs:1907-2070 | from a target without signature or with a truthful one, for every outcome: the target becomes the source if and only if it suits |
| HydrationHistory.TruthfulIff | foxingd/src/hydration_worker.rs:2106-2203 | what is stored afterwards is true if and only if a patch gave the source, or a full copy is over 1 MiB, found nothing stored or changed nothing |
| HydrationHistory.HistoryIff | foxingd/src/hydration_worker.rs:1907-2205 | over every history the target is in sync after each hydration if and only if each was sound |
| HydrationHistory.FirstHydration | foxingd/src/hydration_worker.rs:1995-2203 | a preallocated target without signature becomes the source, whose signature is stored if it is over 1 MiB |
| HydrationHistory.StaleSignature | foxingd/src/hydration_worker.rs:1911-1927 | a large file, one of at most 1 MiB and the large one again: the target stays at the second, under every hash |
| ReorderBuffer.Buffer.Push | foxingd/src/ordering.rs:73-124 | initialisation, wraparound reset, rejection, marker, queue or keyed insert: the whole new state and the verdict |
| ReorderBuffer.Buffer.InjectGap | foxingd/src/ordering.rs:126-142 | the marker announces the numbers up to the rejected one, and displaces no event when only markers are held up to the expected number |
| ReorderBuffer.Buffer.Pop | foxingd/src/ordering.rs:144-198 | the whole new state and the event for any time elapsed; ReorderOrder says which event that is |
| ReorderBuffer.Buffer.HandleGap | foxingd/src/ordering.rs:200-276 | stall, salvage, jump: the whole new state and the event |
| ReorderBuffer.Buffer.Drain | foxingd/src/bpf.rs:468-499 | popping until nothing comes ends for any clock, and delivers what the run model says |
| ReorderBuffer.RingCallback | foxingd/src/bpf.rs:455-503 | one callback is one step of the run model |
| Reorder.NothingToSalvage | foxingd/src/ordering.rs:212-236 | the salvage branch is unreachable, and no keyed event lies in a range that a jump declares a gap |
| Reorder.PopMakesProgress | foxingd/src/ordering.rs:144-198 | every delivered event lowers twice the pending count plus one if the head is ahead |
| ReorderOrder.PopTakesLeast | foxingd/src/ordering.rs:144-198 | what comes out has a number at most that of the queue's head and every held one, a jump ends at the least of these, and nothing comes out of a non-empty buffer only if all are ahead of the expected number |
| ReorderOrder.QueueLeavesIff | foxingd/src/ordering.rs:148-195 | the queue's head leaves if and only if it is due and no held number is lower; the whole new state |
| ReorderOrder.HeldLeavesIff | foxingd/src/ordering.rs:148-195 | a held event leaves if and only if it is due, least, and below the queue's head; the whole new state |
| ReorderOrder.GivesUpIff | foxingd/src/ordering.rs:200-276 | a gap is given up if and only if it is overdue under the pressure there is; until then nothing changes but the stall |
| ReorderOrder.DrainInOrder | foxingd/src/bpf.rs:468-499 | with structural events queued in order of number, a drain lets everything go in order of number |
| ReorderOrder.DrainRelieves | foxingd/src/bpf.rs:468-499 | a drain stops only with everything ahead, and if time passes only with at most 1000 events and four fifths of the bytes pending |
| ReorderOrder.AcceptedIff | foxingd/src/ordering.rs:73-111 | an event is accepted if and only if its bytes fit and there is room for one more or it is not ahead |
| ReorderOrder.PushedIs | foxingd/src/ordering.rs:104-142 | where an accepted event goes, and what a rejected one leaves |
| ReorderOrder.FreshStart | foxingd/src/ordering.rs:82-92 | one of the first 100 000 numbers while one of the last 100 000 is expected starts over from nothing |
| ReorderRuns.StepKeepsCore | foxingd/src/bpf.rs:455-549 | every callback and poll keeps the run invariants, and the expected number never decreases |
| ReorderRuns.PushKeepsConserved | foxingd/src/ordering.rs:73-142 | a push keeps the balance; a marker only ever replaces a marker |
| ReorderRuns.RunKeepsCore | foxingd/src/bpf.rs:455-549 | over every run without wraparound: each accepted event was delivered, is pending, repeated a held event's number or was swallowed by a marker, exactly once; structural events leave in arrival order; every number up to the expected one was delivered on time, had a marker emitted for it, or was jumped over, exactly one of the three |
| ReorderRuns.ExpectedNumberGrows | foxingd/src/ordering.rs:144-276 | the expected number never decreases over a run |
| ReorderLosses.LostIffMarker | foxingd/src/ordering.rs:113-123 | over every run without wraparound in which numbers do not repeat, an accepted event is neither delivered nor pending if and only if it is not structural and a marker held its number when it was pushed |
| ReorderLosses.NoticeSwallowsEvent | foxingd/src/bpf.rs:387-402 | under the program's own limits: the notice of a large gap is kept under number 9, and event 9, reported as accepted, is lost |
| ReorderMarkers.OverflowDeniesIff | foxingd/src/ordering.rs:104-142 | the range announced by an overflow marker holds an event if and only if an event below the rejected number is held; every held event stays |
| ReorderMarkers.HeldIsNeverLost | foxingd/src/bpf.rs:455-549 | over every run without wraparound, an event that a callback finds held is pending or delivered ever after, whatever marker the callback leaves |
| ReorderMarkers.FullBufferDeniesHeld | foxingd/src/ordering.rs:93-142 | under the program's own limits: with 100 000 events pending, event 200 000 is turned away and the marker declares everything from 6 on missing while event 8 is held |
| ReorderLedger.RunKeepsLedger | foxingd/src/ordering.rs:93-188 | over every run the byte counter is the sum of held sizes less the markers' unpaid sizes modulo 2^64; without injections it is that sum, within the limit |
| ReorderLedger.CounterIsExactIff | foxingd/src/ordering.rs:126-187 | the counter is exact if and only if the debt is zero; an empty buffer in debt counts 2^64 less the debt |
| ReorderLedger.DebtRejects | foxingd/src/ordering.rs:94-96 | in debt, every smaller event is turned away from an empty buffer |
| ReorderLedger.SizeByName | foxingd/src/ordering.rs:73-75 | a marker or notice is charged for the name it has |
| EventBatch.FindScalar | foxingd/src/columnar.rs:21-25 | the first match in range, or none |
| EventBatch.FindFourLanes | foxingd/src/columnar.rs:28-54 | the same by four lanes and a byte mask |
| EventBatch.FirstLane | foxingd/src/columnar.rs:39-43 | trailing zeros of the byte mask over eight give the first matching lane |
| EventBatch.FirstMatchIsUnique | foxingd/src/columnar.rs:14-54 | so both scans return the same index |
| EventBatch.Batch.Push | foxingd/src/columnar.rs:84-92 | one row is appended to all five columns |
| EventBatch.Batch.PopFront | foxingd/src/columnar.rs:102-113 | the first row is removed from all five columns |
| EventBatch.Batch.Retain | foxingd/src/columnar.rs:115-135 | in-place compaction keeps exactly the rows wanted, in order and aligned |
| EventBatch.Batch.ScanForMerge | foxingd/src/columnar.rs:147-182 | the skipping scan finds the indices and the length of the plain one |
| EventBatch.Batch.TryCoalesceHead | foxingd/src/columnar.rs:137-199 | the event handed out and the batch left behind are those of the merge, columns aligned |
| Columnar.CoalescedCovers | foxingd/src/columnar.rs:137-199 | the write covers exactly the head and the merged writes end to end; those and the rest are all there was, the rest in order |
| MergeRule.MergedIff | foxingd/src/columnar.rs:137-199 | exactly one choice of rows has the rows within the depth that are writes of the head's inode and name and begin where the head and the rows chosen before end, these being below the limit; it is what is merged, and the rest is left |
| Columnar.CoalescingPreserves | foxingd/src/columnar.rs:137-199 | if no non-empty merged write passes another kind of event of its inode, every file ends as by separate application, for every lawful meaning of writes |
| Columnar.PassingChanges | foxingd/src/columnar.rs:164-168 | for all lawful meanings at once that condition cannot be weakened |
| Coalescing.CopyingIff | foxingd/src/columnar.rs:137-199 | for writes that copy from the source: byte p ends as by separate application, for every source and whatever other events do to it, if and only if no event is passed by a merged write over p without a later write over p being left |
| Columnar.CopyingIsLawful | foxingd/src/columnar.rs:137-199 | copying written ranges from the source is such a meaning |
| Coalescer.CoalescedConserves | foxingd/src/ordering.rs:338-368 | bytes handed out and bytes left add up to what was pending |
| Coalescer.RunKeepsCount | foxingd/src/ordering.rs:296-368 | over every run the counter is the pending write bytes plus what overflows threw away, and the batch stays within the frontier |
| Coalescer.OpKeepsCount | foxingd/src/ordering.rs:296-368 | below the frontier a push loses nothing, and the saturating subtraction never saturates |
| Coalescer.BoundedShrinks | foxingd/src/ordering.rs:304-315 | after an overflow the batch is within the frontier and no bytes are invented |
| CoalescerRules.HeldBackIff | foxingd/src/ordering.rs:338-368 | over every run a pop hands nothing out if and only if the head is a write, the target busy, the latency not expired and the bytes below the limit |
| CoalescerRules.PrunedIff | foxingd/src/ordering.rs:409-435 | pruning keeps, in order, exactly the rows beyond the window and those whose inode no row of the window unlinks |
| CoalescerRules.PushCosts | foxingd/src/ordering.rs:296-317 | over every run a push keeps everything up to the frontier; above it the events of unlinked inodes go, or if there are none the head with what merges with it |
| Coalescer.Writer.Push | foxingd/src/ordering.rs:296-317 | the whole new state, frontier overflow included |
| Coalescer.Writer.Prune | foxingd/src/ordering.rs:409-435 | exactly the events of inodes unlinked within the window go |
| Coalescer.Writer.PopBatch | foxingd/src/ordering.rs:338-368 | the flush rule, the event and the whole new state |
| Projector.IdentityProjector.Project | foxingd/src/projector.rs:45-160 | every event kind: the whole new state |
| Projector.IdentityProjector.ProjectRename | foxingd/src/projector.rs:47-115 | deferral, exchange and plain rename: the whole new state |
| Projector.IdentityProjector.Replay | foxingd/src/projector.rs:127-136 | deferred renames are played in order |
| Projector.IdentityProjector.FindInodeByRelPath | foxingd/src/projector.rs:36-43 | the first inode in listing order that has the path |
| Projector.IdentityProjector.UpdateIdentity | foxingd/src/projector.rs:162-184 | the path is last and once in the inode's list, so the visibility check after a rename never fires |
| Projector.IdentityProjector.SwapIdentityPath | foxingd/src/projector.rs:188-200 | the old path is gone, the new one last, the others stay, no path twice; other inodes and unknown inodes are not touched |
| Projector.IdentityProjector.AddIdentityPath | foxingd/src/projector.rs:202-220 | the path is last and once, the stamp of a known inode stays |
| Projector.IdentityProjector.RemoveIdentityPath | foxingd/src/projector.rs:222-242 | the path is gone and only it; the inode stays in the map if and only if it has another path; other inodes are not touched |
| Projector.StampIs | foxingd/src/projector.rs:45-160 | unless renames were waiting, an entry has the stamp of the last event that stamps its inode, and only that one |
| Namespace.OwnerIsUnique | foxingd/src/projector.rs:36-43 | on a faithful map the owner found does not depend on the listing order |
| Namespace.OpIsFaithful | foxingd/src/projector.rs:45-160 | each create, mkdir, link, unlink, rmdir, free rename and exchange keeps every list non-empty, duplicate-free and equal to the paths naming the inode |
| Namespace.HistoryIsFaithful | foxingd/src/projector.rs:45-242 | so does every history from an empty root |
| DeferredRename.EarlyRenames | foxingd/src/projector.rs:48-53 | any number of renames before their create, with anything in between, end as if the other events had come first, then the create, then the renames |
| LateCreate.EventIgnoring | foxingd/src/projector.rs:45-160 | an event about another inode, unless an exchange touches this one, does the same with and without it in the map |
| LateCreate.LateCreateIff | foxingd/src/projector.rs:45-160 | create first or last, with renames of the file and other events interleaved: the maps are the same if and only if the directory of the create is still known and that of the last place still has its path |
| LateHistory.LateCreationIff | foxingd/src/projector.rs:45-160 | over every history of a file created, renamed and passed by other operations, its creation reported last: the map is faithful, and that of the in-order report, if and only if the directory it was created in still exists |
| LateHistory.LostForGood | foxingd/src/projector.rs:126-136 | otherwise the file is absent from the map and its renames wait for ever |
| LateHistory.RemovedDirectoryLosesFile | foxingd/src/projector.rs:116-136 | create in p, rename to the root, rmdir p, reported as rename, rmdir, create: the file is lost |
| RenameLimits.FileRenameIff | foxingd/src/projector.rs:95-113 | a file rename keeps the map faithful if and only if the new name is free or the old one |
| RenameLimits.DirRenameIff | foxingd/src/projector.rs:95-100 | a directory rename, onto an empty directory included, does if and only if the new name is free and nothing is below the directory, or the new name is the old one |
| Pruning.AllMatch | foxingd/src/hydration_worker.rs:689-715 | the target loop decides whether the directory matches, undirtied, on every target |
| Pruning.UnpruneAncestors | foxingd/src/hydration_worker.rs:720-731 | exactly the ancestors but the root leave the set |
| Pruning.PruneDirs | foxingd/src/hydration_worker.rs:671-732 | a directory ends up pruned if and only if it matches everywhere and no recorded directory below it mismatches |
| Pruning.KeepsFile | foxingd/src/hydration_worker.rs:740-753 | a file is kept if and only if no ancestor is pruned |
| Pruning.FilterFiles | foxingd/src/hydration_worker.rs:739-754 | exactly those files are kept, in order |
| Pruning.KeptIff | foxingd/src/hydration_worker.rs:739-754 | a file is kept as often as it was there if no ancestor is pruned, and not at all otherwise |
| Pruning.SkippedOnlyIfMatching | foxingd/src/hydration_worker.rs:633-754 | every recorded directory between the pruned ancestor and a skipped file matches |
| Pruning.ParentMatches | foxingd/src/hydration_worker.rs:671-754 | no file is skipped unless its own recorded parent is on every target, without dirty child, and stored with the hash of the children recorded now |

## Left out

- Real system calls, io_uring internals, tokio, locks and memory ordering: the kernel is a set of steps, a lock an atomic step.
- Errors other than interruption, cancellation and refused atomic writes in the copy engine, its timeouts, and a full submission queue: an Err return promises nothing there; a linked pair is submitted whole or not at all.
- The buffer address check of atomic writes, read and write flags, counters of zero bytes and operations, metrics.
- Results of the hole punches submitted for sparse segments are ignored by the program; the model takes them to succeed. lseek errors other than ENXIO, ranges cloned by reflink and the choice between these ways are left out; a source whose file system has no SEEK_HOLE is one whose layout is all data.
- Mode, owner and mtime of archive entries come back with the manifest (FxarManifest.ListedTells); setting mode and mtime on a restored file, extended attributes, disk space checks and the NFS write path are left out.
- Archive sizes beyond 2^64 and chunk blobs beyond 2^32 bytes are excluded by `FxarRoundTrip.Fits`; the JSON length of a manifest written for the reader is not checked by it and is not modelled further.
- Hydration.HydrationIsSync: the condition on a patched target speaks of chunks below 2^32 bytes, which is sources up to 1800 * 2^31 bytes; beyond that Hydration.PatchIff has the condition byte by byte, and DeltaSync.WideIsWrong the failing targets.
- HydrationHistory.Sync: signatures cached from another target of the same file, retries, permissions and the removal of a copy whose source was renamed meanwhile are left out.
- Columnar.Coalesced: offsets and lengths do not wrap at 2^64.
- ReorderRuns.RunKeepsCore: promises nothing after a sequence number wraps around, where the program clears the buffer; additions to the byte counter wrap silently, as in a release build.
- Coalescer.Writer.Push: an overflow of the frontier discards events by design, which the model reproduces and counts; the elastic variant that nothing calls is left out.
- Name filters of the event driver, the transient filter and the worker queues behind the reorder buffer.
- Map eviction, lazy repair and generation checks of the identity map; the projector's histories exclude directory renames and overwriting renames, for which RenameLimits gives the exact condition.
- LateHistory.LateCreationIff: is about files that are only renamed between their creation and its report, and whose name no exchange takes.
- Pruning.PruneDirs: takes each directory once, parents before children, as the sorted walk delivers them; the directory hash is a parameter.
- Version store, snapshots, tuner, governor, configuration, API, TUI, mount and capability probing, and BPF attachment would add glue or one-function clamps only.
