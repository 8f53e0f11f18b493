# OpenVault, modelled and verified

A Dafny model of the parts of OpenVault that decide whether a backup can be restored, and
proofs of what those parts keep. `dafny verify dfyconfig.toml` checks all of it.

## What is modelled

| modules | part of OpenVault |
|---|---|
| `Storage` | a storage backend with its two maps, and the ways in which an operation on it may fail |
| `Chunker`, `RollingHash` | content-defined chunking with its u32-wrapping rolling hash, and what hash and boundary test compute, in bits and weighted sums |
| `ChunkStore`, `Backup`, `BackupRuns` | the deduplicating chunk store with garbage collection, the manifest, and restore from it |
| `SnapshotChain`, `Strategies`, `SnapshotRuns`, `Restore`, `RestoreTheorems`, `ChainRestore` | full, incremental and differential backups, the restore engine, and replaying a chain of snapshots |
| `Healing`, `HealingTheorems` | integrity scans and repair from other backends |
| `Policies`, `Copying`, `Remediation`, `Maintenance`, `Replication` | the 3-2-1 policy, remedying its violations, maintenance of the replicas, and replication |
| `Glob`, `Audit`, `Scheduler`, `EncryptedStream`, `Pipeline` | path patterns, the audit hash chain with rotation, the priority scheduler, the streaming cipher, and the compression and encryption pipeline |

Code that changes state in place is a class or a method with loops. Each such method is tied
by its `ensures` to a function or relation on values, and the theorems are about those.

**Failures.** Every storage operation takes its fate from a plan: it works, is refused, breaks
off and leaves other bytes behind, or reports success although other bytes were stored. A
theorem without a premise on the plan holds whatever fails. `Atomic` rules out broken and
false writes, `Honest` only false ones, `Reliable` all failures.

**Libraries.** SHA-256 is a function from bytes to strings; where a proof needs it not to
collide, that is a premise on a named set of byte strings. AES-256-GCM, zstd and LZ4 are
function values with their inverse laws as premises. For the cipher these are proved of the
shape of AES-256-GCM, counter mode with a tag over the ciphertext, under every key stream and
tag function (`AssumptionsHold`). That a ciphertext cut short is rejected cannot be asked of
every text (`SomeCutAccepted`); one theorem asks it of one piece of one frame, and
`CutRejectedExactly` says what that means. Scores of the scheduler are real numbers.

## Where the code does less than it says

The model follows the code. Each of these is proved, with the exact condition where there is one.

* Chain restore. `build_complete_file_map` lets the oldest entry of a file win, although its
  comment says that newer ones override (`crates/openvault-core/src/strategy.rs:75-91`). A file
  put back with an old modification time is then skipped and restored wrongly: `RevertedFile`
  is such a run, `RestoresExactly` says when a file is restored rightly, and `ChainRestores`
  shows that rising modification times are enough.
* A chain restore brings deleted files back (`DeletedFile`); `DeletedFilesReturn` says exactly when
  it does not, and `RestoresSourceExactly` when the chain restore is the source.
* Deduplication ignores the snapshot id, while the keys of chunks contain it
  (`crates/openvault-core/src/incremental.rs:260-276`). A backup of any file under a second id
  completes and does not restore (`DedupAcrossSnapshots`); what a torn write left under the
  first id can come to count as a duplicate as well (`TornThenDuplicate`). `RoundTripExactly`
  says when a completed backup restores: exactly if every chunk taken for a duplicate had its
  bytes under this id.
* `gc` blanks chunks but does not save the index. `StaleIndex` is a backup lost by that.
* `total_stored_size` never grows (`ManifestTotals`), and `gc` leaves `total_bytes` as it was.
* Remediation takes a backend whose listing fails for one without a snapshot, and copies the
  primary's files over it unchecked (`crates/openvault-core/src/replicator.rs:304-331`,
  `crates/openvault-core/src/policy.rs:347-366`). If the primary is damaged, a good copy is lost
  and the loss is counted as a remedy (`GoodCopyOverwritten`). `SpoilsExactly` says when a healthy
  file stays healthy; `MaintenanceUnspoilt` that nothing is lost while the primary is undamaged.
* `verify_chain` refuses every log that has been rotated (`AcceptsUnrotated`).
* `compute_hash` puts nothing between the fields it hashes
  (`crates/openvault-core/src/audit.rs:92-109`). The last hash commits to the hashed text of
  every entry and to nothing else (`LogsEndAlike`): metadata `{"a": "bc"}` and `{"ab": "c"}`
  give the same chain (`FieldsRunTogether`).
* `DecryptedReader` asks for 65548 bytes where a full frame has 65564, so that reading back
  works exactly up to 65520 bytes of data (`ReadsBackExactly`).
* `replicate_snapshot` counts a replica that exists as a success without looking at its files.
  `SuccessButDamaged` says, for honest writes, exactly when a counted success is damaged; `RetryCountsBroken` is
  how a failed copy becomes one.
* A compressing storage unpacks archives that were stored before compression was switched on
  (`ArchivesComeBackUnpacked`).
* With `max_chunk` 0 the chunking loop can stand still (`StallsExactly`).

## Model

| member | source | states |
|---|---|---|
| `Storage.Vault.LatestSnapshot` | crates/openvault-storage/src/local.rs:155-169 | filtering and taking the maximum yields `Latest`, whose meaning is `LatestIsLatest` |
| `Storage.LatestIsLatest` | crates/openvault-storage/src/local.rs:155-169 | the latest (full) snapshot of a source is stored, is of that source and kind, and none of those was created later; there is none only if no such snapshot is stored |
| `Storage.LatestAmongEquals` | crates/openvault-storage/src/local.rs:155-169 | among snapshots created equally late, the last one listed is the latest |
| `Chunker.FindBoundary` | crates/openvault-core/src/incremental.rs:145-188 | the two scanning loops, with their wrapping updates, return `Boundary`, whose meaning is `RollingHash.BoundaryLaw` |
| `RollingHash.BoundaryLaw` | crates/openvault-core/src/incremental.rs:145-188 | a rest of at most `min_chunk` bytes is one chunk; any other chunk ends at the first position, from a window past the minimum on, where every bit set in the mask is set in the hash (given as a weighted sum of bytes modulo 2^32), or else after `max_chunk` bytes or with the data |
| `RollingHash.PassesByBits` | crates/openvault-core/src/incremental.rs:167-181 | `hash & mask == mask` exactly if each bit set in the mask, read off by division by powers of two, is set in the hash |
| `RollingHash.LowMaskBoundary` | crates/openvault-core/src/incremental.rs:62-113 | for a mask of k low bits, as those of the presets are, a chunk may end exactly where the weighted sum is 2^k - 1 modulo 2^k |
| `RollingHash.HashInClosedForm` | crates/openvault-core/src/incremental.rs:157-179 | after the first window and anywhere beyond, the hash is the bytes scanned weighted by powers of two, less twice the weighted bytes that left the window as they are subtracted, modulo 2^32 |
| `RollingHash.RemovedIsShifted` | crates/openvault-core/src/incremental.rs:172-177 | what is subtracted for an outgoing byte is the byte times 2^(window mod 8), modulo 256 |
| `Chunker.StallsExactly` | crates/openvault-core/src/incremental.rs:123-140 | a round of the chunking loop makes no progress exactly when `max_chunk` is 0 and more than `min_chunk` bytes remain |
| `Chunker.ChunkData` | crates/openvault-core/src/incremental.rs:118-142 | the loop ends and yields the specified chunks, each with its checksum, bytes, offset and size |
| `Chunker.Partition` | crates/openvault-core/src/incremental.rs:118-142 | the chunks are contiguous, non-empty, carry their own bytes and checksums, and concatenate to the input |
| `Chunker.SizeBounds` | crates/openvault-core/src/incremental.rs:54-63 | no chunk exceeds `max_chunk`, and only the last may be shorter than `min_chunk` |
| `Chunker.HashLocal` | crates/openvault-core/src/incremental.rs:157-184 | the rolling hash depends only on the bytes scanned, not on where they lie |
| `Chunker.BoundaryReadsForward` | crates/openvault-core/src/incremental.rs:145-188 | `find_boundary` reads no byte before its start: equal remaining bytes give equal cut distances |
| `Chunker.BoundaryIgnoresSuffix` | crates/openvault-core/src/incremental.rs:145-188 | a boundary inside the data stays where it is when data is appended |
| `Chunker.AppendStable` | crates/openvault-core/src/incremental.rs:118-188 | all chunks but the last survive an append unchanged, for every data and every appended bytes |
| `Chunker.ChunksReadForward` | crates/openvault-core/src/incremental.rs:118-188 | from any start, chunks are a function of the bytes from there on, apart from offsets |
| `Chunker.RestartsAtCut` | crates/openvault-core/src/incremental.rs:118-142 | from any of its cuts on, a chunking is the chunking begun at that cut |
| `Chunker.Resynchronised` | crates/openvault-core/src/incremental.rs:118-188 | files that end alike and are both cut where the common part begins have identical chunks from there on |
| `Chunker.RollGainsABit` | crates/openvault-core/src/incremental.rs:172-181 | with u32 wrap-around, one roll over equal bytes makes two hashes agree on one more low bit |
| `Chunker.RollsForget` | crates/openvault-core/src/incremental.rs:157-184 | after k rolls, two scans of the same bytes agree on k low bits whatever they had read before |
| `Chunker.MaskSeesLowBits` | crates/openvault-core/src/incremental.rs:167-184 | a mask below 2^k cannot tell apart hashes with the same k low bits |
| `Chunker.BoundaryTestForgets` | crates/openvault-core/src/incremental.rs:157-184 | finite memory: once k bytes were rolled in, the decision depends on the last `window + k` bytes alone |
| `Chunker.NextCutCoincides` | crates/openvault-core/src/incremental.rs:145-188 | two scans that have rolled in the same `window + k` bytes cut at the same distance as long as they read the same bytes |
| `Chunker.CutsMeet` | crates/openvault-core/src/incremental.rs:145-188 | two chunks open over the same stretch of bytes end at the same place in it, if the boundary test allows a cut at its end |
| `Chunker.ChunkingsResynchronise` | crates/openvault-core/src/incremental.rs:118-188 | after an edit, once in both files a chunk has rolled in a window and k bytes of the common tail and reaches a place where the test passes, both are cut at the same place and all later chunks are identical |
| `Chunker.RemovedUnshifted` | crates/openvault-core/src/incremental.rs:172-177 | for the windows built (32, 48, 64) the 8-bit wrapping shift is by 0: the outgoing byte is subtracted as it is |
| `ChunkStore.ChunkKeyInjective` | crates/openvault-core/src/incremental.rs:250-252 | different hashes or snapshot ids never share a storage key |
| `ChunkStore.ChunkKeysApart` | crates/openvault-core/src/incremental.rs:250-252 | keys are equal exactly if snapshot, namespace and hash are, for hashes without a slash; a chunk's key is never a path outside `__chunks__/` |
| `ChunkStore.ChunkStore.StoreChunk` | crates/openvault-core/src/incremental.rs:260-276 | the deduplicating store of one chunk: new state and result, under every fate of the write |
| `ChunkStore.ChunkStore.StoreChunks` | crates/openvault-core/src/incremental.rs:280-296 | storing a list of chunks stops at the first error with what was done until then, and counts new and duplicate ones |
| `ChunkStore.ChunkStore.Gc` | crates/openvault-core/src/incremental.rs:348-371 | exactly the dead hashes leave the index and are counted, only their files change (to empty ones when writes work), `total_chunks` falls by their number and `total_bytes` stays |
| `ChunkStore.PutFrame` | crates/openvault-core/src/incremental.rs:260-296 | storing adds exactly the chunks' hashes to the index if it completes, and writes at no key of a hash indexed before |
| `ChunkStore.PutCounts` | crates/openvault-core/src/incremental.rs:280-296 | `total_chunks` moves with the size of the index; a completed call counts every distinct hash not present once as new and all the rest as duplicates |
| `ChunkStore.PutBytes` | crates/openvault-core/src/incremental.rs:260-296 | `total_bytes` grows by the sizes of the chunks newly stored, all that were due if the call completes and the first few of them if it fails |
| `ChunkStore.NewlyStoredIntact` | crates/openvault-core/src/incremental.rs:260-276 | a hash that storing adds to the index has its genuine bytes in storage, even if the call failed later |
| `ChunkStore.PutKeepsSound` | crates/openvault-core/src/incremental.rs:260-296 | storing keeps: every indexed hash has its bytes, and `total_chunks` counts the index |
| `ChunkStore.CollectKeepsLive` | crates/openvault-core/src/incremental.rs:348-371 | a collection leaves the file of every live or unindexed hash as it was |
| `Backup.BackupFile` | crates/openvault-core/src/incremental.rs:664-703 | chunking, storing and listing one file, as a step on store and manifest, for success and error |
| `Backup.BackupDirectory` | crates/openvault-core/src/incremental.rs:631-662 | the same for the files of a directory, up to the first error |
| `Backup.StopsAtFirstError` | crates/openvault-core/src/incremental.rs:631-662 | a directory backup fails exactly if that of some file does, and then with what the files before it and the failing one have left |
| `Backup.RestoreFile` | crates/openvault-core/src/incremental.rs:825-870 | a file is written only with bytes reassembled from its chunks that match its hash, and on error nothing is written; with reliable reads the outcome, error included, is that of the specification |
| `Backup.AssembledExactly` | crates/openvault-core/src/incremental.rs:842-847 | reassembly gives the file exactly when every chunk is there: one that is missing, cut short or overwritten cannot be made up for by the others |
| `Backup.ChunksFacts` | crates/openvault-core/src/incremental.rs:664-703 | the chunks of a file join to the file and are genuine |
| `Backup.SizesAddUp` | crates/openvault-core/src/incremental.rs:393-405 | the chunk sizes listed for a file, one for each hash, add up to its size |
| `Backup.ListedInPlace` | crates/openvault-core/src/incremental.rs:393-405 | the hash and size listed in each place are those of the chunk there |
| `Backup.RoundTripExactly` | crates/openvault-core/src/incremental.rs:260-296 | a completed backup of a file restores to it if and only if every chunk taken for a duplicate had its bytes under this snapshot id already |
| `BackupRuns.FileBackedUp` | crates/openvault-core/src/incremental.rs:664-703 | a file backed up into a sound store restores to its bytes, and so does every file listed before |
| `BackupRuns.DirectoryBackedUp` | crates/openvault-core/src/incremental.rs:631-662 | a completed directory backup restores to exactly the directory; one that failed leaves the store sound |
| `BackupRuns.RestoreAll` | crates/openvault-core/src/incremental.rs:789-822 | whatever fails, only listed files are written, each with its restored bytes, and are counted; with reliable reads all that can be restored are |
| `BackupRuns.IndexedChunksStay` | crates/openvault-core/src/incremental.rs:260-296 | over any run, under any snapshot ids and failures, indexed chunks that every collection counts as live are never rewritten |
| `BackupRuns.RunAccounts` | crates/openvault-core/src/incremental.rs:260-371 | over every run from an empty store, under any snapshot ids and failures: `total_chunks` is the size of the index, `total_bytes` the sizes of all chunks ever newly stored as far as the index in use remembers, and the subtraction in `gc` never underflows |
| `BackupRuns.RunStaysSound` | crates/openvault-core/src/incremental.rs:318-371 | over any run under one snapshot id, with restarts, broken writes and loading of saved indexes whose chunks were kept since, the index names only chunks that are there |
| `BackupRuns.WholeRunRoundTrip` | crates/openvault-core/src/incremental.rs:664-870 | from any state reached under one snapshot id: back up a directory, then store and collect in any order with the manifest's chunks live; restoring still gives exactly the directory |
| `BackupRuns.ChunksSurviveRestarts` | crates/openvault-core/src/incremental.rs:318-371 | chunks stay intact even when the index is forgotten or any index loaded, so that they are written again, if writes are whole or not at all |
| `BackupRuns.BackupSurvivesRestarts` | crates/openvault-core/src/incremental.rs:318-371 | then the manifest of a directory goes on restoring to exactly the directory, through restarts, loads and other snapshot ids |
| `BackupRuns.DedupAcrossSnapshots` | crates/openvault-core/src/incremental.rs:260-276 | for every non-empty file, whatever fails: backed up under one id and then under another, the second backup completes and restores to "chunk not found" |
| `BackupRuns.TornThenDuplicate` | crates/openvault-core/src/incremental.rs:260-276 | a chunk whose write broke off, then indexed under another id, is taken for a duplicate by the next backup under the first id, which completes and restores to a hash mismatch |
| `BackupRuns.StaleIndex` | crates/openvault-core/src/incremental.rs:348-371 | for every non-empty file: an index saved before a collection and loaded after it makes the next backup complete without restoring |
| `BackupRuns.ManifestTotals` | crates/openvault-core/src/incremental.rs:687-702 | sizes add up, new and duplicate counts add up to the chunks listed, new ones are the hashes not indexed before, and `total_stored_size` never moves |
| `SnapshotChain.BuildCompleteFileMap` | crates/openvault-core/src/strategy.rs:77-93 | on a chain that ends, the walk ends, and its overwriting inserts yield the map in which the oldest entry of a path wins; it fails only for a missing parent or a failed read |
| `SnapshotChain.CopyChanged` | crates/openvault-core/src/strategy.rs:122-143 | the changed files are stored and listed (`Strategies.ListedExactly`, `Strategies.ListedInOrder`), and no other snapshot's files change, whatever fails |
| `SnapshotChain.FullBackup` | crates/openvault-core/src/strategy.rs:19-53 | a full backup takes the backend to the specified state, or fails without recording a snapshot |
| `SnapshotChain.IncrementalBackup` | crates/openvault-core/src/strategy.rs:97-149 | the same against the complete map of the latest snapshot's chain; with reliable storage it fails only if that chain lacks a link |
| `SnapshotChain.DifferentialBackup` | crates/openvault-core/src/strategy.rs:168-228 | the same against the entries of the latest full snapshot |
| `Strategies.BackupExactly` | crates/openvault-core/src/strategy.rs:19-228 | a completed backup, file by file: a full one lists every file, a differential one unless the reference snapshot's last entry has its time and size, an incremental one unless the chain's complete map has; what is listed is stored, the snapshot is recorded in place of any with its id, and all else stays |
| `Strategies.ParentExactly` | crates/openvault-core/src/strategy.rs:97-180 | a full backup refers to nothing, an incremental one to the snapshot of its source created last, a differential one to the full one created last; to nothing only if there is none |
| `Strategies.ListedExactly` | crates/openvault-core/src/strategy.rs:128-131 | a file of the source is listed exactly if the map compared with lacks its path, or has another time or another size for it |
| `Strategies.ListedInOrder` | crates/openvault-core/src/strategy.rs:122-143 | each entry has the size, time and checksum of its file, and entries come in the order of the visit |
| `Strategies.LastEntryWins` | crates/openvault-core/src/strategy.rs:184-191 | in the map of a snapshot's entries the last entry of a path is the one that counts |
| `SnapshotRuns.TakenKeepsInvariant` | crates/openvault-core/src/strategy.rs:97-149 | a backup of any kind keeps the chain invariant: parents stored, of the same source, strictly older; entries true; what was left out has the oldest entry's stamp |
| `SnapshotRuns.AbortedKeepsInvariant` | crates/openvault-core/src/strategy.rs:97-149 | a backup that failed records nothing and keeps it too |
| `SnapshotRuns.RunKeepsInvariant` | crates/openvault-core/src/strategy.rs:77-93 | in every state that any run of backups of any sources reaches, the invariant holds and no chain walk meets a missing parent |
| `SnapshotRuns.RunStaysIntact` | crates/openvault-core/src/strategy.rs:97-149 | every entry of every recorded snapshot has its bytes stored with its checksum, at every later time |
| `SnapshotRuns.ChainEnds` | crates/openvault-core/src/strategy.rs:77-93 | for a file on record, the complete map has its stamp at the oldest snapshot that lists it, a replay its bytes at the newest |
| `SnapshotRuns.ChainRestores` | crates/openvault-core/src/strategy.rs:97-149 | if content changes come with later modification times, replaying the chain of any snapshot gives every file the bytes it had then |
| `SnapshotRuns.RunRestores` | docs/backup-strategies.md:76-112 | the same over a whole run from an empty backend: the chain restore of an incremental backup brings back the source |
| `SnapshotRuns.ShortChainRestores` | crates/openvault-core/src/strategy.rs:168-228 | a snapshot on a root, as a differential one on its full base, restores the source if only equal time and size mean equal content |
| `SnapshotRuns.DifferentialIsShort` | crates/openvault-core/src/strategy.rs:168-228 | the parent of a differential snapshot is a stored full one without a parent |
| `SnapshotRuns.RestoresExactly` | crates/openvault-core/src/strategy.rs:75-143 | without any premise on times: a backup makes a file unrestorable if and only if its stamp is that of the oldest entry in the chain while the chain holds other bytes for it |
| `SnapshotRuns.RevertedFile` | crates/openvault-core/src/strategy.rs:75-93 | a run of three backups after which the chain restores a file wrongly, though equal stamps always meant equal content |
| `SnapshotRuns.DeletedFilesReturn` | crates/openvault-core/src/strategy.rs:97-149 | whatever modification times say, the chain restore has the files of the source, no more and no fewer, if and only if no file on record in the parent's chain was deleted |
| `SnapshotRuns.RestoresSourceExactly` | crates/openvault-core/src/strategy.rs:75-143 | without any premise on times: the chain restore of a backup is the source, bytes included, if and only if no file on record was deleted and none has the oldest entry's stamp with other bytes than the chain holds |
| `SnapshotRuns.DeletedFile` | crates/openvault-core/src/strategy.rs:97-149 | a run of two backups after which the chain restores a deleted file, though modification times never misled |
| `SnapshotRuns.ReplayStays` | crates/openvault-core/src/strategy.rs:97-149 | a later backup changes nothing that an older chain replays to |
| `Restore.ResolveConflict` | crates/openvault-core/src/restore.rs:372-418 | the place a file is restored to under each strategy; renaming tries up to 1000 names |
| `Restore.FreeNameIsFree` | crates/openvault-core/src/restore.rs:386-408 | a name found by renaming is not taken |
| `Restore.RestoreFile` | crates/openvault-core/src/restore.rs:297-369 | one file's effect on target and report, and the bytes or error returned, for every conflict, decryption, read and checksum outcome |
| `Restore.RestoreSnapshot` | crates/openvault-core/src/restore.rs:257-294 | the whole restore is `AllRestored`, of which `RestoreTheorems` says exactly what it writes and reports |
| `Restore.KeepsExisting` | crates/openvault-core/src/restore.rs:372-418 | unless told to overwrite, a restore changes no file that exists, whatever fails |
| `Restore.WritesVerified` | crates/openvault-core/src/restore.rs:297-369 | with verification on, every file written has the checksum of an entry that belongs at that path, or has it as one of its alternative names when renaming; every other file is as before |
| `Restore.EntriesAccountedFor` | crates/openvault-core/src/restore.rs:257-294 | the report accounts for every entry: restored, or an error, or filtered out |
| `Restore.OverwritesWithSnapshot` | crates/openvault-core/src/restore.rs:257-369 | with Overwrite, restoring an intact snapshot writes its data over the target without errors |
| `RestoreTheorems.RestoredExactly` | crates/openvault-core/src/restore.rs:257-418 | with working reads, under any filter and conflict strategy, if no two entries may go to the same place: the decoded data of an entry stands at a place exactly if the filter is empty or names its path, that place is where it goes, it decodes, and it passes verification or none is asked for; else the place is as it was |
| `RestoreTheorems.OthersUntouched` | crates/openvault-core/src/restore.rs:257-369 | a path that is no entry's place is as it was |
| `RestoreTheorems.ResolvedExactly` | crates/openvault-core/src/restore.rs:372-418 | a file goes to its path if nothing is there or it is to overwrite, when renaming to the first of its names 1 to 1000 that is free; nowhere exactly if something is there and it is to be skipped, to fail, or all 1000 names are taken |
| `RestoreTheorems.EntryWritten` | crates/openvault-core/src/restore.rs:297-369 | the same for one entry, whatever was restored before and wherever entries may collide |
| `RestoreTheorems.WrittenStays` | crates/openvault-core/src/restore.rs:257-369 | unless overwriting, what was written for an entry stays to the end, even if other entries may go to the same place |
| `RestoreTheorems.ApartIsDistinct` | crates/openvault-core/src/restore.rs:372-418 | unless renaming, that no two entries may go to the same place is to say that their paths are distinct |
| `RestoreTheorems.ReportExactly` | crates/openvault-core/src/restore.rs:257-294 | with working reads the report's counts of restored, skipped, mismatching and renamed files and of bytes are exact, and the errors name the failed paths in order |
| `RestoreTheorems.FatesFromTheStart` | crates/openvault-core/src/restore.rs:257-369 | what is reported of each entry is decided by the target as it was before the restore, if no two entries may go to the same place |
| `ChainRestore.EngineReplays` | crates/openvault-core/src/restore.rs:257-369 | restoring a chain with the engine, oldest first, is the replay that the chain theorems are about |
| `ChainRestore.EngineBringsBackSource` | docs/backup-strategies.md:76-112 | so the engine brings back every file of the source as of any recorded snapshot, if modification times rise |
| `Healing.ScanSnapshot` | crates/openvault-core/src/healing.rs:162-212 | a scan reads every entry once and reports its check and the tallies; a failed read counts as missing |
| `Healing.TallyMeaning` | crates/openvault-core/src/healing.rs:96-98 | healthy, corrupt and missing add up to the files scanned, and the latter two are zero exactly when no check is of that kind; "all healthy" means every check is |
| `Healing.ScanIsRight` | crates/openvault-core/src/healing.rs:162-212 | a scan that finds all healthy is never wrong, and with reliable reads finds it exactly when it is so |
| `Healing.ScanTells` | crates/openvault-core/src/healing.rs:162-212 | with reliable reads, missing and corrupt files are told apart: none is counted exactly when there is none |
| `Healing.ReliableChecks` | crates/openvault-core/src/healing.rs:162-212 | with reliable reads, each entry's check names its path, the checksum expected and the one found, and is healthy exactly if they agree |
| `Healing.Heal` | crates/openvault-core/src/healing.rs:221-339 | the target's new files, the counts and the file results are those of the specification, under any failures |
| `Healing.HealFromSources` | crates/openvault-core/src/healing.rs:345-445 | the same for several sources, as `HealFromResult`, of which `HealFromRun` and `HealedFromAnySource` say that no source is left out; the sources stay as they are |
| `HealingTheorems.HealIsHealFromOne` | crates/openvault-core/src/healing.rs:221-445 | `heal_from_sources` with one source leaves the same target, counts and results as `heal` |
| `HealingTheorems.HealTouchesDamageOnly` | crates/openvault-core/src/healing.rs:221-445 | whatever fails, healing changes a file only where the scan found damage, and with whole writes only to bytes of the expected checksum |
| `HealingTheorems.HealthyStaysHealthy` | crates/openvault-core/src/healing.rs:345-445 | whatever reads fail and writes are refused, a healthy file stays healthy |
| `HealingTheorems.ReadableHealthyUntouched` | crates/openvault-core/src/healing.rs:345-445 | a healthy file that the scan could read is not written to, even by writes that break |
| `HealingTheorems.ReportedHealedIsHealthy` | crates/openvault-core/src/healing.rs:269-318 | a file reported healed has its expected bytes at the end, under any failures, if verified afterwards or writes are honest |
| `HealingTheorems.ReportIsComplete` | crates/openvault-core/src/healing.rs:245-338 | the report lists the damaged files in order, each once, all of them unless the cap was reached, and its counters say what it lists |
| `HealingTheorems.HealFromRun` | crates/openvault-core/src/healing.rs:345-445 | one run of `heal_from_sources` on a reliable target repairs exactly the smaller of its cap and the number of files damaged there and intact on at least one source, all if there is no cap; it spoils none and touches nothing else |
| `HealingTheorems.HealedFromAnySource` | crates/openvault-core/src/healing.rs:376-430 | without a cap, a file is intact afterwards if and only if it was so on the target or on some source, wherever that stands in the list |
| `HealingTheorems.HealRun` | crates/openvault-core/src/healing.rs:221-339 | the same for `heal` with its one source |
| `HealingTheorems.RunsProgress` | crates/openvault-core/src/healing.rs:221-445 | n runs with cap m repair exactly min(n*m, k) of k files healable from any of the sources |
| `HealingTheorems.HealingConverges` | crates/openvault-core/src/healing.rs:221-445 | so n runs with n*m >= k, or one without a cap, leave every file intact that is intact on some source; unhealable files delay nothing |
| `HealingTheorems.FewerRunsDoNotDo` | crates/openvault-core/src/healing.rs:221-445 | fewer runs leave damage: the bound is exact |
| `Policies.CheckPolicy` | crates/openvault-core/src/policy.rs:209-316 | whatever fails, the numbers, each violation and the verdict are those of the backends that could be asked; so the 3-2-1 policy is reported met only if it is, and with reliable backends exactly then |
| `Policies.HeardExactly` | crates/openvault-core/src/policy.rs:218-233 | the backends counted are exactly those that could be asked and hold a snapshot of the source, each once and under its own name |
| `Policies.Evaluate` | crates/openvault-core/src/policy.rs:237-299 | each violation is reported exactly if its requirement is missed, and none twice |
| `Policies.AllHoldingCount` | crates/openvault-core/src/policy.rs:209-316 | when every backend holds a snapshot, the copies counted are all of them |
| `Maintenance.CountCorrupt` | crates/openvault-core/src/replicator.rs:242-276 | with reliable backends, counts exactly those whose latest snapshot of the source is damaged |
| `Copying.StoredBecomesLatest` | crates/openvault-core/src/replicator.rs:302-331 | a snapshot copied to a backend without one becomes its latest |
| `Copying.CopyIsIntact` | crates/openvault-core/src/replicator.rs:311-322 | copying the files of an intact snapshot copies every one, byte for byte |
| `Copying.CopiedExactly` | crates/openvault-core/src/replicator.rs:311-322 | a lax copy leaves every listed file that the source has, and everything else as it was |
| `Copying.SnapshotCopiedFacts` | crates/openvault-core/src/replicator.rs:309-331 | whatever fails, copying touches only what belongs to the snapshot; with honest writes a strict copy that completes is a full one, and when operations work it completes exactly if no file is missing |
| `Remediation.AutoRemediate` | crates/openvault-core/src/replicator.rs:281-337 | whatever fails, it visits each backend at most once, touching only what belongs to the snapshot it copies; with reliable backends it does nothing when the policy holds, otherwise copies the primary's latest snapshot to exactly the backends without one and counts them, after which the policy holds exactly if the names of all backends can meet it; it fails exactly when there is nothing to copy |
| `Remediation.RemedyStrictly` | crates/openvault-core/src/policy.rs:321-369 | whatever fails, partial work touches only what belongs to the snapshot copied; if writes are honest, a success means every backend holds its own or a full copy, and the policy holds exactly if their names can meet it; with reliable backends it fails exactly when the primary lacks a snapshot, or a file of it that some backend needs |
| `Remediation.VisitFacts` | crates/openvault-core/src/policy.rs:347-366 | what each outcome of visiting one backend means, under any, honest and reliable writes |
| `Remediation.SpoilsExactly` | crates/openvault-core/src/replicator.rs:304-331 | a healthy file stays healthy, if all else works, exactly when the backend's listing worked and found a snapshot, or the primary's file is healthy or absent |
| `Remediation.GoodCopyOverwritten` | crates/openvault-core/src/replicator.rs:304-331 | a failed listing and a damaged primary: an intact latest snapshot is overwritten with damaged files, which counts as a remedy |
| `Replication.ReplicateTo` | crates/openvault-core/src/replicator.rs:160-231 | for one target, the resulting state and outcome are those of the specification under any failures, and nothing but the snapshot is touched |
| `Replication.ReplicaVerified` | crates/openvault-core/src/replicator.rs:160-231 | whatever failed on the way, a replica made and verified is intact, and an existing one is left alone |
| `Replication.ReplicaOutcomes` | crates/openvault-core/src/replicator.rs:160-231 | on reliable storages, exactly when each outcome occurs and what it leaves on the target |
| `Replication.SuccessButDamaged` | crates/openvault-core/src/replicator.rs:160-231 | if writes are honest, a counted success is damaged if and only if the replica found there was, or a damaged source was copied to the end without verifying |
| `Replication.RetryCountsBroken` | crates/openvault-core/src/replicator.rs:164-215 | for every snapshot with files: a copy that fails after the metadata was stored is counted as a success by the next attempt, without its files |
| `Replication.ReplicateSnapshot` | crates/openvault-core/src/replicator.rs:149-235 | every target fares as specified and is counted once; existing replicas are left alone, and those made and verified are intact whatever failed; from an intact source on reliable storages none fails, and every replica made is intact |
| `Maintenance.MaintainReplica` | crates/openvault-core/src/replicator.rs:376-391 | whatever fails, the replica is left alone or gets one run of `heal` on its latest snapshot; with reliable backends one whose latest snapshot is intact on the primary ends up intact, and the healed files are counted exactly |
| `Maintenance.Maintain` | crates/openvault-core/src/replicator.rs:346-400 | whatever fails, the primary is never written, and each replica is at most remedied and healed once; with reliable backends every replica whose latest snapshot is intact on the primary (or that needed a copy of the primary's intact one) ends up intact, every replica holds one if remediation was due, the report's numbers are exact, and it fails exactly when there was nothing to copy; when all hold a snapshot, the policy holds exactly if their names can meet it |
| `Maintenance.MaintenanceUnspoilt` | crates/openvault-core/src/replicator.rs:281-400 | whatever fails, with whole writes and an undamaged primary, every file of a replica that has the checksum recorded for its key keeps it, and every intact snapshot stays intact |
| `Glob.SplitJoins` | crates/openvault-core/src/compliance.rs:112-113 | splitting at stars is inverse to joining with them |
| `Glob.FirstPlaceSuffices` | crates/openvault-core/src/compliance.rs:115-123 | for a part between stars, taking its first occurrence loses no match |
| `Glob.GreedyIsExact` | crates/openvault-core/src/compliance.rs:112-136 | greedy leftmost search is exactly the declarative language of what follows a star |
| `Glob.MatchParts` | crates/openvault-core/src/compliance.rs:112-136 | the loop with its moving index, prefix test and final suffix test decides the language |
| `Glob.GlobMatch` | crates/openvault-core/src/compliance.rs:107-139 | `glob_match` accepts exactly the texts in the language of the pattern, for any number of stars |
| `Glob.MatchesPath` | crates/openvault-core/src/compliance.rs:83-93 | a rule applies to a path exactly when it has no patterns or one of them matches |
| `Audit.AuditLog.Append` | crates/openvault-core/src/audit.rs:161-197 | an append keeps: archived segments then active entries are the unbroken log of all events, the active part non-empty and within the limit, and each segment the older half of one entry more than the limit |
| `Audit.AuditLog.VerifyChain` | crates/openvault-core/src/audit.rs:220-245 | accepts exactly when every active entry is sealed and continues the one before, the first starting the chain |
| `Audit.RotationKeepsHistory` | crates/openvault-core/src/audit.rs:315-321 | rotation loses and reorders no entry |
| `Audit.AppendHolds` | crates/openvault-core/src/audit.rs:161-197 | an append with rotation, from any state that holds a log, holds that log with one entry more, numbered and linked to the last |
| `Audit.LogIsChain` | crates/openvault-core/src/audit.rs:161-197 | over any appends the log has sequence numbers 1, 2, 3 and so on, one entry an event in order, and forms one chain |
| `Audit.AcceptsUnrotated` | crates/openvault-core/src/audit.rs:220-245 | `verify_chain` accepts exactly the logs that never rotated, which are those within the limit |
| `Audit.LastHashCommits` | crates/openvault-core/src/audit.rs:92-109 | two accepted chains that end in the same hash have, counted from the end, the same hashed text in each place, if the checksum does not collide on these texts |
| `Audit.LogsEndAlike` | crates/openvault-core/src/audit.rs:92-245 | for logs numbered as `append` does, the last hashes are equal if and only if the logs have as many entries with the same hashed texts |
| `Audit.TamperingShows` | crates/openvault-core/src/audit.rs:92-245 | if the hashed text of one event differs between two accepted logs, so do their last hashes |
| `Audit.ChangedFieldShows` | crates/openvault-core/src/audit.rs:92-109 | changing the time, user, operation, target or result of an event changes its hashed text |
| `Audit.ChangedPairShows` | crates/openvault-core/src/audit.rs:101-106 | so does changing any one key or value of the metadata |
| `Audit.ChangedMetadataShows` | crates/openvault-core/src/audit.rs:92-109 | metadata with another text gives the event another hashed text |
| `Audit.FieldsInOrder` | crates/openvault-core/src/audit.rs:92-109 | the order in which number, fields, metadata and previous hash are hashed |
| `Audit.FieldsRunTogether` | crates/openvault-core/src/audit.rs:92-109 | two accepted logs that differ in metadata only and end in the same hash, under every checksum function |
| `Scheduler.QualityInRange` | crates/openvault-intel/src/scheduler.rs:51-57 | the score is between 0 and 100 for every sensible measurement, and 100 only for a perfect network |
| `Scheduler.QualityWeighs` | crates/openvault-intel/src/scheduler.rs:51-57 | what each measurement is worth: 40 points evenly over bandwidths up to 100, 30 lost evenly over latencies up to 500, 30 for the loss, and nothing beyond |
| `Scheduler.WindowIsArc` | crates/openvault-intel/src/scheduler.rs:71-116 | a window is an arc of the 24-hour clock, past midnight or not, on the days given; the default one, from 0 to 24, is the whole day |
| `Scheduler.OrderIsTotal` | crates/openvault-intel/src/scheduler.rs:154-164 | the queue order is total and transitive |
| `Scheduler.TaskHeap.Pop` | crates/openvault-intel/src/scheduler.rs:236-266 | what is relied on of the binary heap: a task comes out than which none has a higher priority, nor the same and a higher score; nothing else changes |
| `Scheduler.SmartScheduler.ScheduleNext` | crates/openvault-intel/src/scheduler.rs:236-266 | takes out a task that is online and scores enough, in an open window, such that no other such task has a higher priority, nor the same priority and a higher score; keeps the queue when there is none; no task is lost |
| `Scheduler.SmartScheduler.ScheduleAllEligible` | crates/openvault-intel/src/scheduler.rs:269-275 | ends, returns exactly the eligible tasks, priorities never rising and scores never rising among equal priorities, and leaves exactly the others |
| `Scheduler.CountIgnoresOrder` | crates/openvault-intel/src/scheduler.rs:154-164 | how many tasks go before one depends on the multiset of tasks alone |
| `Scheduler.DrainOrderIsDetermined` | crates/openvault-intel/src/scheduler.rs:154-164 | whatever the heap does with equals, the priorities and scores come out in the same places |
| `EncryptedStream.BlocksContinue` | crates/openvault-core/src/crypto.rs:286-300 | cutting blocks as data arrives is cutting them at the end, however the data was split |
| `EncryptedStream.AllBlocksJoin` | crates/openvault-core/src/crypto.rs:275-300 | the blocks, the last short one included, concatenate to the data |
| `EncryptedStream.EncryptedWriter.Write` | crates/openvault-core/src/crypto.rs:286-300 | after any writes the output is the frames of the whole blocks written so far, the buffer the remainder, and processed plus buffered the total; `FramesAt` says where each frame lies |
| `EncryptedStream.EncryptedWriter.Finish` | crates/openvault-core/src/crypto.rs:275-283 | the output is the frames of all blocks of what was written, which `FrameByFrame` describes, and the result its length |
| `EncryptedStream.FrameByFrame` | crates/openvault-core/src/crypto.rs:275-300 | cut every 65564 bytes, the finished output has as its i-th piece the i-th nonce drawn and a ciphertext that opens under it to the i-th 65536 bytes of the data |
| `EncryptedStream.OutputLength` | crates/openvault-core/src/crypto.rs:275-300 | the output has 28 bytes a block more than the data: nothing follows the last frame |
| `EncryptedStream.NoncesDiffer` | crates/openvault-core/src/crypto.rs:188-200 | no nonce is used for two frames, if those drawn are distinct |
| `EncryptedStream.FramesAt` | crates/openvault-core/src/crypto.rs:286-300 | where each frame lies in the output of any blocks of which all but the last are whole |
| `EncryptedStream.FrameReaderReadsAll` | crates/openvault-core/src/crypto.rs:327-355 | a reader that asked for 65564 bytes at a time would give back the data, of any length |
| `EncryptedStream.ReadsBackExactly` | crates/openvault-core/src/crypto.rs:327-355 | the reader gives back what was written if and only if it is at most 65520 bytes long; longer data is an error, if the cipher rejects the first piece read |
| `EncryptedStream.AssumptionsHold` | crates/openvault-core/src/crypto.rs:487-521 | a counter-mode cipher with a 16-byte tag over the ciphertext meets the general premises, under every key stream and tag function |
| `EncryptedStream.CutRejectedExactly` | crates/openvault-core/src/crypto.rs:506-521 | for such a cipher, a ciphertext cut short is rejected exactly when its last 16 bytes are not the tag of what precedes them |
| `EncryptedStream.SomeCutAccepted` | crates/openvault-core/src/crypto.rs:506-521 | under every key and nonce there is a text whose ciphertext, cut short, is accepted |
| `Pipeline.CompressedIsRecognised` | crates/openvault-core/src/compress.rs:50-64 | compressed data is detected as what it is; its own and the automatic decompressor restore it, the other one refuses it |
| `Pipeline.CompressedStorageRoundTrip` | crates/openvault-core/src/compress.rs:294-329 | a compressing storage gives back what it stored; data stored uncompressed exactly when the library whose magic number it begins with, if any, decodes it to itself |
| `Pipeline.ArchivesComeBackUnpacked` | crates/openvault-core/src/compress.rs:306-329 | a compressor's own output stored uncompressed comes back as its content |
| `Pipeline.EnvelopeRoundTrip` | crates/openvault-core/src/crypto.rs:372-402 | the envelope decodes to what was encoded if and only if the nonce is shorter than 65536 bytes |
| `Pipeline.ProcessStore` | crates/openvault-core/src/pipeline.rs:65-84 | compresses, then encrypts, each if configured; the bytes are those of `StoredLayout` |
| `Pipeline.StoredLayout` | crates/openvault-core/src/pipeline.rs:65-84 | the stored bytes: 0 and 12, the nonce and the ciphertext of the packed data; LZ4's magic number before its block |
| `Pipeline.EnvelopeCanonical` | crates/openvault-core/src/crypto.rs:372-402 | every envelope that decodes is the encoding of what it decodes to |
| `Pipeline.ProcessRetrieve` | crates/openvault-core/src/pipeline.rs:86-113 | decryption, then decompression that falls back to format detection and then to the data as it is |
| `Pipeline.EncryptedRetrieval` | crates/openvault-core/src/pipeline.rs:86-113 | reading with a cipher is an error exactly unless the bytes begin with 0, 12 and a nonce and the cipher accepts the rest under it, or if decompressing its text is; else it is that |
| `Pipeline.UnpackedByMagic` | crates/openvault-core/src/pipeline.rs:86-113 | decompression goes by the magic number, whichever compressor is configured; what the library rejects is an error, data with neither is passed on, except what under 4 bytes zstd takes for a frame |
| `Pipeline.PipelineRoundTrip` | crates/openvault-core/src/pipeline.rs:65-113 | with the same cipher or none, data written with any compressor is read back exactly with any compressor |
| `Pipeline.UncompressedPassesThrough` | crates/openvault-core/src/pipeline.rs:86-113 | data stored uncompressed that begins with neither magic number comes through a compressing pipeline unchanged, exactly unless it is under 4 bytes and zstd takes it for something else |

## Left out

Stated weaker, or on a narrower domain, than the code:

- SnapshotChain.IncrementalBackup: when the parents of the latest snapshot form a cycle the source does not end; that is excluded.
- SnapshotChain.BuildCompleteFileMap: the same.
- SnapshotRuns.RunKeepsInvariant: the ids of a run are new and its creation times rise; a clock set back is not modelled.
- Backup.BackupFile: for `max_chunk` 0 and a file longer than `min_chunk` the source does not end (`StallsExactly`); that case is excluded.
- Backup.BackupDirectory: subdirectories are not modelled; the source stores nested paths relative to their own directory, so that equal names collide in the manifest.
- BackupRuns.WholeRunRoundTrip: chunks only; writing manifest and index files is the step `Other`, loading an index the step `Load`, and the index's own key is taken not to be a chunk's.
- Backup.RoundTripExactly: the key of an indexed chunk is taken to hold no more bytes than the chunk, as blanking and breaking off leave it; longer leftovers could make up for each other.
- Healing.Heal: the target is not also the source; error texts, the recovery source's name and timestamps are not reported.
- Healing.HealFromSources: the same.
- Maintenance.Maintain: the primary and the replicas are different backends, and the summary text is not built.
- Maintenance.MaintenanceUnspoilt: records that name the same key are taken to agree on its checksum.
- Remediation.AutoRemediate: the primary and the targets are different backends.
- Remediation.RemedyStrictly: the same.
- Replication.ReplicateTo: the source is not its own target.
- Replication.ReplicateSnapshot: the source and the targets are different backends.
- Scheduler.SmartScheduler.ScheduleNext: the time is one moment a call and a parameter (the code compares UTC with hours documented as local), scores are exact, and NaN does not occur.
- EncryptedStream.EncryptedWriter.Write: the underlying writer and the cipher do not fail.
- EncryptedStream.ReadsBackExactly: the stream delivers as many bytes as are asked for, and the caller reads to the end; that the cipher rejects the first piece of a longer frame is a premise, since no key guarantees it.
- Pipeline.PipelineRoundTrip: compressors and the cipher do not fail when storing.
- RestoreTheorems.RestoredExactly: when renaming, names that two entries could both get are excluded; `EntryWritten` and `WrittenStays` are without that.
- Restore.RestoreFile: writing to the target does not fail, modification times are not set, and the form of renamed paths is a parameter.

Not modelled:

- Removing a task from the scheduler's queue by its id, and peeking.
- Overflow of `usize` positions and `u64` counters; the hash's u32 and the shift's u8 are modelled.
- Serialization of snapshots, manifests, the index and reports; `dedup_ratio`, durations and timestamps.
- The order in which hash maps, hash sets and directories are walked: it is arbitrary, except that snapshots are listed in the order of their storing.
- Deleting snapshots, `restore_snapshot` of a backend, and `file_exists`.
- Exclude patterns of backups and their own matcher in `strategy.rs`: the source tree is what is not excluded.
- Queries and export of the audit log; its texts are strings, and its metadata the list of pairs in the order of their keys.
- Retention, regions and classification of compliance rules: lookups that would add easy members.
- Key management, tenants, notifications, search, file classification, natural-language parsing, anomaly detection, benchmarks and routing.
- S3 and R2 backends, transport, server, web interface, command line, configuration and Docker.
