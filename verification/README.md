# A Dafny model of BackupX

BackupX is a backup server with a master, remote agents and several storage backends. This project models the parts
of it whose correctness spans many functions or many interleaved steps, and proves what they promise.

1. **The content-addressed repository.** Files are cut into content-defined chunks (`chunker.dfy`), deduplicated into
   a plan (`scanner.dfy`), packed and uploaded with one index object per pack and a snapshot at the end (`packs.dfy`,
   `upload.dfy`, `backup.dfy`, `listings.dfy`), read back through the merged index (`store.dfy`, `restore.dfy`,
   `repository.dfy`, `reading.dfy`), and garbage collected (`prune.dfy`, `maintenance.dfy`). The provider is a map
   from keys to objects; every upload or deletion is one call, and a crash may fall between any two (`calls.dfy`,
   `runs.dfy`). Which snapshots and indexes are accepted and which walks can be stored is in `validation.dfy`, which
   selections can be restored, from any store, in `restorable.dfy`. Link targets are checked and respelled by
   `links.dfy`, and `link_meaning.dfy` says when that keeps their meaning. `end_to_end.dfy` composes the methods.
   `hazards.dfy` holds what happens where a hypothesis does not hold, each with its exact condition and a run that
   fails. `codec.dfy` states the laws asked of hashing, compression and encryption.
2. **The command and record protocol** between master and agents: the command table and its conditional updates
   (`commands.dfy`), the interleaved step machine (`protocol.dfy`), the service methods as runs of that machine
   (`agent_service.dfy`), the same machine with the saving of a record split in two (`split_saves.dfy`), starting a
   backup task (`task_start.dfy`), the repository locks (`target_locks.dfy`) and reconciliation after a restart
   (`reconcile.dfy`).
3. **Differential file backup and restore** over path-to-node maps: what archives hold and restore (`differential.dfy`,
   `paths.dfy`), what becomes of names that a restore trims or cleans (`archive_names.dfy`, `untidy_names.dfy`), and the
   loops of the runner (`file_runner.dfy`).
4. **Four smaller cores**: the CBOR reader against section 3 of RFC 8949 (`cbor.dfy`), the dependency-cycle search
   (`dependencies.dfy`), the sliding-window limiter (`limiter.dfy`) and the streaming line splitter (`line_writer.dfy`).

Code that changes state is a class or a method with loops, proved against a function; the promises are then proved about
the functions, over all inputs and all runs. Check the whole project with `dafny verify dfyconfig.toml`.

## Hypotheses

- *Uniquely decodable packs.* Pack and index keys are made from pack bytes alone, so the repository theorem asks that
  concatenated encodings determine the chunks. It is enough that no encoding begins another (`Codec.PrefixFreeDecodes`).
  Compression "none" does not meet this: `Hazards.EqualPackBytesLoseChunks`.
- *Laws of the primitives* (`Codec.Lawful`): digests do not collide, decoding undoes encoding, an encoded chunk stays
  within 4 MiB + 256 KiB. Snapshot and index objects stay within the sizes their readers accept.
- *One operation at a time per storage target*, as the repository lock provides. A prune without it:
  `Hazards.UnlockedPruneIsHarmlessIff`. *A call that reports failure has had no effect*, except that a failed pack upload
  may leave a pack behind; without this: `Hazards.CleanUpIsSoundIff`. Files do not change while they are scanned.
- *Walks are walks* (`Restore.Walked`): the directories a name is in are visited before it, and names hold no NUL.
- *Tidy names* in the differential theorems (`ArchiveNames.Tidy`): no white space at either end. What happens otherwise:
  `UntidyNames.FullRestoresIff`, `UntidyNames.DeletionsMissIff`.
- *Agents follow the protocol*: what the master processes was sent by a step of the agent that was handed the command.
- *Finding and then saving a record is one step* of the protocol, only command rows may be read stale; without this:
  `SplitSaves.SplitSaveGoesWrongIff`. Record and command ids are never reused.
- *Validation and storing of a dependency update are one step*, lookups succeed, and ids are never reused. Without the
  first: `Dependencies.InterleavedUpdatesAcyclicIff`.
- *The limiter's clock does not go back*, for calls and collections alike.
- *Line trimming* is any function that maps the empty line to the empty line.

Where comments and code differ the model follows the code: the comment in `repository_chunker.go` says the hash retains
the latest 64 bytes, which holds for the full hash, but a boundary depends on the last 21 or 19 only
(`Chunker.HashIsLocal`).

## Model

| member | source | states |
|---|---|---|
| `Chunker.ChunksPartition` | server/internal/backup/repository_chunker.go:101-131 | the chunks joined are the data; every chunk but the last has between min+1 and max bytes, the last between 1 and max |
| `Chunker.ChunksRestart` | server/internal/backup/repository_chunker.go:75-90 | from every chunk boundary on, the chunks are those of the remaining data on its own |
| `Chunker.Resynchronization` | server/internal/backup/repository_chunker.go:15-18 | two streams that both cut at the start of a shared suffix have identical chunks from there on |
| `Chunker.HashIsLocal` | server/internal/backup/repository_chunker.go:112-123 | under 64-bit wrap-around, the hash modulo 2^21 (2^19) after at least 21 (19) bytes depends on the last 21 (19) only, whatever was hashed before |
| `Chunker.HitIsLocal` | server/internal/backup/repository_chunker.go:112-123 | whether a position is a cut candidate is decided by the last 21 bytes up to it before the average size, and by the last 19 from there on, once that many were hashed |
| `Chunker.CutIsStable` | server/internal/backup/repository_chunker.go:101-131 | a cut found before the end of input is the cut of every longer buffer |
| `Chunker.ChunksEndFirst` | server/internal/backup/repository_chunker.go:101-131 | pieces of the data are its chunks if and only if joined they are the data and each ends at the first place past the minimum size where the 64-bit hash from the minimum size on is divisible by 2097152 (up to the average size) or by 524288 (past it), or else at the end of the data or of the maximum size |
| `Chunker.GearIsWeighted` | server/internal/backup/repository_chunker.go:112-114 | the rolling hash is the sum of the bytes' constants, each doubled once for every byte after its own, modulo 2^64 |
| `Chunker.ContentDefinedChunker.FindCutPoint` | server/internal/backup/repository_chunker.go:101-131 | the loop returns the greedy specification's cut, which is the first place where a chunk may end; it returns 0 exactly while the input goes on, is shorter than the maximum size and holds no such place |
| `Chunker.ContentDefinedChunker.Drain` | server/internal/backup/repository_chunker.go:75-90 | shifting decided chunks out of the buffer in place keeps emitted chunks plus chunks-to-come constant |
| `Chunker.ContentDefinedChunker.Split` | server/internal/backup/repository_chunker.go:49-99 | for every fragmentation of the reader: the emitted chunks are the whole-buffer chunks (a prefix of them on any error), each ending at the first place it may; the buffer never outgrows its allocation, and the "buffered bytes" error cannot occur |
| `Packs.LayoutRegion` | server/internal/backup/repository.go:844-851 | the index entry of each chunk delimits exactly that chunk's encoded bytes, right after the previous one |
| `Packs.LayoutPartitions` | server/internal/backup/repository.go:844-851 | every byte of a pack lies in exactly one chunk's region |
| `Packs.FlattenGrouped` | server/internal/backup/repository.go:807-855 | packing loses, reorders and duplicates nothing |
| `Packs.GroupedIsGreedy` | server/internal/backup/repository.go:820-852 | no pack is empty or over the pack size unless it is one oversized chunk, and no pack could have taken the next chunk |
| `Packs.GreedyIsUnique` | server/internal/backup/repository.go:824-828 | that rule determines the packs: two groupings of the same chunks obeying it are equal |
| `Store.WrittenSegmentsAreValid` | server/internal/backup/repository.go:926-978 | every index segment a writer leaves behind passes all of the reader's checks |
| `Store.IndexedChunksReadBack` | server/internal/backup/repository.go:1126-1166 | in a sound repository every indexed chunk reads back as bytes with that id, whichever segment the merged index took it from |
| `Store.ReadsIffHeld` | server/internal/backup/repository.go:1126-1166 | in any store, sound or not, a chunk reads if and only if its location holds a form that decodes to bytes of the recorded size whose digest, under the recorded compression and mode, is the chunk's id |
| `Store.ReadsAreGenuine` | server/internal/backup/repository.go:1162-1164 | whatever the store holds, a chunk reads as the bytes it was named after or not at all |
| `Calls.SafeCallsKeepSound` | server/internal/backup/repository.go:859-903 | a repository stays sound at every point between two calls of a safe sequence |
| `Upload.MissingExactly` | server/internal/backup/repository.go:807-810 | the chunks packed are those of the plan the index lacks, each once |
| `Upload.KnownPackKey` | server/internal/backup/repository.go:875-876 | with uniquely decodable packs, a new pack whose key has an index already finds both stored objects equal to the ones it would store |
| `Upload.PackCallsAreSafe` | server/internal/backup/repository.go:859-903 | storing packs, each before its index, is safe call by call, and indexes exactly their chunks |
| `Upload.UploadIsSafe` | server/internal/backup/repository.go:335-380 | the calls of a whole upload are safe, and the snapshot comes last, when all its chunks are indexed |
| `Prune.OrderlyDeletesAreSafe` | server/internal/backup/repository.go:729-749 | deleting dead indexes before their packs is safe after any number of deletions |
| `Prune.PruneIsExact` | server/internal/backup/repository.go:713-750 | a completed prune leaves exactly the snapshots, the segments with a live chunk, and their packs |
| `Prune.PrunedExactly` | server/internal/backup/repository.go:713-750 | of a sound repository, an index or a pack survives if and only if its segment holds a live chunk |
| `Prune.PruneKeepsLocations` | server/internal/backup/repository.go:905-924 | the merged index gives every live chunk the same location before and after |
| `Prune.PruneIsIdempotent` | server/internal/backup/repository.go:677-751 | a second prune finds nothing to delete |
| `Prune.PruneConservesBytes` | server/internal/backup/repository.go:732-748 | pack bytes before are pack bytes after plus the reported reclaimed bytes |
| `Restore.FileReadsBack` | server/internal/backup/repository.go:514-531 | a file's chunks read back as its content, wherever each was stored |
| `Restore.RestoreIsGenuine` | server/internal/backup/repository.go:450-546 | whatever has become of the store, a restore of a walk's entries that succeeds gives the walked tree, and it succeeds if they can all be read |
| `Restore.ExportIsGenuine` | server/internal/backup/repository.go:594-643 | an export of a walk's entries that succeeds gives all its members, and it succeeds if they can all be read |
| `Restore.RestoredNames` | server/internal/backup/repository.go:454 | from any entries, a restore that succeeds creates just the names whose elements begin those of an entry the selection asks for |
| `Restore.EntriesReadBack` | server/internal/backup/repository.go:450-546 | restoring the entries of a walk gives every wanted node, links with their normalized target, and besides only the directories above wanted names; exporting gives all members in order, link targets as stored |
| `Restore.RestoredIsSame` | server/internal/backup/repository.go:479-501 | restored files and directories equal the walked ones, and every restored link leads to the same name |
| `Restore.RestoredByElements` | server/internal/backup/repository.go:454 | of a walk a selection brings back the visits it asks for, by elements, and the directories above them |
| `Restorable.RestoresIff` | server/internal/backup/repository.go:450-546 | a selection of a valid snapshot is restored if and only if every file asked for is legible (each chunk's location holds bytes of its digest, the sizes add up) and nothing asked for has a NUL in its name or lies below such a file |
| `Restorable.ExportsIff` | server/internal/backup/repository.go:594-643 | the entries of a snapshot are exported, all and in order, if and only if every file is legible |
| `Restorable.EntryReadsIff` | server/internal/backup/repository.go:514-531 | an entry reads if and only if, should it be a file, every chunk's location holds bytes of its digest and the recorded sizes add up to the file's |
| `Validation.SnapshotAcceptedIff` | server/internal/backup/repository.go:1040-1102 | a snapshot is accepted if and only if it is of version 1, its names are plain and distinct with none below a link's, links never step above the root, and chunks, sizes and modes of the entries agree |
| `Validation.SegmentAcceptedIff` | server/internal/backup/repository.go:926-978 | an index object is used if and only if it is of version 1, about its own pack, not empty, and every location is of 1 to 4194304 bytes stored in 1 to 4456448 that end within the largest pack |
| `Validation.WalkAcceptedIff` | server/internal/backup/repository.go:156-330 | a walk makes an acceptable snapshot if and only if, sockets and devices apart, its names are plain and come once and its links lead inside and have nothing below |
| `Links.EscapesIffSurfaces` | server/internal/backup/repository.go:1068-1073 | a link target is refused as escaping if and only if following it element by element ever steps above the root |
| `Links.BelowByElements` | server/internal/backup/file_runner.go:269-271 | a name is another one, or lies below it, if and only if its elements begin with that one's |
| `Links.NormalizedKeepsTarget` | server/internal/backup/repository.go:480-488 | the target a restore writes leads to the same name as the stored one, is itself a target a snapshot may hold, and is its own normal form |
| `LinkMeaning.RestoredLinkMeansSameIff` | server/internal/backup/repository.go:480-488 | with links followed on the way: the restored link stands for the same place as the stored one among all possible other links if and only if its target holds no backslash and goes up only from the directories the link is in |
| `LinkMeaning.RestoredLinkLeadsElsewhere` | server/internal/backup/repository.go:480-488 | counterexample: beside a link "s" to "d/e", the link "l" to "s/../x" leads to "d/x" and is restored as a link to "x" |
| `LinkMeaning.RespelledTreeMeansSame` | server/internal/backup/repository.go:479-501 | when all links of a tree have such targets, every name stands for the same place after a restore has respelled all of them at once |
| `Runs.StepKeepsSound` | server/internal/backup/repository.go:335-380 | an upload, deletion or prune that stops anywhere, by crash or failed call, leaves a sound repository |
| `Runs.RunsKeepSound` | server/internal/backup/repository.go:677-751 | in every run of locked uploads, snapshot deletions and prunes, every index points into its pack and every stored snapshot is readable with its original bytes |
| `Runs.NewTargetsStaySound` | server/internal/backup/repository.go:677-751 | so is every run on a target that was empty at first |
| `Runs.RunsLeaveSnapshot` | server/internal/backup/repository.go:677-751 | no run that does not delete or replace a snapshot changes it |
| `Runs.BackupRestores` | server/internal/backup/repository.go:409-565 | end to end: scan, upload onto any sound repository, let any run pass that spares the snapshot; restore returns every wanted file byte for byte, every wanted directory and every wanted link leading where it led, besides only the directories above them, and everything there was when nothing is selected; export returns every member |
| `EndToEnd.BackUpAndRestore` | server/internal/backup/repository_test.go:62-169 | the methods one after the other, for any universe that holds what the writer may encode: once an upload has reported success, the restore after a prune, however that prune went, succeeds and gives the walked tree; the repository is sound in every case |
| `Codec.PrefixFreeDecodes` | server/internal/backup/repository.go:1168-1193 | pack bytes determine their chunks as soon as no stored form of a chunk is empty or begins another one |
| `Hazards.ReplacedIndexIsSoundIff` | server/internal/backup/repository.go:897-902 | replacing the index of an existing pack keeps the repository sound if and only if every live chunk the old index lists is among the new chunks or listed under another pack |
| `Hazards.EqualPackBytesLoseChunks` | server/internal/backup/repository.go:875-876 | counterexample: under compression "none", backing up a file "xy" and then two files "x" and "y" writes one pack key twice, and the first snapshot, still stored, has lost its chunk |
| `Hazards.CleanUpIsSoundIff` | server/internal/backup/repository.go:898-901 | removing a pack after a failed index upload is sound if and only if no index object is stored under its digest |
| `Hazards.RetryAfterCleanUpIsUnreadable` | server/internal/backup/repository.go:898-901 | counterexample: an index upload that is stored but reported as failed; the retry finds nothing missing and completes, and its snapshot cannot be restored |
| `Hazards.IndexFirstIsSound` | server/internal/backup/repository.go:898-901 | removing the index object before the pack is sound whether or not it had been stored, as long as no snapshot needs its chunks |
| `Hazards.UnlockedPruneIsHarmlessIff` | server/internal/service/backup_task_service.go:455-478 | a deletion of snapshots and the prune after it, without the lock, between an upload's reading of the index and its snapshot: the snapshot is readable if and only if it needs only chunks of indexes that the snapshots left over keep alive |
| `Hazards.UnlockedPruneLosesBackup` | server/internal/service/backup_task_service.go:455-478 | the failure: a second backup finds nothing missing, the first one's snapshot is deleted and its pack pruned, the second backup completes and cannot be restored |
| `Scanner.Deduplicate` | server/internal/backup/repository.go:282-300 | a chunk enters the spool exactly when its id is new, at the current end |
| `Scanner.ScanFile` | server/internal/backup/repository.go:275-307 | the ids recorded for a file are those of its chunks in order, and all of them are in the spool |
| `Scanner.BuildPlan` | server/internal/backup/repository.go:238-333 | the plan's snapshot is the walk's; it is refused exactly for a missing key or an invalid snapshot, including a name met twice and a link that is absolute or leaves the root |
| `Listings.Sorted` | server/internal/backup/repository.go:910 | the keys in ascending order, each once |
| `Listings.BeforeExactly` | server/internal/backup/manifest.go:90 | where two names first differ, the one that ends or has the smaller character comes before |
| `Repository.FirstMentionWins` | server/internal/backup/repository.go:905-924 | each chunk some index object mentions is where the first of them, in key order, says, and no other chunk has a location |
| `Repository.LoadIndex` | server/internal/backup/repository.go:905-924 | merging all segments in key order, the first mention of a chunk wins; fails exactly if some segment is invalid |
| `Backup.PackWriter.Add` | server/internal/backup/repository.go:844-851 | a chunk is laid out at the current end of the open pack |
| `Backup.PackWriter.Flush` | server/internal/backup/repository.go:859-903 | pack first, then its index; a refused index takes its pack back |
| `Backup.PackWriter.Append` | server/internal/backup/repository.go:824-852 | flushes before a chunk that would overflow an open pack, and grows the packs as specified |
| `Backup.RepositoryStore.UploadMissingChunks` | server/internal/backup/repository.go:753-857 | the calls made are those of the specified packs of the missing chunks, or a prefix ended by one failed flush |
| `Backup.RepositoryStore.Upload` | server/internal/backup/repository.go:335-380 | the method is a step of the run relation whatever calls fail; on success reused bytes and the new chunks' bytes add up to the plan's, and the chunk counts are right |
| `Backup.RepositoryStore.CountReused` | server/internal/backup/repository.go:364-369 | the loop adds up the plan's chunks that were not new |
| `Maintenance.LiveChunks` | server/internal/backup/repository.go:681-697 | collects exactly the chunks some snapshot lists; an unreadable snapshot is an error |
| `Maintenance.RepositoryMaintenance.DeleteDead` | server/internal/backup/repository.go:713-739 | the first pass deletes each dead segment and then its pack |
| `Maintenance.RepositoryMaintenance.DeleteOrphans` | server/internal/backup/repository.go:740-749 | the second pass deletes exactly the packs no segment describes |
| `Maintenance.RepositoryMaintenance.Prune` | server/internal/backup/repository.go:677-751 | the method is a step of the run relation; when it succeeds the store is exactly the pruned one and the counters are right; unreadable snapshots stop it before any deletion |
| `Reading.SoundIndexLoads` | server/internal/backup/repository.go:905-924 | the index of a sound repository always loads |
| `Reading.RepositoryReader.Open` | server/internal/backup/repository.go:411-423 | succeeds exactly if a checksum is given, the stored snapshot has it, and the snapshot, its link targets included, and every index object are acceptable; returns the stored snapshot |
| `Reading.RepositoryReader.ReadFile` | server/internal/backup/repository.go:514-528 | the loop reads the bytes the specification assigns to the chunk list |
| `Reading.RepositoryReader.Restore` | server/internal/backup/repository.go:450-546 | the loop restores the tree the specification says, with the error of the first entry that fails; it succeeds exactly if the target opens and the selection can be restored, and creates just the names asked for, by elements, and the directories above them |
| `Reading.RepositoryReader.ExportTar` | server/internal/backup/repository.go:594-643 | the loop writes the members the specification lists; it succeeds exactly if the target opens and every file is legible |
| `Reading.RepositoryReader.Verify` | server/internal/backup/repository.go:646-675 | succeeds with the number of distinct chunks and their total size exactly if every chunk the snapshot lists has, where the index says, bytes whose digest is its id; fails exactly if some chunk has not |
| `Commands.UpdatesAdvance` | server/internal/repository/agent_command_repository.go:87-168 | each conditional update moves a command only pending to dispatched, dispatched to succeeded, failed or timeout, or pending to timeout; a finished row keeps everything |
| `Commands.AgentCommandRepository.ClaimPending` | server/internal/repository/agent_command_repository.go:87-122 | hands out the oldest pending command of the node, changing only its status and dispatch time, and nothing exactly if there is none |
| `Commands.AgentCommandRepository.CompleteDispatched` | server/internal/repository/agent_command_repository.go:128-141 | writes status, result and error message of a dispatched command of that node, each to its own column, and nothing else |
| `Commands.AgentCommandRepository.TimeoutActive` | server/internal/repository/agent_command_repository.go:156-168 | writes status and error message of a pending or dispatched command, and nothing else |
| `AgentProtocol.StepKeepsInvariant` | server/internal/service/agent_service.go:127-166 | every step of master, agent, monitor or network keeps the invariant and moves statuses only forward |
| `AgentProtocol.RunsStayCoupled` | server/internal/service/agent_service.go:807-868 | in every interleaving: a succeeded run_task or restore_record command has a success record, a failed or timed-out one whose failLinkedRecord has run has a final record, and no command is handed out twice |
| `AgentProtocol.RunsProgress` | server/internal/repository/agent_command_repository.go:128-168 | over whole runs a terminal status, result and error never change and nothing becomes pending again, even with stale reads before each update |
| `AgentProtocol.FinishedRecordsStay` | server/internal/service/agent_service.go:424-426 | a success or failed record is never changed by any later run |
| `AgentProtocol.RetryConverges` | server/internal/service/agent_service.go:138-147 | repeating the failure report of a failed command finishes a record still running, without touching the command |
| `AgentProtocol.PendingCanFinish` | server/internal/service/agent_service.go:104-166 | no matter what has happened, a command still pending for a running record can be carried out, and then it ends succeeded or failed, as the agent says, with its columns written and its record likewise |
| `AgentProtocol.SilentCanTimeOut` | server/internal/service/agent_service.go:692-739 | an active command that stays without report can be timed out, and its running record then fails |
| `AgentProtocol.TroubleIsAlwaysPossible` | server/internal/database/database.go:84-86 | the machine keeps no trouble away: restarts, deletions, agents and handlers that just stop are possible at any time |
| `SplitSaves.RunEnds` | server/internal/service/agent_service.go:520-561 | over any run, a running record is still running at the end if and only if no step of the run ended it |
| `SplitSaves.SplitSaveGoesWrongIff` | server/internal/service/agent_service.go:520-561 | why find-then-save is taken as one step: the save of a record found running does something else than a single step if and only if some step in between ended the record and it is now gone or has another status than the one reported |
| `SplitSaves.LateLogRevivesRecord` | server/internal/service/agent_service.go:520-561 | a reachable trace: a log line found its record running and is saved after the agent's success, so the command has succeeded and the record runs again |
| `AgentServices.HandedOnce` | server/internal/service/agent_service.go:104-117 | a command still pending has been handed to no poll |
| `AgentServices.AgentService.CreateRecord` | server/internal/service/backup_execution_service.go:447-450 | a running backup or restore record with an id no record has had |
| `AgentServices.AgentService.EnqueueCommand` | server/internal/service/agent_service.go:605-625 | a pending command with a new id for its node, or nothing exactly for node 0; it takes over its record |
| `AgentServices.AgentService.PollCommand` | server/internal/service/agent_service.go:104-117 | hands the node its oldest pending command; no other row, no record changes |
| `AgentServices.AgentService.UpdateRecord` | server/internal/service/agent_service.go:409-426 | finishes a running record, leaves a finished one alone and still answers without error |
| `AgentServices.AgentService.FailLinkedRecord` | server/internal/service/agent_service.go:807-868 | fails the backup or restore record only if still running; an unreadable payload is an error |
| `AgentServices.AgentService.SubmitCommandResult` | server/internal/service/agent_service.go:127-166 | both tables afterwards, for every status the command can have; each call is a run of the step machine |
| `AgentServices.AgentService.CommandStillActive` | server/internal/service/agent_service.go:743-790 | the lease, from the two tables: the command is dispatched and linked, its record is stored and running, and the node was seen or the record was updated |
| `AgentServices.AgentService.ProcessStaleCommands` | server/internal/service/agent_service.go:692-739 | one pass, for each row of the tables: a command pending or dispatched since before the threshold times out and its running record fails, unless it is dispatched with a running record and the node was seen or the record was updated; every other row and running record stays |
| `TaskStart.StepKeepsInvariant` | server/internal/service/backup_execution_service.go:405-450 | mutual exclusion per backup task, and no running record while a caller is about to create one, survive every step |
| `TaskStart.RunsKeepOneRunning` | server/internal/service/backup_execution_service.go:405-450 | in every interleaving of starts, finishing records, deletions and restarts at most one record per backup task is running |
| `TaskStart.NeverTwoRunning` | server/internal/service/backup_execution_service.go:405-450 | so it is in every state reachable from the start of the server |
| `TaskStart.FinishedTaskStartsAgain` | server/internal/service/backup_execution_service.go:405-450 | once its running record has finished or was deleted, a backup task can be started again, and no lock stays behind |
| `TaskStart.WithoutLockTwoRun` | server/internal/service/backup_execution_service.go:510-529 | counterexample: without the start lock two records of one backup task run at once |
| `TargetLocks.DeletionRound` | server/internal/service/backup_execution_service.go:301-315 | each target with a copy that succeeded and has a path once, in ascending order |
| `TargetLocks.NoWaitCycle` | server/internal/service/backup_execution_service.go:307-320 | no state reached with ascending lock orders has a cycle of waiters |
| `TargetLocks.RunsNeverDeadlock` | server/internal/service/backup_execution_service.go:889-902 | the same for every run in which deletions, retention passes and uploads keep arriving |
| `TargetLocks.NeverStuck` | server/internal/service/backup_execution_service.go:837-843 | while some worker is unfinished, some worker can move |
| `TargetLocks.EveryoneFinishes` | server/internal/service/backup_execution_service.go:775-791 | from every reachable state all workers can run to completion |
| `TargetLocks.NewcomersFinish` | server/internal/service/backup_execution_service.go:301-315 | a worker that arrives is one more to finish, and all of them can |
| `TargetLocks.OppositeOrdersBlock` | server/internal/service/backup_execution_service.go:311-315 | counterexample: a run in which two workers with opposite orders take one lock each and then block each other |
| `Reconcile.ReconciledConverges` | server/internal/database/database.go:135-154 | afterwards every running backup or restore record is named by an active command, no verification or replication runs, and no backup task runs without a running record |
| `Reconcile.ReconciledOnlyOrphans` | server/internal/database/database.go:116-140 | a backup or restore record changes if and only if it was running and no active command names it; converged tables do not change |
| `Reconcile.ReconciledExactly` | server/internal/database/database.go:80-156 | every table afterwards, row by row: running backups and restores fail unless a pending or dispatched command names them, running verifications and replications fail, and a running task fails unless a backup of it still runs |
| `Reconcile.CountedExactly` | server/internal/database/database.go:127-154 | the number reported is that of the rows that were running and have failed |
| `Reconcile.ReconcileIsRestart` | server/internal/database/database.go:84-114 | on backup and restore records it is exactly the restart step of the protocol machine |
| `Reconcile.ReconcileIsStartRestart` | server/internal/database/database.go:135-137 | on backup records it is also the restart step of the machine that starts backup tasks |
| `Reconcile.Database.ActiveRecords` | server/internal/database/database.go:87-114 | the loop lists exactly the records active commands name |
| `Reconcile.Database.ReconcileInterruptedOperations` | server/internal/database/database.go:80-158 | the tables become the specified ones and the returned count is the number of rows changed |
| `DifferentialBackup.ExtractIsOverlay` | server/internal/backup/file_runner.go:198-250 | a list of entries with tidy names extracts if and only if no node of the other kind is in the way, in any order, and lays its entries over the tree |
| `DifferentialBackup.DeletesIff` | server/internal/backup/file_runner.go:319-337 | any list of deletions goes through on any tree if and only if each leads somewhere and any file above its place is gone by then; what is left is the tree without the places they lead to and what is below, or nothing if one leads to the target itself |
| `DifferentialBackup.DeleteIsWithout` | server/internal/backup/file_runner.go:319-337 | applying deletions removes exactly the names they are trimmed and cleaned to, and what is below them, in any order |
| `ArchiveNames.StaysIffTidy` | server/internal/backup/file_runner.go:217-228 | a name is restored under itself if and only if it has no white space at its ends and no element that cleaning drops |
| `ArchiveNames.TrimmedExactly` | server/internal/backup/file_runner.go:217 | trimming takes off only white space, by code point, and leaves none at either end |
| `Paths.SelectedByElements` | server/internal/backup/file_runner.go:263-274 | a selection entry selects a plain name if and only if the entry is not rooted and the elements it is cleaned to are not none and begin those of the name |
| `Paths.SelectedWhereItLeads` | server/internal/backup/file_runner.go:263-285 | an archived or deleted name is selected, once cleaned, if and only if an entry's elements begin those it leads to |
| `Paths.AncestorsByElements` | server/internal/backup/file_runner.go:232 | the directories above a plain name are those whose elements properly begin the name's |
| `DifferentialBackup.FullRestores` | server/internal/backup/file_runner.go:176-260 | a full archive of tidy names restored into an empty place gives its entries and the directories above them |
| `UntidyNames.ExtractsIffFit` | server/internal/backup/file_runner.go:198-250 | for entries of any names and any order: they extract into an empty place if and only if none is refused and no two want a file and a directory at the same place |
| `UntidyNames.FullRestoresIff` | server/internal/backup/file_runner.go:176-260 | a full archive brings every entry back if and only if all its files have tidy names and each directory has one too, or finds room where its name leads and is made by what lies below it |
| `UntidyNames.UntidyFileLost` | server/internal/backup/file_runner.go:217-228 | a file with an untidy name is never restored by its own entry |
| `UntidyNames.DifferentialRestoresIff` | server/internal/backup/file_runner.go:196-259 | after the full archive, the differential one succeeds with every current entry in place if and only if the two states are compatible and all current names are tidy; the result is then the current tree and left-over implied directories |
| `UntidyNames.DeletionsMissIff` | server/internal/backup/file_runner.go:319-337 | for any names: no deletion takes a current entry away if and only if none of them leads to a current entry, to a directory above one, or to the target itself |
| `UntidyNames.TrimmedDeletionRemovesCurrent` | server/internal/backup/file_runner.go:319-337 | counterexample: a source with "note" and "note "; the full restore writes both to one file, and the deletion of "note " removes the current "note" |
| `DifferentialBackup.CompatibleWalksIff` | server/internal/backup/manifest.go:67-92 | for two walks of the same roots compatible means: no path changes kind, and equal size and mtime mean equal content |
| `DifferentialBackup.SelectiveIsRestriction` | server/internal/backup/file_runner.go:221-224 | restoring a selection, its entries trimmed and cleaned, from both archives of tidy names gives the full result restricted to the selected subtrees, and otherwise only directories |
| `DifferentialBackup.SelectiveByElements` | server/internal/backup/file_runner.go:221-256 | for any plain name: if a selection entry's elements begin it, the selective restore has there what the full restore has; if none does, no more than a directory |
| `DifferentialBackup.SelectedAsOften` | server/internal/backup/file_runner.go:277-285 | a deletion the selection keeps is kept as often as it is listed |
| `DifferentialBackup.ChosenByElements` | server/internal/backup/file_runner.go:221-224 | of the archive entries that lead somewhere, those are extracted whose elements begin with those of a selection entry |
| `DifferentialBackup.WalkIsWalked` | server/internal/backup/file_runner.go:85-104 | what a walk with exclusions visits is closed: no entry below a file, no missing directory in between |
| `FileRunners.IndexBase` | server/internal/backup/manifest.go:48-54 | the index of a manifest, later entries replacing earlier ones |
| `FileRunners.DeletedPaths` | server/internal/backup/manifest.go:83-92 | exactly the base paths not seen, in ascending order |
| `FileRunners.FileRunner.Run` | server/internal/backup/file_runner.go:59-169 | the walk loop archives in order exactly the nodes that are no root directory, are not excluded, are below no excluded directory, and against a base are new or files of other size or time; with their manifest, or the base paths without such a node in ascending order; for every listing |
| `FileRunners.FileRunner.RunIsArchive` | server/internal/backup/file_runner.go:59-169 | when no archive name comes up twice that is a full archive of the walk, with a manifest that indexes to its fingerprints, or the difference from the base |
| `FileRunners.RestoreTarget.ExtractAll` | server/internal/backup/file_runner.go:198-250 | the extraction loop trims, cleans and places every name, and refines the specification, failing exactly where it fails |
| `FileRunners.RestoreTarget.ApplyDeletions` | server/internal/backup/file_runner.go:319-337 | the deletion loop trims, cleans and places every name, and refines the specification |
| `FileRunners.RestoreTarget.FilterSelectedPaths` | server/internal/backup/file_runner.go:263-285 | keeps exactly the selected paths; of those that lead somewhere, the ones whose elements begin with those of a selection entry, none for an empty selection |
| `FileRunners.RestoreTarget.RestoreArchive` | server/internal/backup/file_runner.go:196-259 | extraction of the selection first, selected deletions after it |
| `Cbor.RoundTrip` | server/internal/security/webauthn.go:338-401 | reading at an encoded item gives its value and stops at its end, for every definite-length encoding and every head width |
| `Cbor.ReadIsEncoding` | server/internal/security/webauthn.go:338-447 | whatever is read successfully was the encoding of an item with that value |
| `Cbor.UnhashablePanics` | server/internal/security/webauthn.go:373-386 | an item with a byte string, array or map as a map key panics, wherever it is nested |
| `Cbor.PanicsIff` | server/internal/security/webauthn.go:364-386 | on arbitrary data a read panics if and only if the data leads, over encoded items, to the head of an array too long to allocate or to a map entry with an unhashable key |
| `Cbor.ReadsIffPlainKeys` | server/internal/security/webauthn.go:373-386 | well-formed data is read with its meaning if all map keys, at every depth, are unsigned, negative, text, boolean, null or undefined items; a byte-string, array or map key panics |
| `Cbor.MeansByKind` | server/internal/security/webauthn.go:351-401 | what each kind of item is read as: an array the values of its items in order, a map under each key the value of the last entry with it |
| `Cbor.AnnouncedArray` | server/internal/security/webauthn.go:363-372 | an announced array with nothing behind its head panics if longer than 17592186044416, and else is empty or malformed |
| `Cbor.KnownEncodings` | server/internal/security/webauthn.go:345-362 | encodings of integers and strings are those of examples in appendix A of RFC 8949 |
| `Cbor.KnownContainers` | server/internal/security/webauthn.go:363-386 | encodings of an array and of a map with a text key, byte by byte |
| `Cbor.EncodedIsRead` | server/internal/security/webauthn.go:312-331 | an encoded item followed by anything reads as the item; the exact reader accepts it exactly if nothing follows |
| `Cbor.ExactIffEncoding` | server/internal/security/webauthn.go:321-331 | parseCBORExact returns a value if and only if the data is an encoding of that value |
| `Cbor.EncodingsArePrefixFree` | server/internal/security/webauthn.go:338-401 | no encoding is a proper prefix of another |
| `Cbor.IntegersExactIff` | server/internal/security/webauthn.go:351-354 | an integer is read as itself if and only if its argument is below 2^63; larger ones wrap |
| `Cbor.CborReader.ReadLength` | server/internal/security/webauthn.go:403-438 | reads the argument of a head and moves past it, or moves nothing |
| `Cbor.CborReader.ReadBytes` | server/internal/security/webauthn.go:440-447 | returns the next bytes, or an error if there are not enough |
| `Cbor.CborReader.Read` | server/internal/security/webauthn.go:338-401 | agrees with the specification; the position strictly grows on success and stays within the data |
| `Cbor.CborReader.ParseCborExact` | server/internal/security/webauthn.go:321-331 | succeeds if and only if the data is the encoding of some value, and returns it; of an encoded item that is its meaning if all keys are plain, and else a panic |
| `Dependencies.NoCycleFoundIsRight` | server/internal/service/backup_task_service.go:237-268 | a negative answer means the searched id is unreachable from every candidate, despite the shared visited set and the depth cap |
| `Dependencies.SearchIsExactUnlessDeep` | server/internal/service/backup_task_service.go:235-268 | the answer is yes if and only if some candidate reaches the id, unless a simple path that avoids the id leads from a candidate past the cap, however many tasks there are |
| `Dependencies.SearchIsExact` | server/internal/service/backup_task_service.go:235-243 | so it is with at most 32 other stored tasks |
| `Dependencies.AcceptedIff` | server/internal/service/backup_task_service.go:614-637 | a new task may wait for any stored tasks; an update, with at most 32 other tasks, is accepted if and only if it names stored tasks that do not wait, at any distance, for the updated one |
| `Dependencies.FarIsRefused` | server/internal/service/backup_task_service.go:241-243 | if some id upstream is more than 32 steps away from every candidate, the search answers yes |
| `Dependencies.CapRefusesLongChain` | server/internal/service/backup_task_service.go:636-638 | counterexample: a sound store of 35 tasks in which the cap refuses an update of a stored task that closes no cycle |
| `Dependencies.CapDependsOnOrder` | server/internal/service/backup_task_service.go:241-243 | between the two bounds the order of the submitted ids decides: one order of the same two ids is refused, the other accepted |
| `Dependencies.ChangeKeepsSound` | server/internal/service/backup_task_service.go:615-638 | an accepted create, update or delete keeps the stored graph acyclic |
| `Dependencies.RunsStayAcyclic` | server/internal/service/backup_task_service.go:615-638 | so does every run of them |
| `Dependencies.InterleavedUpdatesAcyclicIff` | server/internal/service/backup_task_service.go:636-638 | two accepted updates, both checked before either is stored, keep the graph acyclic if and only if not each of them depends, at whatever distance, on the other's task |
| `Dependencies.InterleavedUpdatesMakeCycle` | server/internal/service/backup_task_service.go:636-638 | counterexample: two tasks, each made to wait for the other |
| `Dependencies.CascadeIsBounded` | server/internal/service/backup_task_service.go:272-290 | a cascade of triggered dependents starts no backup task twice and is at most as deep as there are tasks |
| `Dependencies.DependentsAreDirect` | server/internal/service/backup_task_service.go:277-288 | a task is triggered if and only if it is enabled and waits for the finished one |
| `Dependencies.DependentsInOrder` | server/internal/service/backup_task_service.go:277-288 | the triggered ids stand in list order, each listed task giving at most one |
| `Dependencies.TriggerDependents` | server/internal/service/backup_task_service.go:272-290 | the loops list the enabled tasks that wait for the finished one; if no id is listed twice, none is triggered twice |
| `Dependencies.Encoded` | server/internal/service/backup_task_service.go:883-897 | stored ids: the non-zero ones, each once |
| `Dependencies.EncodeIds` | server/internal/service/backup_task_service.go:883-897 | the loop with its seen set computes that list |
| `Dependencies.CycleSearch.Visit` | server/internal/service/backup_task_service.go:240-261 | the recursive search over the shared visited set computes the specified answer |
| `Dependencies.CycleSearch.Run` | server/internal/service/backup_task_service.go:262-267 | the search over all candidates computes the specified answer |
| `Limiter.WindowBound` | server/internal/http/install_handler.go:196-213 | over the whole history, every interval (t - window, t] holds at most max(0, limit) allowed calls of an address |
| `Limiter.AnswersFollowFromCalls` | server/internal/http/install_handler.go:196-233 | the answers are determined by the calls and their times, so gc calls anywhere change none |
| `Limiter.RecentCounts` | server/internal/http/install_handler.go:200-207 | what the reference counts against a call is the number of earlier allowed calls of its address after the cutoff |
| `Limiter.Compact` | server/internal/http/install_handler.go:201-206 | the in-place compaction of a slice is a filter |
| `Limiter.IpLimiter.Allow` | server/internal/http/install_handler.go:196-213 | a call is allowed if and only if fewer than the limit of the earlier allowed calls of its address, over the whole history, were after its cutoff |
| `Limiter.IpLimiter.Gc` | server/internal/http/install_handler.go:217-233 | forgets exactly the addresses without a time after the cutoff; the history, and so every later answer, stands |
| `LineWriter.LinesJoin` | server/internal/backup/mysql_runner.go:123-141 | the lines of a stream contain no newline and joined by newlines are the stream |
| `LineWriter.LinesUnique` | server/internal/backup/mysql_runner.go:123-141 | they are the only such lines |
| `LineWriter.StreamIsLogged` | server/internal/backup/mysql_runner.go:143-157 | however a stream is divided into writes and flushed at the end, its lines are logged trimmed, in order, without blank ones; further flushes log nothing |
| `LineWriter.LogLineWriter.EmitLines` | server/internal/backup/mysql_runner.go:126-135 | logs every ended line of the buffer and returns how much they took |
| `LineWriter.LogLineWriter.Write` | server/internal/backup/mysql_runner.go:123-141 | after the in-place shift the buffer is the unterminated line, without newline, and the log is that of the whole stream |
| `LineWriter.LogLineWriter.Flush` | server/internal/backup/mysql_runner.go:144-150 | the unterminated line is logged once |

## Left out

- Chunker.ContentDefinedChunker.constructor: takes any table of 256 constants instead of generating the one of repository format v1; no property depends on the values.
- Reading.RepositoryReader.Restore: restores into an empty root as a map of nodes; modes, times, nodes already there, what a failed restore leaves behind and cancellation are not modelled.
- Backup.RepositoryStore.Upload: the counters that depend on the length of JSON bodies (snapshot size, uploaded bytes), the quota estimate and temporary pack files are not modelled.
- LinkMeaning.RestoredLinkMeansSameIff: follows links as names only; whether anything exists at the other names on the way is not asked.
- Links are those of a system whose separator is the slash; volume names are not modelled.
- AgentServices.AgentService.UpdateRecord: the validation of reported artifacts, log text and the last status of the backup task are not modelled; a rejected report changes nothing.
- Digests are numbers: how keys and ids are spelled in hexadecimal is not modelled, and the size limits of stored JSON bodies are hypotheses.
- Walks are lists of visits; file system errors during a walk are not modelled.
- Fetching the specification and the artifact of a restore is not modelled; the reports about a restore record follow the same machine as those about a backup record.
- The heartbeat and update times behind a command's lease are two booleans, the answers of a clock.
- Maintenance windows, node pools and execution slots only make a starting call return or wait, which the start machine allows at any time.
- Retention and replication are not part of this model; only the locks around them are.
- In the differential model: modes, times, symlinks and entries named like the deletions entry; a name that leaves the restore target and comes back by the target's own name is refused.
- Cbor.CborReader.Read: an announced array that could be reserved but not in the memory at hand stops the program, which is not modelled; one too long for any slice panics, as in the program.
- UntidyNames.FullRestoresIff: assumes that no entry is led to the name of a file that does not stay there; `UntidyNames.UntidyFileLost` says what happens then.
- UntidyNames.DifferentialRestoresIff: assumes tidy base names and tidy current directory names; `UntidyNames.DeletionsMissIff` covers deletions of any names.
- How dependency ids are written as comma-separated text is not modelled.
- The prefix of a logged line is not modelled.
- Bulk timeout marking, listing stale dispatched commands and saving a whole command row are never called in the repository and not modelled.
- Login and tokens, HTTP handlers, storage backends, notifications, metrics, dashboards, database runners, scheduling and the web interface hold no hard property or only move bytes.
