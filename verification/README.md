# CnosDB: storage, recovery, placement and admission, verified

This project models the parts of CnosDB that have to be right for data to
survive and for limits to hold, and proves what they promise.

* **Raft group storage** (`replication/`). Three stores (a string-keyed state
  database shared by all groups, a log keyed by big-endian bytes, a key/value
  engine) and the storage callbacks of one group on top of them. The classes
  work on the encoded keys; `RaftNode` gives each callback's effect as a
  function of values; `RaftSafety` relates one node to the committed log;
  `RaftWorld` takes all nodes, the committed log and every snapshot handed out,
  and proves safety over every run. openraft enters only through its calling
  rules: it appends entries that touch the log's end or overwrite entries not
  yet applied, truncates above what is applied, purges forward and only applied
  entries, applies committed entries as read from the node's own log, and commits
  a membership at index 0. It installs only a snapshot that some node of the run
  has built or served, not older than what is applied, on a log that agrees with
  the committed one up to it or, conflicting entries having been truncated, ends
  below it. A restart happens between calls. A call may fail: a
  malformed request ends an apply call early, and the invariant survives it.
* **Summary** (`tskv/src/summary.rs`, `tskv/src/tsfamily/`). Version edits, the
  one-pass meaning of a log of them, the two-phase recovery, framing, and the
  file-id counter with its compare-exchange loop under every interleaving.
  `LiveVersion` is the in-memory version with its levels and what an edit does
  to it; `SummaryNode` follows live versions and both summary files over every
  run of vnode changes, rolls and restarts, and `SummaryStore` is the object
  that does it. In a run an edit is as flush, compaction and snapshot
  installation write it: files of its own vnode in one of five levels, delta
  exactly at level 0 (`LiveVersion.Proper`), live files deleted at the level
  they are at, new files under new ids (`LiveVersion.Tidy`, whose need is
  proved). A vnode change and its record are one step.
* **Placement and time buckets** (`common/models/src/meta_data.rs`,
  `meta/src/store/storage.rs`).
* **Token bucket** (`common/limiter_bucket/src/rate_bucket.rs`), with time as a
  parameter in nanoseconds.
* **Circular cache**, **leader-retry executor**, **tag-set scanner**,
  **numbered file names**.

Where the code does less than one would expect, the code is kept as it is and
the exact condition is proved:

* A served snapshot has no log id exactly when the log has been purged up to
  its index and neither the installed snapshot nor the last applied entry has
  that index (`RaftSafety.ServedLogId`, `RaftSafety.PurgeToSnapshotLosesItsId`).
* A served snapshot's membership is the one in force at its index unless none
  had been applied by then and one has been since
  (`RaftSafety.ServedMembership`).
* A live version keeps holding exactly the files its log describes if and only
  if every edit is tidy: it deletes a file at that file's level and does not
  describe one file in two ways (`LiveVersion.MirrorsAllAlong`).
* A rolled summary is equivalent to the full one exactly when every vnode of the
  log is live and its level timestamp is the greatest of its files, or, while no
  edit has been applied since it was opened, it has files or no level timestamp
  (`SummaryNode.RollIsTransparent`). A compaction over tombstones breaks it
  (`SummaryNode.CompactionLowersTs`), and so does a database missing at a
  restart (`SummaryNode.MissingDatabaseIsRolledAway`). The file counter falls
  back to the largest live file id (`SummaryRoll.RolledEditRecovers`).
* A roll applies every rolled edit to the version it was built from, so it
  doubles the files that version lists (`SummaryNode.RollDoublesFiles`); which
  files it holds stays the same (`SummaryNode.RerolledMirrors`).
* A roll renames the temporary file to itself, so edits survive the next restart
  exactly when the node has not rolled since it started
  (`SummaryNode.EditsSurviveIffNotRolled`); a restart after a roll reads the
  summary file as the roll left it (`SummaryNode.SummaryFileIsFrozen`).
* The recovered file counter exceeds every live file after an edit appended to
  any log of bounded edits exactly when the edit deletes its vnode or its own
  file id bounds the files it adds (`SummaryRoll.FreshIffBounded`);
  `SummaryRoll.UnboundedEditLosesFreshness` gives an edit that fails.
* Encoded edits come back unchanged exactly when none carries partly-deleted
  files (`EditFrames.RoundTrip`).
* A change of a database's bucket duration keeps buckets disjoint exactly when
  the new duration divides every earlier one
  (`TimeBuckets.SafeDurationIffRefines`);
  `TimeBuckets.LongerDurationOverlaps` changes 10 to 15.
* No bucket ever contains the timestamp `i64::MAX`, so creating a bucket there
  twice duplicates it (`TimeBuckets.CreationKeepsDisjoint`).
* Six-digit file names are read back exactly below one million
  (`FileNames.SixDigitRoundTrip`), and the newest-file search returns a file
  with the largest id unless that id is 0 and the first name does not parse
  (`FileNames.GetMaxSequenceFileName`).

`dafny verify dfyconfig.toml` checks everything.

## Model

| member | source | states |
|---|---|---|
| `StateKeys.EncodeInjective` | replication/src/state_store.rs:16-61 | No two keys of any kind, group or log index share a string. |
| `StateKeys.PrefixScanIsExact` | replication/src/state_store.rs:34-40 | A string with the prefix of group g is a history key of group g and nothing else: group 1 never sees group 12, nor its own last-membership key. |
| `StateStore.StateStorage.SetAppliedLog` | replication/src/state_store.rs:240-250 | Changes the applied id of that group's view; every key of every other group reads as before. |
| `StateStore.StateStorage.SetSnapshotAppliedLog` | replication/src/state_store.rs:263-274 | Changes the installed-snapshot id of that group's view and nothing of any other group. |
| `StateStore.StateStorage.SetLastPurged` | replication/src/state_store.rs:283-289 | Changes the purged id of that group's view and nothing of any other group. |
| `StateStore.StateStorage.SetLastMembership` | replication/src/state_store.rs:176-194 | Sets the last membership and, when it has a log id, one history record; nothing of any other group. |
| `StateStore.StateStorage.GetMembershipList` | replication/src/state_store.rs:196-213 | The scan returns exactly the group's history, each record under the key of its own index. |
| `StateStore.StateStorage.DelKeys` | replication/src/state_store.rs:370-378 | Removes exactly the given keys. |
| `StateStore.SplitLatest` | replication/src/state_store.rs:217-222 | Sorting by index and retaining those at or below the bound leaves a last record with the greatest index, and the others before it. |
| `StateStore.StateStorage.ClearMemberships` | replication/src/state_store.rs:215-228 | The history keeps the latest record at or below the index and all later ones; everything else reads as before. |
| `StateStore.ClearedIsExact` | replication/src/state_store.rs:215-228 | A record is gone exactly if a later one at or below the index makes it obsolete; every other is kept as it is. |
| `StateStore.ClearingKeepsLaterAnswers` | replication/src/state_store.rs:215-228 | Clearing at i changes the latest-membership answer for no j at or above i. |
| `StateStore.StateStorage.DelGroup` | replication/src/state_store.rs:397-415 | Afterwards every key of the group is absent and every key of every other group is unchanged. |
| `StateStore.LatestRecord` | replication/src/node_store.rs:115-123 | The last retained record is the maximum of the history at or below the index; the other retained ones are exactly the earlier records. |
| `BigEndian.LessIsNumeric` | replication/src/entry_store.rs:15-19 | On keys of one width, byte order is numeric order. |
| `EntryStore.KeyOrder` | replication/src/entry_store.rs:15-19 | Comparing stored keys compares log indexes. |
| `EntryStore.HeedEntryStorage.Append` | replication/src/entry_store.rs:53-71 | The numeric log becomes the old one with the entries written in order. |
| `EntryStore.PutAllAt` | replication/src/entry_store.rs:53-71 | Every entry written is read back under its own index; of several with one index the last. |
| `EntryStore.PutAllElsewhere` | replication/src/entry_store.rs:53-71 | Writing leaves every other index alone. |
| `EntryStore.HeedEntryStorage.LastEntry` | replication/src/entry_store.rs:73-82 | The entry under the greatest byte key is the one with the greatest index; none exactly when the log is empty. |
| `EntryStore.HeedEntryStorage.EntryAt` | replication/src/entry_store.rs:84-97 | The entry the numeric log holds at the index, if any. |
| `EntryStore.HeedEntryStorage.Entries` | replication/src/entry_store.rs:99-114 | The byte-ordered cursor returns each entry with index in [low, high) once, ascending, and nothing else. |
| `EntryStore.SliceIsRange` | replication/src/entry_store.rs:99-114 | The slice of a log is exactly that. |
| `EntryStore.HeedEntryStorage.DelAfter` | replication/src/entry_store.rs:116-125 | Exactly the entries below the index remain. |
| `EntryStore.HeedEntryStorage.DelBefore` | replication/src/entry_store.rs:127-136 | Exactly the entries from the index on remain. |
| `ApplyStore.HeedApplyStorage.Apply` | replication/src/apply_store.rs:78-94 | Writes one pair and returns its value; an undecodable request changes nothing and is an error. |
| `ApplyStore.HeedApplyStorage.CreateSnapshot` | replication/src/apply_store.rs:100-116 | The image is the whole database, cached with the applied index; the database is untouched. |
| `ApplyStore.HeedApplyStorage.Restore` | replication/src/apply_store.rs:118-129 | The database becomes exactly the image; undecodable bytes change nothing and are an error. |
| `ApplyStore.HeedApplyStorage.Reopen` | replication/src/apply_store.rs:28-44 | The database survives; the cached snapshot does not. |
| `NodeStore.NodeStorage.constructor` | replication/src/node_store.rs:38-56 | Opening takes a snapshot of the stored state and touches no other group. |
| `NodeStore.NodeStorage.GetSnapshotLogId` | replication/src/node_store.rs:87-107 | The id from the log, else the installed snapshot, else the last applied entry, if it has that index. |
| `NodeStore.NodeStorage.GetSnapshotMembership` | replication/src/node_store.rs:109-126 | The recorded membership with the greatest index at or below the given one, else the last membership. |
| `NodeStore.NodeStorage.GetSnapshotMeta` | replication/src/node_store.rs:128-143 | Id and membership as before the call; the history is cleared below the index. |
| `NodeStore.NodeStorage.TakeSnapshot` | replication/src/node_store.rs:145-169 | The engine image at the applied index with its metadata; an empty snapshot when nothing has been applied. |
| `NodeStore.NodeStorage.GetCurrentSnapshot` | replication/src/node_store.rs:260-292 | The cached image with metadata for its own index. |
| `NodeStore.NodeStorage.Install` | replication/src/node_store.rs:171-184 | Applied id, membership, installed id, engine content, then a new snapshot; bad bytes stop it after the three ids. |
| `NodeStore.NodeStorage.Append` | replication/src/node_store.rs:384-407 | The log is cut at the first new index and the entries follow; an empty batch does nothing. |
| `NodeStore.NodeStorage.DeleteConflictLogsSince` | replication/src/node_store.rs:410-424 | An index is stored afterwards exactly if it was and is below the given one; nothing else changes. |
| `NodeStore.NodeStorage.PurgeLogsUpTo` | replication/src/node_store.rs:427-445 | The purged id is recorded; an index is stored afterwards exactly if it was and is above it. |
| `NodeStore.NodeStorage.ApplyEntry` | replication/src/node_store.rs:479-518 | Last-applied is set first, then the entry's effect on engine or membership. |
| `NodeStore.NodeStorage.ApplyToStateMachine` | replication/src/node_store.rs:472-522 | The entries take effect in order; it fails exactly on a malformed request, and otherwise answers each entry with the value it put, or nothing. |
| `NodeStore.NodeStorage.GetLogState` | replication/src/node_store.rs:330-355 | The purged id and the id with the greatest index, or the purged id twice for an empty log; in a gap-free log exactly the indexes between them are stored. |
| `NodeStore.NodeStorage.TryGetLogEntries` | replication/src/node_store.rs:194-223 | For included, excluded and open bounds: each stored entry within them once, ascending, and no other; in a gap-free log none is missing. |
| `RaftNode.FirstFailureEndsApply` | replication/src/node_store.rs:472-522 | Once an entry fails, state and answer of the call are those of the entries up to it, whatever follows. |
| `RaftNode.ResponsesMatchEntries` | replication/src/node_store.rs:472-522 | An apply call fails exactly if some request is malformed; otherwise response k is the value entry k puts, empty for the other kinds. |
| `RaftNode.ApplyEndsAt` | replication/src/node_store.rs:472-522 | Last-applied is the first malformed entry, or the last of all; log, purged and installed id and cached snapshot are untouched. |
| `RaftNode.TruncateIsExact` | replication/src/node_store.rs:410-424 | Exactly the entries from the id on go; purged and applied ids, engine and cache stay. |
| `RaftNode.PurgeIsExact` | replication/src/node_store.rs:427-445 | Exactly the entries up to the id go, every one above it stays, and the id is recorded. |
| `RaftNode.BoundsAreExact` | replication/src/node_store.rs:201-211 | The half-open interval read is the indexes within the two bounds, whatever their kinds. |
| `RaftNode.SnapshotIsCached` | replication/src/node_store.rs:145-169 | A snapshot is the engine content at the applied index, replaces the cached one, and changes no data. |
| `RaftNode.ServedIsCached` | replication/src/node_store.rs:260-292 | What is served is the cached image under its own index, if there is one. |
| `RaftNode.InstallIsExact` | replication/src/node_store.rs:304-328 | Both ids and the membership are set; a readable image becomes content and cached snapshot, an unreadable one leaves both alone. |
| `RaftNode.ReopenIsExact` | replication/src/node_store.rs:38-56 | Opening keeps the data and holds a snapshot of it, or none if nothing is applied. |
| `CommittedLog.PrefixStable` | replication/src/node_store.rs:472-522 | Replay and membership at an index do not change as the committed log grows. |
| `CommittedLog.ReplayReadsLastPut` | replication/src/node_store.rs:493-508 | After n entries a key reads as the last of them that put it, and is absent if none did. |
| `RaftSafety.AppendReplacesTail` | replication/src/node_store.rs:397-404 | After an append the log is the old one below the first new index followed by the new entries. |
| `RaftSafety.AppendInv` | replication/src/node_store.rs:384-407 | Appending keeps the log gap-free, the applied prefix committed, and engine, snapshot and membership in step with the committed log. |
| `RaftSafety.TruncateInv` | replication/src/node_store.rs:410-424 | Truncating above the applied point keeps the same. |
| `RaftSafety.PurgeInv` | replication/src/node_store.rs:427-445 | Purging applied entries keeps the same. |
| `RaftSafety.ApplyOneInv` | replication/src/node_store.rs:479-518 | Applying one committed entry, well-formed or not, keeps the invariant and advances the applied count by one. |
| `RaftSafety.ApplyInv` | replication/src/node_store.rs:472-522 | Applying any committed stretch keeps the engine equal to the replay up to last-applied, also when a malformed request ends the call. |
| `RaftSafety.CreateSnapshotInv` | replication/src/node_store.rs:145-169 | A built snapshot is the replay, the committed id and the membership at exactly the applied index. |
| `RaftSafety.ReopenInv` | replication/src/node_store.rs:38-56 | Reopening keeps data and applied index and takes the snapshot anew. |
| `RaftSafety.InstallInv` | replication/src/node_store.rs:304-328 | Installing a genuine snapshot puts the node exactly where full replay up to its index would, if the log agrees with the committed one up to that index or ends below it. |
| `RaftSafety.CurrentSnapshotInv` | replication/src/node_store.rs:260-292 | Serving a snapshot, which clears membership history, keeps the invariant. |
| `RaftSafety.ClearKeepsHistory` | replication/src/state_store.rs:215-228 | Clearing the history keeps it sound, and complete from the cleared index on. |
| `RaftSafety.ServedLogId` | replication/src/node_store.rs:87-107 | The served id is the committed one or missing, and missing exactly under the stated condition on purged, installed and applied ids. |
| `RaftSafety.ServedMembership` | replication/src/node_store.rs:109-126 | The served membership is the one in force at the index if and only if one had been applied by then or none has been at all. |
| `RaftSafety.ServedIsGenuine` | replication/src/node_store.rs:260-292 | With a membership at index 0, whatever is served under a log id is the replay and membership at that id. |
| `RaftSafety.PurgeToSnapshotLosesItsId` | replication/src/node_store.rs:87-107 | From any valid state, purging exactly up to an older self-made snapshot makes the node serve it without an id. |
| `RaftSafety.SliceIsContiguous` | replication/src/node_store.rs:194-223 | A range read of a gap-free log is consecutive from the first stored index of the range to its last. |
| `RaftWorld.StepKeepsSafe` | replication/src/node_store.rs:243-523 | One callback on one node keeps every node's invariant and the genuineness of every snapshot handed out. |
| `RaftWorld.RunKeepsSafe` | replication/src/node_store.rs:243-523 | The same over every run of callbacks, commits and restarts. |
| `RaftWorld.EngineIsFullReplay` | replication/src/node_store.rs:243-523 | In every reachable state each engine is the replay of the committed log up to last-applied, the last membership is the one in force, and the stored indexes are gap-free from the purged one on. |
| `RaftWorld.EqualAppliedAgree` | replication/src/node_store.rs:243-523 | Any two nodes, at any two points of a run, with equal applied count hold the same data, membership and applied id. |
| `RaftWorld.RunKeepsSpared` | replication/src/node_store.rs:427-445 | A run whose purges spare the cached snapshots never purges past one. |
| `RaftWorld.ServedSnapshotIsComplete` | replication/src/node_store.rs:260-292 | If purges stay below the cached snapshot (or at it, if installed), every served snapshot has the committed id, replay and membership of its index. |
| `Summary.StepsCommute` | tskv/src/summary.rs:461-478 | Edits of different vnodes commute. |
| `Summary.ReplayedWithout` | tskv/src/summary.rs:457-485 | The state without a vnode is the state of the log without its edits. |
| `Summary.DeleteErasesHistory` | tskv/src/summary.rs:472-474 | A log with a delete means the same as the log without that vnode's earlier edits. |
| `Summary.AddResetsHistory` | tskv/src/summary.rs:466-471 | A log with an add means the same as the log without that vnode's earlier edits. |
| `Summary.LiveIffBorn` | tskv/src/summary.rs:461-478 | A vnode is recovered exactly if it has been added and not deleted since. |
| `Summary.RecoveredMaxima` | tskv/src/summary.rs:491-499 | Its owner is the name of its last add; level timestamp, sequence number and file id are the greatest of its edits from then on, or the least value there is. |
| `Summary.RecoveredFiles` | tskv/src/summary.rs:500-505 | It has exactly the files whose last word among those edits is an addition, each as that addition describes it. |
| `Summary.RecordCounts` | tskv/src/summary.rs:457-485 | A readable record counts for its edit, in its place; one with a failed checksum for nothing. |
| `Summary.GroupedAfter` | tskv/src/summary.rs:461-485 | One round of the grouping loop follows one step of the one-pass state. |
| `Summary.GroupRecords` | tskv/src/summary.rs:457-485 | The groups stand for the one-pass state and every grouped vnode has its owner; it fails exactly on an unreadable record and skips checksum failures. |
| `Summary.ReplayGroup` | tskv/src/summary.rs:493-506 | A group's files and maxima are those of its edits in order, which `Summary.RecoveredMaxima` and `Summary.RecoveredFiles` describe, and the running file-id maximum is carried on. |
| `Summary.RecoverGroups` | tskv/src/summary.rs:487-538 | In any order of vnodes: the versions of known databases, the maximum over all vnodes, an error exactly on a failed lookup. |
| `Summary.RecoverVersion` | tskv/src/summary.rs:448-552 | Two-phase recovery equals the one-pass fold of the log, and the next file id is one above the largest of any live vnode. |
| `LiveVersion.PlacedIsSorted` | tskv/src/tsfamily/level_info.rs:94-118 | Pushing a file and sorting keeps a level in ascending order of file ids. |
| `LiveVersion.PlacedHolds` | tskv/src/tsfamily/level_info.rs:67-101 | A push adds the file and loses none. |
| `LiveVersion.CopyApplyVersionEdits` | tskv/src/tsfamily/version.rs:59-116 | Level by level: the files not deleted at that level, then the added ones; the greater sequence number; the level timestamp scanned anew. |
| `LiveVersion.AppliedHolds` | tskv/src/tsfamily/version.rs:64-104 | A file is in the new version exactly if it was there and is not deleted at its level, or is added; levels stay sorted and keep their vnode id. |
| `LiveVersion.AppliedCounts` | tskv/src/tsfamily/version.rs:84-101 | A file stands in a level as often as before, not at all if deleted at that level, and once more per addition. |
| `LiveVersion.AppliedStaysDistinct` | tskv/src/tsfamily/version.rs:59-116 | Edits that add new and distinct ids keep every id in one place. |
| `LiveVersion.UpdateMaxLevelTs` | tskv/src/tsfamily/version.rs:118-133 | The scan over levels and files yields the fold of their timestamps. |
| `LiveVersion.HighestIs` | tskv/src/tsfamily/version.rs:118-133 | That fold bounds every file and is reached by one, or is i64::MIN. |
| `LiveVersion.MirrorsIffTidy` | tskv/src/tsfamily/version.rs:59-116 | A version that holds exactly the files and sequence number of the log still does after an edit, if and only if the edit is tidy. |
| `LiveVersion.MirrorsAllAlong` | tskv/src/tsfamily/version.rs:59-116 | Over any sequence of edits it does so at every point, if and only if every edit is tidy where it is applied. |
| `LiveVersion.OpenVersion` | tskv/src/summary.rs:520-536 | Recovered files pushed to their levels in any order, each once, give a version that mirrors the log, with the level timestamp of the log. |
| `SummaryRoll.BuildVersionEdit` | tskv/src/tsfamily/tseries_family.rs:334-350 | The edit lists the files of a live version level by level, as column files are written back, with the running maxima of `add_file`. |
| `SummaryRoll.MirrorLists` | tskv/src/tsfamily/tseries_family.rs:341-347 | For a version that mirrors the log that listing is exactly the log's files. |
| `SummaryRoll.ListingCount` | tskv/src/tsfamily/tseries_family.rs:341-347 | The edit lists each file exactly as often as its level has it. |
| `SummaryRoll.TsFamiliesVersionEdit` | tskv/src/version_set.rs:164-186 | One edit for every live vnode, built from its live version, in any order. |
| `SummaryRoll.RolledEditRecovers` | tskv/src/tsfamily/tseries_family.rs:334-350 | Recovering a rolled edit gives the version back, except the level timestamp of a version without files; the file counter is the largest live id. |
| `SummaryRoll.RolledLogRecovers` | tskv/src/summary.rs:629-639 | A log rolled from mirroring versions recovers to exactly the live vnodes, with the log's files and sequence numbers, the live level timestamps, and their largest file ids. |
| `SummaryRoll.SameVersionsStaySame` | tskv/src/summary.rs:461-485 | States with the same versions stay so under every further sequence of edits. |
| `SummaryRoll.RollingIsTransparent` | tskv/src/summary.rs:620-639 | Full and rolled log agree after every further sequence of edits if and only if every vnode of the full log is live and has the level timestamp its live version writes. |
| `SummaryRoll.AddFileKeepsBounded` | tskv/src/summary.rs:292-296 | `add_file` keeps the edit's file id an upper bound of its files. |
| `SummaryRoll.LiveFilesBelow` | tskv/src/summary.rs:487-506 | If every edit bounds its files, every live file id is at most its vnode's recovered maximum. |
| `SummaryRoll.NextFileIdIsFresh` | tskv/src/summary.rs:540-540 | Then the recovered counter exceeds every live file id. |
| `SummaryRoll.FreshIffBounded` | tskv/src/summary.rs:487-540 | After every log of bounded edits followed by this one the counter is fresh, if and only if this edit is a delete or bounds the files it adds. |
| `SummaryRoll.UnboundedEditLosesFreshness` | tskv/src/database.rs:181-191 | An edit whose files were renumbered without raising its file id recovers to a counter that a live file has reached. |
| `SummaryRoll.FreshAfterRolling` | tskv/src/summary.rs:620-639 | After a roll and any bounded edits the recovered counter exceeds every live file. |
| `SummaryNode.RerolledMirrors` | tskv/src/summary.rs:637-639 | A rolled edit applied to the version it was built from leaves the files it holds as they are. |
| `SummaryNode.RollDoublesFiles` | tskv/src/summary.rs:637-639 | Each roll doubles the files every level of a live version lists. |
| `SummaryNode.AppliedStamps` | tskv/src/tsfamily/version.rs:106-133 | After any edit the live level timestamp is the greatest of the files the log describes. |
| `SummaryNode.StepKeepsInv` | tskv/src/summary.rs:404-648 | Every vnode change, roll and restart keeps live versions in step with the file being written, and their level timestamps as stated. |
| `SummaryNode.RunKeepsInv` | tskv/src/summary.rs:404-648 | The same over every run. |
| `SummaryNode.LiveMirrorsLog` | tskv/src/summary.rs:404-648 | In every reachable state each live version holds exactly the files, sequence number and owner that the current file describes. |
| `SummaryNode.VnodeStepIsExact` | tskv/src/summary.rs:555-618 | Adding, updating or removing a vnode records one edit and changes that vnode alone, in the file and in memory; a removed one is in neither. |
| `SummaryNode.RollIsTransparent` | tskv/src/summary.rs:620-639 | In every reachable state: the condition of `SummaryRoll.RollingIsTransparent` in terms of what the file describes, which vnodes are live and which have been edited since they were opened. |
| `SummaryNode.CompactionLowersTs` | tskv/src/compaction/writer_wrapper.rs:66-77 | Create, flush up to 100, compact down to 50: a run after which no rolled log is equivalent to the full one. |
| `SummaryNode.MissingDatabaseIsRolledAway` | tskv/src/summary.rs:508-514 | A vnode whose database is missing at a restart is in the file and not in the next rolled log. |
| `SummaryNode.SummaryFileIsFrozen` | tskv/src/summary.rs:629-645 | After a roll nothing but a restart touches the summary file, which is what the restart reads. |
| `SummaryNode.EditsSurviveIffNotRolled` | tskv/src/summary.rs:620-648 | Whatever edits follow, the summary file describes the same versions as the current file, if and only if the node has not rolled since it started. |
| `SummaryStore.SummaryWriter.constructor` | tskv/src/summary.rs:359-396 | A new summary holds the default edit and no vnode. |
| `SummaryStore.SummaryWriter.ApplyVersionEdit` | tskv/src/summary.rs:555-618 | The edit is appended to the current file and applied to the live version of its vnode, and to no other. |
| `SummaryStore.SummaryWriter.AddTsfamily` | tskv/src/database.rs:137-226 | An empty version and then its add edit: the add step, invariant kept. |
| `SummaryStore.SummaryWriter.Update` | tskv/src/summary.rs:555-618 | The update step of a live vnode, invariant kept. |
| `SummaryStore.SummaryWriter.DelTsfamily` | tskv/src/database.rs:228-243 | The remove step; nothing for an unknown vnode. |
| `SummaryStore.SummaryWriter.RollSummaryFile` | tskv/src/summary.rs:620-648 | Nothing below the size limit; otherwise the roll step: rolled edits in the temporary file, each applied again, the writer left there. |
| `SummaryStore.SummaryWriter.Recover` | tskv/src/summary.rs:404-441 | The restart step from the summary file; it fails exactly on a failed lookup. |
| `EditFrames.EncodeVec` | tskv/src/summary.rs:259-270 | The buffer is the concatenation of four length bytes and payload per edit. |
| `EditFrames.DecodeVec` | tskv/src/summary.rs:272-290 | The position loop reads frames until one does not fit, and fails exactly on an undecodable payload. |
| `EditFrames.FrameLayout` | tskv/src/summary.rs:263-266 | A frame is the payload length in four bytes, the highest first, and then the payload. |
| `EditFrames.DecodeOfPayloads` | tskv/src/summary.rs:272-290 | A buffer cut anywhere fails exactly if a payload wholly in it does not decode; otherwise each such payload is read, in order. |
| `EditFrames.DecodeOfPrefix` | tskv/src/summary.rs:259-290 | Decoding the first n bytes of an encoding returns exactly the edits whose frames lie in them, each as its serialised form reads back, for every n. |
| `EditFrames.WholeFramesIsLargest` | tskv/src/summary.rs:275-283 | That count is the largest whose frames end within n bytes. |
| `EditFrames.RoundTrip` | tskv/src/summary.rs:175-176 | The whole buffer gives the edits back if and only if none has partly-deleted files. |
| `FileIds.GlobalContext.FileIdNext` | tskv/src/context.rs:24-26 | Returns an id not below the counter and leaves the counter just above it; other threads may raise the counter up to the atomic step. |
| `FileIds.GlobalContext.MarkFileIdUsed` | tskv/src/context.rs:33-44 | Terminates with the counter above v and never lowered, although other threads may raise the counter between any two accesses. |
| `FileIds.StepKeepsInv` | tskv/src/context.rs:24-44 | Every atomic step of every thread keeps the counter above all that was issued or marked. |
| `FileIds.CounterMovesAsNeeded` | tskv/src/context.rs:24-44 | An id is the counter's own value, and the counter moves no further than past it, or past the id marked. |
| `FileIds.RunKeepsInv` | tskv/src/context.rs:24-44 | The same over every interleaving of any number of threads. |
| `FileIds.FailedExchangeProgresses` | tskv/src/context.rs:36-42 | A failed exchange strictly raises the value the thread retries with. |
| `FileIds.IdsAreUnique` | tskv/src/context.rs:24-44 | Under every interleaving issued ids increase strictly, and stay above every v whose mark has returned. |
| `FileIds.IssuedIdsAvoidLiveFiles` | tskv/src/summary.rs:487-540 | After recovery from bounded edits no id ever issued names a live file. |
| `RateBucket.Limiter.constructor` | common/limiter_bucket/src/rate_bucket.rs:343-364 | Refill, interval and first deadline; the given maximum, or ten times the larger of refill and initial; the initial balance, capped; usable if the interval is positive. |
| `RateBucket.Limiter.UpdateCritical` | common/limiter_bucket/src/rate_bucket.rs:231-240 | The refill with saturation, wrap-around and cap, and the new deadline. |
| `RateBucket.Limiter.AcquireClosed` | common/limiter_bucket/src/rate_bucket.rs:242-258 | Grants the smaller of the request and the refilled balance, and leaves the rest. |
| `RateBucket.Limiter.Acquire` | common/limiter_bucket/src/rate_bucket.rs:260-275 | Granted exactly if the refilled balance suffices; a refusal takes nothing. |
| `RateBucket.RefillDeadline` | common/limiter_bucket/src/rate_bucket.rs:378-398 | The new deadline lies in (now, now + interval], less than 1 ms past the exact grid point. |
| `RateBucket.TokensArePeriods` | common/limiter_bucket/src/rate_bucket.rs:378-398 | A refill pays for exactly the periods begun since the deadline. |
| `RateBucket.GrantIsExact` | common/limiter_bucket/src/rate_bucket.rs:242-275 | With one refill per period begun, capped: `acquire` is granted exactly if that suffices, `acquire_closed` gets the smaller of the two, and either leaves the difference. |
| `RateBucket.RefillUsesPeriods` | common/limiter_bucket/src/rate_bucket.rs:378-398 | Periods paid by a refill plus those still to come by t never exceed those due before it. |
| `RateBucket.TotalIsBounded` | common/limiter_bucket/src/rate_bucket.rs:231-275 | Any run of calls grants at most the balance and one refill per period due. |
| `RateBucket.GrantedSinceBuild` | common/limiter_bucket/src/rate_bucket.rs:343-364 | Since the build: at most the initial balance and one refill per whole interval elapsed. |
| `RateBucket.WindowIsBounded` | common/limiter_bucket/src/rate_bucket.rs:231-275 | In a window of length L: at most max + refill * (L / interval + 1). |
| `RateBucket.EveryWindowIsBounded` | common/limiter_bucket/src/rate_bucket.rs:231-275 | The same for every window of every run since the build, and the balance never exceeds max. |
| `RateBucket.NothingIsLost` | common/limiter_bucket/src/rate_bucket.rs:231-275 | While max is out of reach, granted plus left equals start plus one refill per period paid, and the deadline has moved by exactly those periods up to 1 ms per call. |
| `Placement.AllocationReplicationSet` | common/models/src/meta_data.rs:326-368 | Set s has id begin + s(r+1), the next r ids for its vnodes on nodes sr, sr+1, ... modulo the node count, its first vnode as leader; r is the replica count asked for, one if that is zero, the node count if it exceeds that; the used count is shards(r+1). |
| `Placement.IdsAreConsecutive` | common/models/src/meta_data.rs:340-367 | All ids handed out, in order, are begin, begin + 1, ...: no gap, no repeat. |
| `Placement.ReplicasOnDistinctNodes` | common/models/src/meta_data.rs:353-362 | Replicas of one set are on distinct nodes, and the leader is one of them. |
| `Placement.NodesInRotation` | common/models/src/meta_data.rs:353-360 | Read across sets, vnode k of the whole allocation is on node k modulo the node count. |
| `Placement.LoadIsBalanced` | common/models/src/meta_data.rs:353-360 | Vnodes per node differ by at most one over the whole allocation. |
| `TimeBuckets.RangeIsCell` | common/models/src/meta_data.rs:308-324 | On both sides of zero the range is the grid cell of the timestamp, cut to 64 bits. |
| `TimeBuckets.RangeContains` | common/models/src/meta_data.rs:308-324 | The range contains its timestamp for every timestamp but i64::MAX. |
| `TimeBuckets.RangeIsAligned` | common/models/src/meta_data.rs:308-324 | Both ends are multiples of the duration unless cut off. |
| `TimeBuckets.RangesEqualOrDisjoint` | common/models/src/meta_data.rs:308-324 | Two ranges of one duration are equal or disjoint, cut off or not. |
| `TimeBuckets.BucketByTimestamp` | common/models/src/meta_data.rs:276-288 | A bucket containing the timestamp; none exactly when no bucket does. |
| `TimeBuckets.CreationKeepsDisjoint` | meta/src/store/storage.rs:1176-1236 | Creation on a miss, with a duration that divides all those the table was made with, keeps buckets disjoint if and only if the timestamp is not i64::MAX, its range is empty, or no bucket reaches i64::MAX. |
| `TimeBuckets.SafeDurationIffRefines` | meta/src/store/storage.rs:1176-1236 | Creation with a duration keeps every disjoint table made with the given durations disjoint, at every timestamp below i64::MAX, if and only if it divides each of them; durations that are not positive included. |
| `TimeBuckets.LongerDurationOverlaps` | meta/src/store/storage.rs:1176-1236 | Durations 10 and then 15: the bucket created for 12 overlaps the one created for 5. |
| `TimeBuckets.BucketsStayDisjoint` | meta/src/store/storage.rs:1176-1236 | After every run of creations below i64::MAX and removals in which each new duration divides the earlier ones, the buckets are disjoint. |
| `TimeBuckets.LookupIsUnique` | common/models/src/meta_data.rs:276-288 | In disjoint buckets the lookup returns the one bucket that contains the timestamp. |
| `TimeBuckets.MissAtTheEnd` | common/models/src/meta_data.rs:276-288 | No table of buckets has one for i64::MAX. |
| `TimeBuckets.CreatedIsFound` | meta/src/store/storage.rs:1184-1225 | A lookup after a creation succeeds for every timestamp but the last. |
| `TimeBuckets.CreatedIsExact` | meta/src/store/storage.rs:1176-1236 | A hit leaves the table alone; a miss appends one bucket with the range of the timestamp. |
| `TimeBuckets.RemovedIsExact` | meta/src/store/storage.rs:1241-1250 | Removal drops the bucket of that id and no other. |
| `TimeBuckets.MappingBucket` | common/models/src/meta_data.rs:290-305 | The selected buckets in table order; none for an unknown database. |
| `TimeBuckets.FilteredIsExact` | common/models/src/meta_data.rs:293-299 | A bucket is selected exactly when it is in the table, starts at or before the end of the query and ends at or after its start. |
| `TimeBuckets.FilteredInOrder` | common/models/src/meta_data.rs:293-299 | The selection takes the selected positions of the table, each once, in table order. |
| `TimeBuckets.PruningIsSafe` | common/models/src/meta_data.rs:290-305 | The bucket of every timestamp in [start, end] is selected; any other selected one is empty or ends at start. |
| `CircularCache.CircularBuffer.constructor` | common/cache/src/circular_kvcache.rs:25-32 | A ring of the given size; empty and usable if the size is positive. |
| `CircularCache.CircularBuffer.IsFull` | common/cache/src/circular_kvcache.rs:38-40 | True when every slot is in use, and for an empty ring of size one. |
| `CircularCache.CircularBuffer.GetTail` | common/cache/src/circular_kvcache.rs:46-52 | The newest key, if any. |
| `CircularCache.CircularBuffer.Push` | common/cache/src/circular_kvcache.rs:54-66 | Appends to the bounded sequence, dropping its oldest key when full, across the wrap-around. |
| `CircularCache.CircularBuffer.Pop` | common/cache/src/circular_kvcache.rs:69-82 | Removes and returns the oldest key. |
| `CircularCache.CircularBuffer.DropTail` | common/cache/src/circular_kvcache.rs:123-136 | Removes the newest key, across the wrap-around. |
| `CircularCache.CircularBuffer.DelBefore` | common/cache/src/circular_kvcache.rs:87-110 | Drains the leading keys below the given one, in order. |
| `CircularCache.CircularBuffer.DelAfter` | common/cache/src/circular_kvcache.rs:115-143 | Drains the trailing keys at or above the given one, newest first. |
| `CircularCache.CircularKVCache.constructor` | common/cache/src/circular_kvcache.rs:180-185 | A cache of the given capacity; empty and usable if it is positive. |
| `CircularCache.CircularKVCache.GetValue` | common/cache/src/circular_kvcache.rs:187-189 | A hit exactly for the keys the ring holds, with the value last put under that key. |
| `CircularCache.CircularKVCache.LastValue` | common/cache/src/circular_kvcache.rs:191-197 | The value of the newest key, if any. |
| `CircularCache.CircularKVCache.PutValue` | common/cache/src/circular_kvcache.rs:213-227 | Overwrites a cached key in place; a new key evicts the oldest one when full; map keys stay the ring's keys. |
| `CircularCache.CircularKVCache.DeleteBefore` | common/cache/src/circular_kvcache.rs:199-204 | Removes from ring and map exactly the leading keys below the given one. |
| `CircularCache.CircularKVCache.DeleteAfter` | common/cache/src/circular_kvcache.rs:206-211 | Removes from ring and map exactly the trailing keys at or above the given one. |
| `CircularCache.PutIsConsistent` | common/cache/src/circular_kvcache.rs:213-227 | A put keeps map keys equal to ring keys, without repeats, within capacity. |
| `CircularCache.PutEvictsOldest` | common/cache/src/circular_kvcache.rs:213-227 | A put changes one value or adds the key as the newest; only a full ring loses a key, and then its oldest alone. |
| `CircularCache.DelBeforeIsConsistent` | common/cache/src/circular_kvcache.rs:199-204 | A front delete keeps the same. |
| `CircularCache.DelAfterIsConsistent` | common/cache/src/circular_kvcache.rs:206-211 | A back delete keeps the same. |
| `CircularCache.DeletesAreExact` | common/cache/src/circular_kvcache.rs:84-143 | With ascending keys the deletes remove exactly the keys below, or from, the given one. |
| `CircularCache.CallKeepsRelated` | common/cache/src/circular_kvcache.rs:187-227 | One call keeps the cache a suffix of the unbounded map driven by the same calls. |
| `CircularCache.RunKeepsRelated` | common/cache/src/circular_kvcache.rs:187-227 | The same over every run of calls with ascending inserts. |
| `CircularCache.CacheAgreesWithMap` | common/cache/src/circular_kvcache.rs:187-227 | Over every run with ascending inserts each hit agrees with the unbounded map, and a non-empty last is the value of its greatest key. |
| `TagSet.NextTagSet` | common/protocol_parser/src/lib.rs:185-264 | The character loop computes the scan of the text, for every text, including the texts on which a slice is out of order. |
| `TagSet.SkipToken` | common/protocol_parser/src/lib.rs:193-240 | A well-escaped token changes nothing but the offset. |
| `TagSet.ScanPairs` | common/protocol_parser/src/lib.rs:193-264 | From any point of the text where a key starts, the remaining printed pairs are read in order. |
| `TagSet.ScanOfPrinted` | common/protocol_parser/src/lib.rs:185-264 | Scanning undoes printing: raw keys and values and the offset past the terminator, for a space and any rest, a final newline, or the end of the text. The first key starts with an alphanumeric or a backslash, where the scan starts. |
| `TagSet.NothingStarts` | common/protocol_parser/src/lib.rs:223-232 | A text without a character that starts a tag set holds none. |
| `TagSet.KeyAloneMissesName` | common/protocol_parser/src/lib.rs:240-249 | A first key without an equals sign is reported as a missing name. |
| `TagSet.EqualsAtTheEnd` | common/protocol_parser/src/lib.rs:206-212 | A key and an equals sign at the end of the text are incomplete. |
| `TagSet.CommaAtTheEnd` | common/protocol_parser/src/lib.rs:213-222 | Printed pairs and a comma at the end of the text are incomplete. |
| `LeaderExecutor.LeaderFirstIsStableSort` | coordinator/src/tskv_executor.rs:78-81 | A permutation with the leader node's vnodes first and either kind in its original order. |
| `LeaderExecutor.DoRequest` | coordinator/src/tskv_executor.rs:72-130 | The run goes through that order, each turn as the environment answered, until a turn that ends it or the last vnode; the result is the very answer of the last call, or the error of the leader update that kept a redirection from being made. |
| `LeaderExecutor.EndOfRun` | coordinator/src/tskv_executor.rs:91-112 | A turn ends the run exactly when it succeeds or fails directly with an error not worth a retry. |
| `LeaderExecutor.ResultIsLastAnswer` | coordinator/src/tskv_executor.rs:90-130 | The outcome of a run is the response of its last call, payload and error included, unless the leader update before a redirection failed. |
| `LeaderExecutor.RunGuarantees` | coordinator/src/tskv_executor.rs:72-130 | At most one direct and one redirected call per vnode, nothing after the first success or final error, success exactly when some call succeeded, and the meta service told exactly when another node leads. |
| `FileNames.SummaryRoundTrip` | tskv/src/file_utils.rs:47-63 | Every u64 is read back from its summary file name. |
| `FileNames.TsmRoundTrip` | tskv/src/file_utils.rs:125-159 | Every u64 is read back from its TSM file name. |
| `FileNames.SixDigitRoundTrip` | tskv/src/file_utils.rs:96-123 | WAL and binlog ids are read back exactly below 1,000,000; longer ones are refused. |
| `FileNames.NamesAreDistinct` | tskv/src/file_utils.rs:218-220 | Different ids never share a file name. |
| `FileNames.GetMaxSequenceFileName` | tskv/src/file_utils.rs:180-214 | The largest id, and a file that has it exactly when the id is positive or the first name parses. |
| `FileNames.GetFileIdRange` | tskv/src/file_utils.rs:226-273 | The smallest and largest id of the names that parse; none exactly when none does. |

## Left out

- openraft's election and replication, the gRPC and HTTP transport, `multi_raft.rs` and `raft_node.rs`: only openraft's calling rules matter to the storage layer.
- LMDB, JSON, bincode, regular-expression and UTF-8 library internals: maps, exact inverses, and the functions they compute.
- A crash in the middle of a callback, and fsync: last-applied and the engine are written in separate transactions, so nothing is promised there.
- The string form of a snapshot id, votes, node summaries, metrics and `destory`: easy members.
- The vnode engine and the meta state machine behind the same `ApplyStorage` interface; `HeedApplyStorage` is the engine modelled.
- Column-file contents, bloom filters, readers and how compaction picks its files: an edit is a given of the model.
- A change of a vnode interleaved with a roll, and a roll that fails half way: summary tasks are taken one at a time, and each is one step.
- Sharded caches, `ColumnDataRef`, `MutableBatch`, `CountBucket`, `GreedyMemoryPool`, configuration, command line, tracing.
- NodeStore.NodeStorage.PurgeLogsUpTo: requires an index below u64::MAX, where the source's `index + 1` overflows.
- NodeStore.NodeStorage.TryGetLogEntries: requires bounds at which the source's `+ 1` does not overflow.
- Summary.RecoverVersion: file ids are unbounded, so `max_file_id + 1` does not wrap at 2^64.
- EditFrames.DecodeOfPrefix: payloads of 2^32 bytes or more, whose length bytes are truncated, are excluded.
- EditFrames.RoundTrip: the same.
- SummaryStore.SummaryWriter.ApplyVersionEdit: requires levels below five; the source indexes an array with them.
- FileIds.GlobalContext.FileIdNext: the counter is unbounded here; in the interleaving model a step that would reach 2^64 is not taken.
- Placement.AllocationReplicationSet: requires a node when there is a shard, and no u32 overflow; the source panics otherwise.
- RateBucket.Limiter.constructor: promises a usable bucket for a positive interval only; the source divides by it.
- CircularCache.CircularBuffer.constructor: promises a usable ring for a positive size only; the source takes a remainder by it. Keys are integers.
- FileNames.SixDigitRoundTrip: names are ASCII, and the suffix has no underscore, as `wal` and `binlog` have none.
