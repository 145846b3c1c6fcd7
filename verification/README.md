# PgFuse: a verified model

PgFuse keeps a POSIX-like file system in two PostgreSQL tables: `dir`, one row per entry with a
link to its parent, and `data`, the blocks of each file. This project models the block store, the
directory tree, the connection pool and the FUSE hooks that join them, and proves what they keep
over whole runs. `dafny verify dfyconfig.toml` checks it.

How the parts fit together:

- `FlatFile` is the POSIX view of a file. `BlockInfo` and `BlockStore` give rows of blocks a meaning
  as a flat file; `SparseRead`, `ReadPass` and `ReadBack` cover reading.
- `Tree` and `TreeChanges` are about paths: descent, climbing, and what one changed row does to
  every path.
- `Changes` and `Runs` turn each successful hook into one change of the tables and prove integrity
  and refinement for every sequence of changes.
- `Session` is one transaction with the SQL statements and the `psql_*` functions. An arbitrary `Server`
  value says for each hook which connections are alive, whether BEGIN, COMMIT and ROLLBACK work, and
  which statements fail. `Hooks` holds what each hook does between BEGIN and COMMIT. `Mount` adds acquire,
  begin, commit, rollback and release. A mount carries a log of committed changes, and its
  invariant says that the tables are the result of that log, so every theorem of `Runs` holds of
  every run of hooks. Read-only hooks are logged as `Nothing`. `Serving` runs scripts of requests and
  ties every reply to the log before and after it; `Outcomes` says what this means in terms of paths:
  when a request goes through, what an error code means, what happens to the names.
- `Pool` is the pool under its lock, `PoolSteps` the same pool under any interleaving of threads.
- `Timestamp` is the conversion of times.

Where the code departs from what it is evidently for, the model keeps the code and the lemmas say
exactly when it is right:

- Truncating to 0 keeps the whole first block, and sizes of 2^31 blocks and more lose live blocks
  (`TrustedSizesExactly`, `ResizeRightExactly`, `RunRightExactly`, `TruncateToZeroResurrects`). The
  parameter `Cut` selects the text of `psql_truncate`: as written, or as intended.
- A read that does not start at a block boundary leaves part of the buffer unwritten or overruns it,
  and on a little-endian host a block behind a hole is read in place of the hole
  (`AsWrittenReadExactly`, `AsWrittenOverrunsExactly`, `LittleEndianMergeExact`). The parameter `Reader`
  selects the text of `psql_read_buf`: as written, or with the two slips put right. All other code
  has one version.
- A read beyond the end of a file fails with EIO or crashes instead of returning 0
  (`ReadCrashesExactly`).
- A path that goes through a file resolves to that file (`WalkIsPosixExactly`).
- An empty write beyond the end extends the file (`WriteIsPosixExactly`).
- A hook whose BEGIN, COMMIT or ROLLBACK fails keeps its connection (`Finish`).
- `rename` has no guard against moving the root or a directory below itself
  (`MoveKeepsTreeExactly`); its early returns keep the connection (`RenameUntilBlocked`).
- `create` returns 0 although it rolled back, exactly when its last look-up fails (`CreateBody`,
  `CreateReturnsZeroForNothing`).
- Times before 2000-01-01 do not survive storing (`EncodeDecodeExactly`).

Conventions: a path is a sequence of non-empty names without slashes, as `strtok_r` yields them.
Lengths of reads and writes are below 2^31 because the functions return them as `int`; offsets of
reads are below 2^63. What a hook does "with BEGIN, COMMIT and ROLLBACK working" is stated under `Works`
of that value. The check that the kernel makes before a rename is `KernelAllows`.

## Model

| member | source | states |
|---|---|---|
| FlatFile.WriteInside | pgfuse.c:738-797 | inside the file a write replaces as many bytes as it carries, across the end it appends the rest: stated as slices |
| FlatFile.WriteBeyond | pgfuse.c:772-774 | at or beyond the end it appends zeros up to the offset and its bytes, and the file ends there |
| FlatFile.ResizeCutsOrPads | pgfuse.c:831-936 | truncating cuts the tail off or appends zeros: stated as slices |
| FlatFile.ReadInParts | pgsql.c:339-342 | reading a range in two parts reads the same bytes; nothing is read at or beyond the end |
| FlatFile.ReadBackWritten | pgfuse.c:738-829 | what was written is read back, and no byte more if it was written at the end |
| BlockInfo.ToInt32 | pgsql.c:69-74 | the conversion to `int` is the identity exactly on the 32-bit range |
| BlockInfo.ToInt32Wraps | pgsql.c:69-74 | it differs from the given value by a multiple of 2^32 |
| BlockInfo.InfoFacts | pgsql.c:66-93 | for a non-empty range whose block count fits: the first and last block are the blocks of the first and last byte, and the two partial lengths add up |
| BlockInfo.PiecesTile | pgsql.c:66-93 | first piece, whole blocks and last piece are adjacent, start at `offset`, end at `offset + len`, and none is empty or leaves its block |
| BlockInfo.ByteInOnePiece | pgsql.c:66-93 | every byte of the range lies in exactly one piece, that of its own block |
| BlockInfo.NarrowingExact | pgsql.c:69-81 | the `int` block count gives the right last block if and only if the mathematical count is below 2^31 |
| BlockInfo.IntLengthFits | pgsql.c:670-678 | a length that fits the `int` it is returned in never overflows the block count |
| BlockInfo.BeyondExactly | pgsql.c:339-344 | with the size wrapped around beyond the end of a file, and a block size dividing 2^32, no block is copied if and only if the offset lies behind the last block of the file |
| BlockStore.FourFormsAreOneSplice | pgsql.c:584-606 | on a full-length block the four UPDATE forms are one and the same splice |
| BlockStore.OneBlockSplice | pgsql.c:565-668 | a single block write, absent block taken as zeros, is the splice of its bytes into the file |
| BlockStore.SpliceAppend | pgsql.c:696-713 | two adjacent splices are one splice of the concatenated buffer |
| BlockStore.SplicedByte | pgsql.c:670-724 | after a buffer write a byte differs exactly inside the written range of the written file |
| BlockStore.TruncatedByte | pgsql.c:751-768 | after DELETE and padding a byte survives exactly below the kept length, or in another file |
| BlockStore.KeptBytesExact | pgsql.c:84-90 | truncate keeps the requested number of bytes if and only if that number is positive and its block count fits an `int`; for 0 it keeps one block |
| BlockStore.KeptBytesIntended | pgsql.c:744-768 | the intended truncate (0 deletes every block, 64-bit block count) keeps exactly the requested number of bytes, whatever it is |
| SparseRead.NetworkLongReadsHalf | pgsql.c:371-374 | byte by byte: the 64-bit load narrowed to 32 bits picks four of the eight bytes, and `ntohl` gives their network value |
| SparseRead.RowsSound | pgsql.c:350-351 | every row of the SELECT is a stored block of the range, in strictly ascending order |
| SparseRead.RowsComplete | pgsql.c:350-351 | no stored block of the range is missing from the rows |
| SparseRead.MergeRightExactly | pgsql.c:367-382 | for every reader and every row set the pass is right if and only if each row with a non-zero byte is taken under its own number |
| SparseRead.MergeFindsBlocks | pgsql.c:367-382 | with numbers decoded as stored, the pass uses for each block number the stored block if there is one and the zero block otherwise |
| SparseRead.LittleLanding | pgsql.c:371-378 | on a little-endian host `ntohl` makes the pass take the j-th row under the j-th number of a range of fewer than 2^32 blocks, holes or not |
| SparseRead.LittleEndianMergeExact | pgsql.c:370-382 | there the pass over fewer than 2^32 blocks is right if and only if no block with a non-zero byte lies behind a hole of the range |
| SparseRead.BigEndianMerges | pgsql.c:370-382 | on a big-endian host it is always right below block 2^32 |
| SparseRead.LittleEndianHoleWitness | pgsql.c:370-382 | a concrete file whose hole is read as the block stored after it |
| SparseRead.ReadIsSlice | pgsql.c:365-422 | a read that merges right, and is the intended one or starts at a block boundary, fills the buffer with the slice of the file |
| SparseRead.UnalignedReadWrong | pgsql.c:385-390 | a read as written that starts inside a block is wrong for some buffer content, whatever the file |
| SparseRead.AsWrittenReadExactly | pgsql.c:365-410 | the read as written does not overrun and returns the slice into every buffer if and only if it starts at a block boundary and each row with a non-zero byte is taken under its own number; on a little-endian host: and no such row lies behind a hole |
| SparseRead.AsWrittenOverrunsExactly | pgsql.c:387-387 | the length of the first `memcpy` wraps around if and only if the first piece is shorter than its offset, the empty read included |
| SparseRead.AsWrittenBytes | pgsql.c:385-390 | every byte of the buffer after a read as written: exactly `offset % block size` bytes at the end of the first piece keep their old value |
| ReadPass.Memcpy | pgsql.c:387-401 | the buffer changes exactly on the copied window |
| ReadPass.CopyPiece | pgsql.c:384-404 | first, last and intermediary block each put their piece into the buffer and nothing else changes |
| ReadPass.MergePass | pgsql.c:365-410 | the loop copies exactly the requested number of bytes and leaves the wanted content in front of an otherwise untouched buffer |
| ReadPass.FillBuffer | pgsql.c:344-422 | the pass over the rows of the SELECT leaves `ReadBytes` in the buffer and returns the requested size |
| ReadBack.ReadAfterRun | pgsql.c:308-423 | after every run with harmless truncates a read, cut at the end of the file, returns what POSIX read returns on the flat file of the same run; as written under the exact condition above |
| ReadBack.ReadlinkAfterSymlink | pgfuse.c:1242-1276 | reading back a new symbolic link yields its target, for every target, block size, host and for the code as written |
| ReadBack.SparedRun | pgsql.c:565-799 | a file that later changes neither write, resize nor remove keeps its size, kind and rows |
| ReadBack.SameRead | pgsql.c:308-423 | files with the same rows are read alike by every reader |
| ReadBack.LinkSurvives | pgfuse.c:1383-1425 | a link reads back as its target after any run that makes it and then leaves it alone, also if it is moved |
| Tree.WalkIsPosixExactly | pgsql.c:114-158 | the token loop agrees with POSIX resolution if and only if the path does not go through a file |
| Tree.WalkToDir | pgsql.c:115-158 | when the loop ends at a directory, every component was consumed |
| Tree.FoundPathIsPrefix | pgsql.c:115-158 | what the loop finds lies on the given path |
| Tree.NoCycle | schema.sql:13-13 | in a rooted table no entry but the root is its own ancestor |
| Tree.PathResolves | pgsql.c:95-159 | the path built by climbing from an entry resolves back to that entry |
| Tree.ResolvedPath | pgsql.c:95-159 | a path that resolves is the climbed path of what it resolves to |
| Tree.DistinctPaths | pgsql.c:95-159 | two different paths never name the same entry |
| TreeChanges.MoveKeepsTree | pgsql.c:883-884 | a guarded move keeps root, parents, unique names and reachability of the root |
| TreeChanges.MoveKeepsTreeExactly | pgfuse.c:1285-1381 | the UPDATE keeps the tree if and only if the entry is not the root and the target is not below it (or nothing changes) |
| TreeChanges.MoveIntoItselfWitness | pgfuse.c:1285-1381 | a concrete directory that a move below its own child cuts off |
| TreeChanges.WalkBelowMove | pgsql.c:883-884 | below a moved entry every walk goes as before |
| TreeChanges.WalkAwayFromMove | pgsql.c:883-884 | a walk through neither the old nor the new place goes as before |
| TreeChanges.RenameMovesSubtree | pgsql.c:849-903 | every path below the old place resolves to the same id below the new one, nothing is left behind, all other paths are untouched |
| TreeChanges.AddKeepsTree | pgsql.c:286-287 | a new row in a free slot of a directory keeps the tree |
| TreeChanges.AddOnlyAddsPath | pgsql.c:286-287 | the new entry is found at its path, where and below which nothing was, and no other path changes |
| TreeChanges.RemoveKeepsTree | pgsql.c:528-529 | removing a childless entry keeps the tree, and adding it back restores it |
| TreeChanges.RemoveOnlyRemovesPath | pgsql.c:528-529 | a removed entry takes its own path with it and no other |
| TreeChanges.SameLinksSameWalk | pgsql.c:242-269 | changing only sizes leaves every path as it was |
| Changes.ApplyKeepsTree | schema.sql:12-14 | every committed change keeps the tree |
| Changes.ApplyKeepsInv | schema.sql:12-24 | every change keeps tree, full-length blocks, and that each block belongs to an existing entry that is no directory |
| Changes.ByteAfter | pgsql.c:565-799 | what each change does to each byte of each file |
| Changes.ApplyKeepsClean | pgsql.c:764-768 | every change, truncates on the stated condition, leaves only zeros beyond the end of each file |
| Changes.ApplyRefinesFlat | pgfuse.c:738-936 | each change acts on flat files as ftruncate, creation, removal, and as the hook's own write, which also grows a file on an empty write |
| Runs.GenesisOk | schema.sql:46-47 | the tables of a fresh schema satisfy all invariants and hold no file |
| Runs.RunKeepsInv | schema.sql:1-24 | integrity after every run of changes |
| Runs.RunRefinesFlatFiles | pgfuse.c:738-936 | every run with harmless truncates produces exactly the flat files of the same run |
| Runs.IntendedRunRefinesFlatFiles | pgfuse.c:738-936 | with the intended truncate every run does, without any condition |
| Runs.RunRightExactly | pgfuse.c:738-936 | a run is right, with nothing left behind the end of any file, at every point if and only if each truncate met a file on which it is harmless |
| Runs.PlainRunRefinesFlatFiles | pgfuse.c:738-936 | in particular every run that never truncates to 0 or past the `int` limit |
| Runs.ResizeRightExactly | pgsql.c:726-799 | on a given file truncate is right if and only if the bytes between kept and requested length are zero |
| Runs.TrustedSizesExactly | pgsql.c:744-768 | a size is handled right on every file if and only if it is positive and its block count fits an `int` |
| Runs.TruncateToZeroResurrects | pgsql.c:744-768 | the first byte of any file survives truncation to 0 and reappears when the file grows |
| Runs.WriteIsPosixExactly | pgfuse.c:772-774 | the size rule of the write hook is POSIX if and only if the write is not empty or starts inside the file |
| Runs.WrittenContent | pgfuse.c:772-792 | the file after a write as slices of the old one: as long as it was, or up to the last byte written and no further |
| Runs.FlatRunIsPosix | pgfuse.c:738-797 | without empty writes the flat files of a run are those of POSIX write |
| Runs.RemoveFrees | pgsql.c:946-946 | removal lowers the blocks-used figure by one plus the blocks of the entry, and deletes those blocks and no others |
| Runs.BlocksUsedGrow | pgsql.c:946-946 | the figure is 1 for a fresh schema; a new entry adds one, a link also the blocks of its target; a rename adds none |
| Runs.RowsAfterWrite | pgsql.c:670-724 | after a write exactly the old blocks and those that overlap the written range are stored |
| Runs.RowsAfterResize | pgsql.c:751-768 | after a truncate exactly the blocks that begin below the kept length are stored |
| Runs.KindAsMade | pgfuse.c:371-371 | after every run each entry but the root has the kind of the request that made it |
| Runs.KindKept | pgsql.c:242-269 | an entry that is not removed keeps its kind through writes, truncates and renames |
| Runs.AddThenRemove | schema.sql:39-41 | creating and removing an entry restores both tables |
| Session.Session.SelectChild | pgsql.c:120-121 | the row with that name and parent, if any |
| Session.Session.InsertEntry | pgsql.c:286-287 | one new row if and only if the statement works and the keys allow it, else an aborted transaction and no change |
| Session.Session.DeleteEntry | schema.sql:39-41 | row and, for a non-directory, its blocks go together; no child or block is ever orphaned |
| Session.Session.UpdateBlock | pgsql.c:620-634 | the stored block is replaced by the value of the chosen UPDATE form; the count tells whether the row existed |
| Session.Session.PathToId | pgsql.c:95-159 | the token loop computes `Walk`; a missing component gives ENOENT, and EIO if and only if one of its SELECTs fails |
| Session.Session.ReadMeta | pgsql.c:163-229 | the row of the id narrowed to `int`, the id as given; ENOENT, or EIO if and only if the SELECT fails |
| Session.Session.ReadMetaFromPath | pgsql.c:231-240 | path resolution followed by the row of the found id; EIO if and only if one of the counted SELECTs fails |
| Session.Session.WriteMeta | pgsql.c:242-269 | size and mode of the one row, everything else unchanged |
| Session.Session.CreateEntry | pgsql.c:271-306 | the complete new row, or no change and EIO |
| Session.Session.DeleteDir | pgsql.c:493-540 | refuses a directory with entries, and the root, without touching anything |
| Session.Session.DeleteFile | pgsql.c:542-563 | removes entry and blocks together, or nothing |
| Session.Session.Rename | pgsql.c:849-903 | changes parent and name of one row if both parents are directories and the slot is free; else nothing |
| Session.Session.Readdir | pgsql.c:425-456 | one filler call per row: each name of the directory exactly once, without the root's own |
| Session.ListingIsWhatResolves | pgsql.c:436-451 | a directory lists exactly the names that resolve below it |
| Session.Session.GetBlockSize | pgsql.c:905-930 | the length of some stored block, or the given size |
| Session.Session.WriteBlock | pgsql.c:565-668 | update, insert and update again end after at most one retry with one splice of the block |
| Session.Session.WriteBuf | pgsql.c:670-724 | first, full and last blocks together are one splice of the whole buffer, the result is its length |
| Session.Session.Truncate | pgsql.c:726-799 | DELETE, padding and new size exactly as computed, or as intended, other files untouched |
| Session.Session.ReadBeyond | pgsql.c:339-344 | beyond the end of a file: EIO when the wrapped range is empty, else a wrapped copy |
| Session.Session.ReadBuf | pgsql.c:308-423 | size rule, wrap-around cases and buffer content of a read |
| Hooks.WriteBody | pgfuse.c:756-792 | the write and the size update form one `WriteAt` change; the size is the larger of the old one and the end of the write; goes through exactly on a read-write mount and an existing file |
| Hooks.ReadBody | pgfuse.c:815-824 | the bytes, count and error codes of a read, and exactly when it crashes |
| Hooks.ReadCrashesExactly | pgsql.c:339-390 | for block sizes dividing 2^32: a read crashes if and only if its offset is beyond the end but in the last block, or, as written, it starts too far inside its block for what is left to read |
| Hooks.TruncateBody | pgfuse.c:847-879 | one `Resize` of the resolved file; error codes |
| Hooks.FtruncateBody | pgfuse.c:903-931 | one `Resize` of the open file; error codes |
| Hooks.FindNewPlace | pgfuse.c:309-352 | the tests before the INSERT, the parent found, and exactly when a look-up fails |
| Hooks.CreateAndFind | pgfuse.c:368-403 | the INSERT of an empty regular file and the last look-up: the result is 0 as soon as the row is inserted, but it is kept only if the look-up works |
| Hooks.CreateBody | pgfuse.c:309-403 | one new empty file found at its path; the result is 0 if and only if the INSERT works, and then nothing is kept if and only if a statement of the last look-up fails |
| Hooks.CreateWitness | pgfuse.c:385-390 | on fresh tables, with the fourth statement failing, creating /a returns 0 without a file |
| Hooks.OpenBody | pgfuse.c:425-454 | the id of an existing file, nothing changed; error codes |
| Hooks.MkdirBody | pgfuse.c:536-589 | one new directory where nothing resolved before; error codes |
| Hooks.SymlinkBody | pgfuse.c:1202-1276 | one new link with its target stored; error codes |
| Hooks.ReadTarget | pgfuse.c:1414-1420 | the blocks of the link in front of the buffer, then a zero, or EIO |
| Hooks.ReadlinkBody | pgfuse.c:1399-1420 | the target in front of the buffer, then a zero; error codes |
| Hooks.UnlinkBody | pgfuse.c:661-685 | one `Remove` of a non-directory, exactly on a read-write mount and a path to a file; error codes |
| Hooks.RmdirBody | pgfuse.c:614-638 | one `Remove` of an empty directory, never the root; error codes |
| Hooks.RenameLookups | pgfuse.c:1308-1332 | the hook returns at once if and only if a look-up fails, the source is missing or the target exists |
| Hooks.RenameEarlyExactly | pgfuse.c:1308-1332 | the early returns in terms of the two paths: the source is missing, or the target exists and is not the root |
| Hooks.RenameBody | pgfuse.c:1308-1374 | which exits return at once, which roll back, and that a commit carries the complete move or nothing; result codes |
| Hooks.ParentWordIsDir | pgsql.c:222-224 | the wrongly decoded parent id is the parent or the root, so the check of the source parent always passes |
| Hooks.RenameIsMove | pgfuse.c:1372-1374 | with the kernel's check the UPDATE is an allowed move to a free place |
| Hooks.RenameHookMovesPaths | pgfuse.c:1285-1381 | for every suffix, `to` means what `from` meant, nothing is left at `from`, other paths are untouched |
| Hooks.IntendedReadIsFlat | pgsql.c:308-423 | the intended read is POSIX read, also at the end of the file |
| Mount.Mount.constructor | pgfuse.c:112-141 | a mount of tables left by any earlier run satisfies the invariant; a slot is available exactly if its connection came up |
| Mount.Mount.Enter | pgfuse.c:101-103 | the first available connection that is alive, and a transaction that sees the committed tables if BEGIN works; waiting exactly if no available connection is alive |
| Mount.Mount.Release | pgfuse.c:94-106 | releasing an acquired connection cannot fail and frees its own slot |
| Mount.Mount.Rollback | pgsql.h:58-63 | nothing is committed; transaction closed and slot free exactly if ROLLBACK works |
| Mount.Mount.Commit | pgsql.h:51-56 | all of the transaction, or nothing if it was aborted or COMMIT fails; the slot is free exactly if COMMIT works |
| Mount.Mount.Finish | pgsql.h:44-63 | failure atomicity: the log is extended by the complete change exactly if the hook commits and COMMIT works; slot and transaction are given back or, if COMMIT or ROLLBACK fails, lost |
| Mount.Mount.Write | pgfuse.c:738-797 | failure-atomic write; the new size; balanced use of the connection; result codes; goes through exactly on a read-write mount and an existing file |
| Mount.Mount.Read | pgfuse.c:799-829 | what ends up in the buffer, POSIX read for the intended reader; exactly when it crashes; balanced; result codes |
| Mount.Mount.Truncate | pgfuse.c:831-884 | failure-atomic truncate; balanced; result codes |
| Mount.Mount.Ftruncate | pgfuse.c:886-936 | failure-atomic ftruncate; balanced; result codes |
| Mount.Mount.Create | pgfuse.c:287-404 | failure-atomic create of an empty regular file; with BEGIN, COMMIT and ROLLBACK working the result is 0 without a file if and only if the look-up after the INSERT fails; balanced |
| Mount.CreateReturnsZeroForNothing | pgfuse.c:385-390 | a witness of that on fresh tables: result 0, no handle, nothing created |
| Mount.Mount.Open | pgfuse.c:407-459 | a handle on an existing file, tables unchanged; balanced; result codes |
| Mount.Mount.Mkdir | pgfuse.c:516-596 | failure-atomic mkdir; balanced; result codes |
| Mount.Mount.Symlink | pgfuse.c:1182-1283 | failure-atomic symlink with its target; balanced; result codes |
| Mount.Mount.Readlink | pgfuse.c:1383-1425 | content of the buffer, never out of bounds; balanced; result codes |
| Mount.Mount.Unlink | pgfuse.c:645-690 | failure-atomic unlink of a non-directory; goes through exactly on a read-write mount and a path to a file; balanced; result codes |
| Mount.Mount.Rmdir | pgfuse.c:598-643 | failure-atomic rmdir of an empty directory; balanced; result codes |
| Mount.Mount.Rename | pgfuse.c:1285-1381 | failure-atomic move; keeps the invariant under the kernel's check; the slot stays taken if and only if the source is missing, the target exists or a look-up of them fails (with BEGIN, COMMIT and ROLLBACK working); result codes |
| Mount.Mount.CommitMove | pgfuse.c:1372-1378 | the COMMIT after the UPDATE stores the complete move or nothing |
| Mount.RenameUntilBlocked | pgfuse.c:1305-1332 | renaming a missing file takes one slot per call until a caller waits; at the end each slot that was available is held by this thread or written off and all others are as before |
| Serving.ServeOne | pgfuse.c:287-1425 | each request that the kernel passes on is answered with EIO or its own code, with the latter if no statement fails; the log grows by exactly its change if it went through; waiting means that no slot is available |
| Serving.Serve | pgfuse.c:287-1425 | over every script of requests, readlink and guarded rename included: the trace chains logs, handles and replies of all requests, the invariant holds, and without renames no slot is held and no transaction open between hooks |
| Serving.ServedFlatFiles | pgfuse.c:738-936 | after every script the log has only grown and the tables are its flat files, with the intended truncate without any condition |
| Serving.FlatChange | pgfuse.c:287-1283 | a request that changes something does to the flat files what it should, by name and by handle |
| Serving.FlatRead | pgfuse.c:799-829 | a read hands over the slice of the flat file of the log before it, also as written under the exact condition |
| Serving.TraceIsFlat | pgfuse.c:287-1425 | with the intended reader and truncate every event of every script acts on flat files as the request should, reads and readlinks included |
| Serving.ReadlinkHandsOverTarget | pgfuse.c:1383-1425 | in any trace, a readlink on a path to a link that was left alone hands over the target it was made with, also as written; result codes |
| Serving.SymlinkThenReadlink | pgfuse.c:1182-1425 | the two hooks in sequence: the target and a zero in the buffer, or ENOMEM exactly if the buffer is too small, or EIO |
| Outcomes.HandleGoesThrough | pgfuse.c:738-936 | write and ftruncate go through, with their change logged, exactly on a read-write mount while the file exists |
| Outcomes.FilePathGoesThrough | pgfuse.c:645-884 | truncate and unlink go through exactly on a read-write mount and a path to a file |
| Outcomes.RmdirGoesThrough | pgfuse.c:598-643 | rmdir goes through exactly on a read-write mount, on an empty directory other than the root |
| Outcomes.MakingGoesThrough | pgfuse.c:287-404 | create, mkdir and symlink go through exactly on a read-write mount, at a free place in a directory, while there are ids |
| Outcomes.OpenGoesThrough | pgfuse.c:407-459 | open goes through exactly on a path to a file, on a read-only mount only for reading |
| Outcomes.ReadGoesThrough | pgfuse.c:799-829 | a read that returns goes through exactly on an existing file up to its end |
| Outcomes.ReadlinkGoesThrough | pgfuse.c:1383-1425 | readlink goes through exactly on a link whose target fits the buffer |
| Outcomes.RenameGoesThrough | pgfuse.c:1285-1381 | rename moves exactly on a read-write mount from an existing source to a free place in a directory, and also returns 0 for a regular file onto itself |
| Outcomes.NoEntryMeans | pgfuse.c:287-1425 | ENOENT is returned exactly if the path, the parent directory or the open file is missing, or the path is no link to read |
| Outcomes.WrongKindMeans | pgfuse.c:287-884 | exactly when EISDIR, EPERM, ENOTDIR and ENOTEMPTY are returned, by what the path leads to |
| Outcomes.InTheWayMeans | pgfuse.c:320-333 | exactly when EEXIST and EINVAL are returned by create and rename |
| Outcomes.ReadOnlyMeans | pgfuse.c:287-1381 | exactly when EROFS is returned, per request |
| Outcomes.RefusalMeans | pgfuse.c:738-936 | exactly when EBADF and ENOMEM are returned |
| Outcomes.ReadOnlyKeepsTables | pgfuse.c:287-1425 | on a read-only mount every request leaves both tables as they were |
| Outcomes.ReadOnlyMountStays | pgfuse.c:287-1425 | so does every script of requests |
| Outcomes.NamesKept | pgfuse.c:287-1425 | reads, writes, truncates, opens and whatever fails leave every path as it was |
| Outcomes.NamesAdded | pgfuse.c:287-1283 | create, mkdir and symlink make their path lead to a new entry of the right kind and size and change no other path |
| Outcomes.CreatedIsRegular | pgfuse.c:371-371 | what create made is no link to read, and renaming another entry onto it gives EEXIST |
| Outcomes.NamesRemoved | pgfuse.c:598-690 | unlink and rmdir take the path of the removed entry with them and no other |
| Outcomes.NamesMoved | pgfuse.c:1285-1381 | rename moves everything at and below its source to its target and nothing else |
| Mount.HooksRefineFlatFiles | pgfuse.c:738-936 | every run of hooks with harmless truncates refines flat files |
| Mount.AcceptsBlockSize | pgfuse.c:1686-1697 | the remount check accepts exactly the block size in use, or any size while no block is stored |
| Pool.DownwardScanFindsOwner | pool.c:151-155 | the downward scan finds every open connection at its own slot, even if a finished one had the same address |
| Pool.ConnPool.constructor | pool.c:61-71 | a slot is available exactly if its connection came up, else written off; open connections have addresses no later slot shares |
| Pool.ConnPool.AcquirePass | pool.c:114-125 | takes the first available slot whose connection is alive, writes off the dead ones before it, and finds none exactly if none is alive |
| Pool.ConnPool.Release | pool.c:143-168 | frees the slot found by the downward scan, EINVAL and no change if there is none; the pool stays sound if and only if that slot did not fail at start-up |
| PoolSteps.StepKeepsInv | pool.c:101-168 | every step of every thread keeps lock, ownership, scan and counting invariants |
| PoolSteps.RunKeepsInv | pool.c:101-168 | they hold in every reachable interleaving |
| PoolSteps.ExclusiveUse | pool.c:116-162 | no connection is in the hands of two threads, from acquire until its slot is freed, and no failed one in anybody's |
| PoolSteps.SlotsConserved | pool.c:101-168 | available, written-off and owned slots always add up to the pool size |
| PoolSteps.ErrorAbsorbs | pool.c:122-122 | a written-off slot is never used again |
| PoolSteps.WrittenOffOnlyWhenBad | pool.c:116-122 | in every run a slot is written off only while available and only if its connection has gone bad |
| PoolSteps.LiveConnectionsKept | pool.c:116-122 | no connection that is alive is ever lost to the pool |
| PoolSteps.ReleaseHitsOwnSlot | pool.c:151-162 | in every interleaving a release frees the very slot its thread acquired |
| PoolSteps.ScanIsAtomic | pool.c:107-125 | whatever other threads do, an acquire scan changes the slots as one undisturbed pass and takes the first slot that was available and alive when it began |
| PoolSteps.ReleaseIsAtomic | pool.c:143-164 | whatever other threads do, a release makes its own slot, the one the downward scan finds, available again and changes no other |
| PoolSteps.UseAndReturn | pool.c:101-168 | a complete run of one thread: acquire, use, release, and everything is as at the start |
| PoolSteps.StepCounts | pool.c:127-168 | no step breaks the wake-up inequality: while someone waits, available slots are matched by signals to come and threads awake |
| PoolSteps.NobodyWaitsInVain | pool.c:127-168 | if all acquirers wait and no signal is under way, no slot is available |
| PoolSteps.SomeThreadCanMove | pool.c:101-168 | while a thread waits and a slot is available, some thread inside the pool can move |
| PoolSteps.AtRestExactly | pool.c:101-168 | no deadlock: the threads inside cannot move if and only if none is inside other than waiting |
| PoolSteps.BusyStepsBounded | pool.c:101-168 | without new calls and spurious wake-ups the threads inside take no more steps than the work measure of the state they start in |
| PoolSteps.WaitersServed | pool.c:101-168 | under every scheduling they come to rest within that bound, and then no thread is left waiting while a slot is available |
| PoolSteps.DeadPoolStaysDead | pool.c:115-128 | once all connections failed, no acquire ever returns |
| Timestamp.ZeroIsYear2000 | pgsql.c:36-37 | the stored value 0 is midnight of 2000-01-01, counted by the calendar from 1970 |
| Timestamp.CountsMicroseconds | pgsql.c:44-55 | each unit of the stored value is a microsecond |
| Timestamp.DecodeEncode | pgsql.c:37-55 | reading and writing back a time stores the same 64 bits, whatever they are |
| Timestamp.EncodeDecodeExactly | pgsql.c:37-55 | a time survives up to microseconds if and only if it is not before 2000-01-01 and fits into 64 bits |
| Timestamp.EarlierTimeWitness | pgsql.c:37-55 | one second before 2000-01-01 comes back far in the future |

## Left out

- Owner, permission bits and time stamps of entries, and the hooks that only read or set them (`getattr`, `fgetattr`, `chmod`, `chown`, `utimens`): single-row updates.
- The mode argument of `create`: the hook stores whatever it is given; the model takes it to ask for a regular file, as the kernel does.
- `statfs` and the tablespace queries, which depend on mtab and server catalogues; `access`, `opendir`, `flush`, `fsync`, `release` and the like return constants.
- The readdir hook around `Session.Session.Readdir` would only add one more bracket.
- The single-threaded mode with one shared connection.
- `psql_pool_destroy`, connection set-up, option parsing, logging, malloc failures and errors of the pthread functions.
- Splitting a path string at slashes, and `dirname` and `basename` on strings: paths are sequences of names.
- Ids of 2^31 and more, which `psql_read_meta` narrows to `int`: the sequence of the model fails before it gets there.
- Isolation between concurrent transactions: hooks take effect one after the other; threads interleave in the pool only.
- A COMMIT whose outcome the client cannot know because the connection broke: a failed COMMIT is taken as rolled back.
- Byte order of stored integers, except for the two places where `ntohl` is applied to a 64-bit column.
- Branches that a constraint of the schema excludes, such as two rows for one name or an UPDATE that hits two rows, and the partial-write checks that the results shown rule out.
- Session.Session.ReadBuf: does not follow a copy whose size wrapped around (offset beyond the end of a non-empty file, some block in the wrapped range); the outcome is only named `Wrapped`.
- Session.Session.WriteBuf: buffers of 2^31 bytes and more, whose length does not fit the `int` result.
- Hooks.ReadCrashesExactly: beyond the end of a file, block sizes that do not divide 2^32 and offsets behind block 2^31; `NothingBeyond` still says which of the two outcomes occurs.
- Mount.Mount.Read: a wrapped or overrunning read is only reported as `Crashed`, with the exact condition for it.
- Serving.Serve: connections after a rename are not accounted for; `Mount.Mount.Rename` says which calls keep one.
- PoolSteps.WaitersServed: bounds the steps of threads inside the pool; that a scheduler lets them step, and that users of a connection release it, is outside.
