# Parity archive model

A Dafny model of a file-level parity archive. Files of several data disks are packed into slices. A slice
file holds a text header, one XOR parity stream and a tail. A lost file is rebuilt from the parity stream and
the other disks' files. `dafny verify dfyconfig.toml` checks the whole project.

| files | what they model |
|---|---|
| `Bytes`, `Streams` | zero-padded streams, their XOR, rows of a slice, windows of a stream |
| `Readers`, `Jobs`, `ReaderSteps` | one reading disk: row cursor, window clipping, buffer and hash state, and what each step keeps |
| `Transfer` | the transfer engine as a class: rows, requests, completions in any order and of any length, folding, whole sync and restore runs |
| `Archive`, `Restore`, `Owners` | parity of a slice, the round trip, the list of unrecoverable files and what its owner filter misses |
| `HashRecord`, `SyncHashes` | looking up recorded hashes |
| `StripeHash`, `Xxh64`, `Xxh64Vectors`, `Hashing` | incremental XXH64 through its carry buffer, and its arithmetic |
| `Xxh3` | incremental XXH3 through its 256-byte buffer, blocks and last stripe |
| `PlanRules`, `PlanTables`, `PlanState`, `PlanScan`, `PlanFill`, `PlanRun`, `PlanHistory`, `Planner` | the slice planner as a class over its tables, and slices call by call |
| `PlanOrder`, `PlanLayout`, `WrongStarts` | when recorded starts are right, when planned slices are what sync and restore work on, what a wrong start costs |
| `PlanExample`, `PlanEdges` | a run that records wrong starts, and runs beyond the file limit and into the program's own stop |
| `Text`, `HeaderText`, `HeaderHashes`, `HeaderExample` | fixed-width lines and tokens, the two-pass header writer, its hash column, a header written out |
| `HeaderLoad`, `HeaderSound`, `Reload` | the header loader, exactly which texts it accepts, restoring with loaded rows |
| `TinyQueue`, `JobQueue` | the preloaded queue and its workers as interleaved steps |
| `Shell`, `Options` | quoting a path in place and what a shell reads |

Asynchronous input and output is nondeterministic: a wait returns when some request has completed, others may
complete too, and a read delivers any number of bytes from one up to what was asked for. Table queries are
functions on sequences of rows. The user's cancellation is a nondeterministic choice. Where a program check
stops the run (hash array too small, file sizes not descending, sums that do not match, consumed bytes beyond the
disk's total), the model asserts that the check cannot fire. One check can, that no second disk has files left, and
the model says exactly when.

## Findings

- Recorded starts. The planner records a file's start in insertion order, while parity is generated, and headers
  are loaded, in key order. The two agree exactly if the files of a disk were inserted by ascending key
  (`PlanOrder.StartsRightIff`), which is so exactly if each filling call found its first file behind the rows the
  disk already had (`PlanOrder.PlannedStartsRightIff`). The first call for a disk always does
  (`PlanOrder.OneFillAscends`), but another disk's overshoot can reopen a disk, and then they differ
  (`PlanExample.ReopenedDisk`). A file with a wrong start does not always come back
  (`WrongStarts.PlannedStartWorksIff`, `WrongStarts.ReopenedFileLost`). The round trip is proved for slices whose
  starts are prefix sums in key order; `PlanLayout.PlannedSliceIsLayoutIff` says which planned ones are.
- Owners. When the real and the effective user differ, the query behind the list of unrecoverable files looks only
  at the real user's altered files. Leaving a file out of the list is right exactly if no altered file that the query
  overlooks shares a slice position with it (`Owners.LeftOutRightlyIff`); `Owners.OtherOwner` is an input where it is
  wrong. With one user, or if all altered files are the real user's, nothing is overlooked
  (`Owners.OneUserOverlooksNone`). The query takes ends as included, as the restore does when it opens files, so a
  file that only touches an altered one is listed although its bytes do not depend on it
  (`Owners.ListedIff`, `Owners.AlwaysRestorableIff`).
- Empty files. A slice that one disk alone starts with bytes makes the program stop if two disks still have files,
  and empty files on another disk count (`Planner.Planner.CopyRest`, `PlanEdges.EmptyFilesStop`). A remainder of
  empty files only is never planned (`Planner.NoBigIsDone`, `PlanEdges.EmptyAlonePasses`).
- Hashes of empty files. The hash array is searched over one place per file, but empty files get no entry, so the
  search for one ends in places never written (`HashRecord.EmptyFileFindsRest`). The header writer does not
  search for empty files, and the restore does not compare their hashes.
- Quoting. A path is left unquoted when its quotes would just fit the buffer (`Shell.UnquotedAtTheEdge`); the
  exact condition is `Shell.QuotingWorksIff`. Replacing that would empty a string leaves it as it was
  (`Shell.EmptiedStays`, `Shell.ReplaceFaithful`).
- Open-ended insertion. The comment and limit speak of about two gigabytes and the file limit; the loop lets
  one more file through, and the first file is not counted in it, so a slice of one disk can hold two files more than
  the limit (`PlanEdges.ThreeForOne`). `PlanHistory.SoloLimitIff` says exactly when it stays within the limit.
- Tokens. The token loop has room for five tokens and goes on until it has six (`Text.OverrunsIff`). The first line
  of a header and its tail are split without a limit, so a first line of six words is written past the array
  (`HeaderLoad.SixWordsOverrun`).

## Model

| member | source | states |
|---|---|---|
| `Restore.SyncThenRestore` | backup.cpp:1908-1941 | Restore inverts sync: for any layout, header, buffer sizes, completion schedules and short reads, any choice of files of any disk comes back with its original bytes, in key order |
| `Restore.RestoreUnlisted` | backup.cpp:2295-2308 | The unrecoverable list is sound over whole runs: from an outdated slice whose only altered files are the marked ones, changed in any way, every choice of files that are not listed, and about which the owner filter leaves out no altered row touching them, is restored byte for byte |
| `Owners.AlwaysRightIff` | backup.cpp:2295-2308 | Exactly when a file comes back right whatever has become of the altered files: if and only if no altered row of another disk shares a slice position with it |
| `Owners.LeftOutRightlyIff` | backup.cpp:2297-2301 | Leaving a file out of the list is right if and only if the owner filter leaves out no altered row that shares a slice position with it |
| `Owners.ListedIff` | backup.cpp:2303-2305 | A file is listed if and only if it and some altered file of another disk that the query asks about have a position in common, ends included: the list names nothing else |
| `Owners.AlwaysRestorableIff` | backup.cpp:2303-2305 | Which files belong on the list: a file can be restored on its own and comes back right, whatever has become of the altered files, if and only if it touches no altered file with bytes on another disk |
| `Owners.ListedNeeded` | backup.cpp:2295-2308 | With nothing overlooked every file that is not always restorable is listed; a listed file that is always restorable touches an altered file without bytes |
| `Owners.OneUserOverlooksNone` | backup.cpp:2297-2301 | With one user, or if all altered rows are the real user's, nothing is left out about any file |
| `Owners.RestoreUnshared` | backup.cpp:2147-2191 | Over whole runs, whoever owns what: a restore that finds what it opens gives back every wanted file that shares no slice position with an altered file of another disk |
| `Owners.OverlookedSpoils` | backup.cpp:2297-2301 | In every layout an altered file that shares a slice position with a file of another disk can spoil it: some change of the altered file alone makes the other one come back with wrong bytes |
| `Owners.OtherOwner` | backup.cpp:2297-2301 | An input: two one-byte files, the altered one of another user; the other file is not listed and comes back wrong |
| `Restore.RestoreFiles` | backup.cpp:2147-2191 | A restore writes, for each wanted row in key order, the XOR of the stored parity and the other disks' present streams over exactly the row's extent |
| `Restore.RestoreIsExact` | backup.cpp:2147-2191 | What a restore writes for a row equals the original file whenever the other disks' files touching its extent are intact |
| `Restore.RestoredExactly` | backup.cpp:983-993 | The XOR of parity and intact neighbours over a lost file's extent is the lost file |
| `Restore.OneAlteredDisk` | backup.cpp:983-993 | If only one other disk may have changed, a file comes back if and only if that disk's stream is unchanged inside the file's extent |
| `Restore.UnlistedNeighbours` | backup.cpp:2295-2308 | If the owner filter leaves out no altered row touching an unlisted row, every row of another disk whose closed interval touches it is unaltered |
| `Restore.UnlistedConcerns` | backup.cpp:2295-2308 | Such files can be asked for: everything their windows open is present and has its original bytes |
| `Restore.UnchangedConcerns` | backup.cpp:2147-2191 | An unchanged slice meets the restore's needs for every row of every disk |
| `Archive.Sync` | backup.cpp:1908-1941 | Chunked parity refines whole-stream parity: the slice file is its header followed by the XOR of all zero-padded streams, as long as the longest one, and each disk's hash entries are those of its non-empty files, for every buffer size and schedule |
| `Archive.FileInStream` | backup.cpp:1133-1168 | A file lies in its disk's stream at the sum of the sizes before it |
| `Bytes.LostByte` | backup.cpp:983-993 | A lost stream's byte is the XOR of the parity byte with the other streams' bytes |
| `Bytes.XorSplit` | backup.cpp:983-993 | Leaving a stream out of the XOR and adding it back gives the XOR of all streams |
| `Bytes.XorOneDiffers` | backup.cpp:983-993 | When at most one stream differs at a byte, the XORs agree if and only if that stream's byte does |
| `Transfer.Slice.constructor` | backup.cpp:1835-1847 | Before the first step all disks are closed with empty zeroed buffers, the parity disk excepted, and the transfer's invariant holds |
| `Transfer.Slice.GetNextFile` | asyncio.cpp:82-136 | The first row with a larger key that the kind of transfer accepts, or the end of the rows; every row passed over is one that is not accepted; the check on descending sizes never fires |
| `Transfer.Slice.StoreHash` | backup.cpp:225-241 | Appends key, disk and digest of a non-empty file; the array bound is never exceeded |
| `Transfer.Slice.CloseFinished` | asyncio.cpp:172-176 | The open file of a source disk is recorded, in a sync, and closed |
| `Transfer.Slice.OpenFetched` | asyncio.cpp:183-217 | The fetched row's file is open from its start, with its whole size to transfer in a sync and clipped to the window in a restore |
| `Transfer.Slice.OpenNextFile` | asyncio.cpp:165-221 | Exactly when a reader opens, stays, or runs out of rows, and the state, cursor and hash record after each |
| `Transfer.Slice.OpenNextIfDue` | asyncio.cpp:165-221 | Opening the next file keeps the reader on its stream and the hash record in order; if none is opened nothing more is read this round |
| `Transfer.Slice.IssueRead` | asyncio.cpp:243-253 | The request asks for the next bytes of the open file and fits the free buffer space; the parity reader's own remainder formula gives the same length |
| `Transfer.Slice.StartRead` | asyncio.cpp:223-270 | After asking, a reader has a request outstanding or nothing to read this round |
| `Transfer.Slice.FinishRead` | asyncio.cpp:361-377 | A completed read of any length from one byte on appends the stream's next bytes to the buffer and extends the hash |
| `Transfer.Slice.StartWrite` | asyncio.cpp:236-262 | The whole buffer is to be written behind what the work file already holds |
| `Transfer.Slice.FinishWrite` | asyncio.cpp:389-407 | A completed write extends the work file by the buffer, which is cleared |
| `Transfer.Slice.FinishTarget` | asyncio.cpp:138-158 | A complete work file is saved under its row's key with exactly the XOR over its extent, and the target is closed |
| `Transfer.Slice.BeginTarget` | asyncio.cpp:190-199 | The fetched row's extent becomes the window, with an empty work file |
| `Transfer.Slice.OpenTarget` | asyncio.cpp:165-221 | The next wanted row becomes the target, its window lies behind the last one, and the books of what has been saved stay right |
| `Transfer.Slice.NewTargetFile` | asyncio.cpp:46-65 | Every reader is re-clipped so that it stands on the unread part of its stream inside the new window; the parity reader has the whole window to read |
| `Transfer.Slice.ServiceReader` | asyncio.cpp:332-387 | One look at a reading disk: what has completed is taken, and more is asked for |
| `Transfer.Slice.ServiceTarget` | asyncio.cpp:388-410 | One look at the target: a completed write is taken, a finished target saved, a folded round handed to a write |
| `Transfer.Slice.Pass` | asyncio.cpp:332-411 | A pass over all disks keeps every invariant and moves bytes if some request had completed |
| `Transfer.Slice.Suspend` | asyncio.cpp:272-288 | Returns with some outstanding request completed, or tells that there is none |
| `Transfer.Slice.SeekTarget` | asyncio.cpp:323-331 | The next wanted file with contents is open; wanted empty files on the way are saved |
| `Transfer.Slice.Wait4Buffers` | asyncio.cpp:315-429 | Ends with every input buffer full or its stream's window exhausted and all folded bytes written, or with no target left; terminates |
| `Transfer.Slice.LongestInput` | backup.cpp:970-979 | The largest number of bytes in an input buffer |
| `Transfer.Slice.XorInputs` | backup.cpp:984-993 | The target's buffer is the byte-wise XOR of all other buffers |
| `Transfer.Slice.ClearInputs` | backup.cpp:995-1001 | Input buffers are emptied and zeroed, the target's buffer stays |
| `Transfer.Slice.FoldRound` | backup.cpp:981-1001 | A round moves n window bytes, XORed, from the inputs to the target's buffer |
| `Transfer.Slice.ComputeParity` | backup.cpp:966-1011 | Folds the smaller of a bufferful and what the window lacks; zero exactly when the window is exhausted, and then the target is complete |
| `Transfer.Slice.CreateSlice` | backup.cpp:1918-1932 | A whole sync run terminates with header, parity of the streams and the complete hash record |
| `Transfer.Slice.RestoreSlice` | backup.cpp:2169-2186 | A whole restore run terminates having saved every wanted row, in order, with the XOR over its extent |
| `Transfer.UnwantedAddNothing` | asyncio.cpp:94-121 | Rows the target query passes over add nothing to what is saved |
| `Transfer.BookTurns` | asyncio.cpp:165-221 | The saved files, the row cursor and the window stay consistent when the next wanted row is fetched or none is found |
| `Transfer.WriteKeepsTarget` | asyncio.cpp:389-407 | Writing the buffered bytes out makes the work file hold the XOR of all bytes folded so far |
| `Transfer.FoldKeepsTarget` | backup.cpp:981-994 | A folded round waits in the target's buffer as the next piece of the XOR |
| `Readers.FitIsIntersection` | asyncio.cpp:34-44 | Clipping leaves exactly the intersection of file and window, never a negative length |
| `Readers.InvolvedIff` | asyncio.cpp:17-19 | A row is opened for a window exactly if they have a position in common, ends included |
| `Readers.OpenNext` | asyncio.cpp:165-203 | Opening the next row keeps file offset and remaining bytes equal to the unread part of its intersection with the window, and only rows meeting the window as closed intervals are opened |
| `Readers.OpenEmpty` | asyncio.cpp:165-203 | A reader that had a file before opens an empty remainder only if its window is exhausted |
| `Readers.ExhaustOk` | asyncio.cpp:122-124 | Running out of rows leaves the reader at the end of its stream |
| `Readers.DeliverOk` | asyncio.cpp:374-377 | Arriving bytes keep offset, remainder and stream position in step |
| `Readers.QuietMeansFullOrDone` | asyncio.cpp:223-238 | A reader that asks for nothing has a full buffer or has read all of its stream inside the window |
| `Readers.RoundOk` | backup.cpp:995-1001 | Emptying the buffers after a round leaves every reader at its stream position |
| `Readers.RetargetOk` | asyncio.cpp:46-65 | With windows in ascending order a re-clipped reader is positioned on the new window |
| `Readers.DoneIsIdle` | asyncio.cpp:46-65 | A reader whose window has been folded completely rests between two windows |
| `ReaderSteps.ParityRest` | asyncio.cpp:246-249 | The parity reader's separate remainder formula agrees with the bytes its window lacks |
| `ReaderSteps.RequestKeepsReader` | asyncio.cpp:243-253 | A request for the next bytes of the open file fits file and buffer |
| `ReaderSteps.AcceptedIsNext` | asyncio.cpp:94-121 | The row the query accepts is the next one of the stream inside the window |
| `ReaderSteps.NoRowLeft` | asyncio.cpp:94-124 | If no row is accepted none is left, or the stream ends before the window |
| `ReaderSteps.SizesFollow` | asyncio.cpp:126-129 | No row still to come is larger than the current file, so the check on descending sizes cannot fire |
| `ReaderSteps.OutcomeKeepsReader` | asyncio.cpp:165-221 | Staying, opening and running out of rows all keep the reader's invariant, and a reader left without a file is quiet |
| `ReaderSteps.OutcomeKeepsHash` | asyncio.cpp:138-176 | The hash record holds the files finished so far, whatever opening comes to |
| `ReaderSteps.ArrivalKeepsReader` | asyncio.cpp:361-377 | Bytes that arrive extend the buffer by the stream's next bytes |
| `ReaderSteps.HashFollowsFile` | asyncio.cpp:366-373 | The hash state has absorbed exactly the bytes of the file read so far |
| `ReaderSteps.RoundKeepsReader` | backup.cpp:995-1001 | A round keeps each reader's invariant at the advanced window position |
| `ReaderSteps.QuietHasShare` | asyncio.cpp:332-411 | At the end of a wait each buffer holds the smaller of a bufferful and what its stream still has in the window |
| `ReaderSteps.BufferByte` | backup.cpp:983-993 | A byte of a buffer is the byte of the zero-padded stream at the window position being folded |
| `ReaderSteps.RetargetKeepsDataDisk` | asyncio.cpp:46-65 | The next window re-clips every resting data disk |
| `ReaderSteps.RetargetKeepsParity` | asyncio.cpp:195-196 | The parity reader restarts at the target's offset with the whole window to read |
| `Streams.FirstAfterIsNext` | backup.cpp:1958-1959 | The query for the first larger key returns the row after the cursor |
| `Streams.EmptyTail` | asyncio.cpp:126-129 | With descending sizes nothing follows an empty file |
| `Jobs.HashRoom` | backup.cpp:1820-1832 | As long as some file is not recorded the array of one entry per file has room |
| `Jobs.HashStored` | backup.cpp:225-241 | Recording the digest of a completely read file brings the record up to date |
| `Jobs.StoredDigest` | utils.cpp:30-47 | The digest of a completely read file is the one-shot hash of its bytes |
| `HashRecord.FindHash4Seq` | backup.cpp:243-253 | Returns the hash of the first entry with the key among the first filesCount places, filled or not |
| `HashRecord.FindsContentHash` | backup.cpp:225-253 | After a sync every non-empty file has exactly one entry and looking it up finds the hash of its bytes, whatever the unused rest of the array holds |
| `SyncHashes.SyncThenFindHash` | backup.cpp:1918-1932 | End to end: after a sync of any slice with any schedule, looking up a file that is not empty finds the XXH64 of its bytes |
| `SyncHashes.SyncThenFindHashes` | backup.cpp:1918-1932 | The same for all files of a disk at once |
| `HashRecord.EmptyFileFindsRest` | backup.cpp:243-253 | For an empty file the lookup finds exactly what the unused rest of the array happens to hold |
| `Xxh64.StreamingEqualsOneShot` | xxhash.h:3731-3799 | For every seed, every input below 2^64 bytes and every split into chunks, the incremental XXH64 equals the one-shot one |
| `Xxh64.AddLengthCounts` | xxhash.h:3684-3684 | What is added for the length grows by one with every byte of the input, whatever the length, modulo 2^64 |
| `Xxh64.ShortInput` | xxhash.h:3668-3687 | An input below 32 bytes is finalized from seed, fifth prime and its length |
| `Xxh64.SeedShiftsLanes` | xxhash.h:3537-3543 | The seed is added to each of the four lanes |
| `Xxh64.BytesOfWord` | xxhash.h:3624-3647 | A word read from the input holds its eight bytes, the first one lowest |
| `StripeHash.UpdateAbsorbs` | xxhash.h:3741-3782 | One update of any length takes the state for some data to the state for the longer data |
| `StripeHash.DigestIsOneShot` | xxhash.h:3786-3799 | The digest of a state that has absorbed data is the one-shot hash of the data |
| `StripeHash.StreamingIsOneShot` | xxhash.h:3731-3799 | The same for any lane arithmetic, over any list of chunks |
| `StripeHash.ResetAbsorbs` | xxhash.h:3731-3737 | A reset state has absorbed nothing |
| `StripeHash.FoldConcat` | xxhash.h:3549-3583 | Consuming whole stripes in two pieces is consuming them in one |
| `StripeHash.Hasher.ConsumeLong` | xxhash.h:3549-3583 | Consumes every whole stripe in order and returns the bytes consumed |
| `StripeHash.Hasher.CompleteCarry` | xxhash.h:3759-3767 | A carry buffer that is not empty is filled up and consumed |
| `StripeHash.Hasher.UpdateWith` | xxhash.h:3741-3782 | The in-place update has the effect of the update function on the state |
| `StripeHash.Hasher.FinalizeTail` | xxhash.h:3624-3647 | The loops over the last bytes compute the recursive finalization |
| `StripeHash.Hasher.DigestNow` | xxhash.h:3786-3799 | The digest of the present state, which stays as it is |
| `StripeHash.HashOnce` | xxhash.h:3668-3687 | The one-shot entry point with its stripe and tail loops |
| `Xxh64Vectors.EmptyInput` | xxhash.h:3516-3524 | Test vector: hash of the empty input; pins the avalanche and its constants |
| `Xxh64Vectors.Nobody` | xxhash.h:3482-3524 | Test vector: hash of a 39-byte text; pins rounds, lane merging and the four-byte and one-byte steps |
| `Xxh64Vectors.Fox` | xxhash.h:3624-3647 | Test vector: hash of a 43-byte text; pins the eight-byte step as well |
| `Xxh64Vectors.ManyLetters` | xxhash.h:3549-3583 | Test vector: hash of 257 times the letter a; pins many stripes and a length above 255 |
| `Xxh64Vectors.EmptySeeded` | xxhash.h:3680-3684 | Test vector: hash of the empty input with a seed |
| `Hashing.FileHashOk` | utils.cpp:30-47 | The hash used for files keeps track of exactly the bytes it has been given |
| `Xxh3.HashChunks` | xxhash.h:6699-6847 | Reset, any updates and digest give the one-shot XXH3 hash of all bytes, for every split into chunks and every buffer state, short inputs included |
| `Xxh3.ConsumeStripes` | xxhash.h:6654-6687 | Stripes across block borders are consumed as one after the other, with the secret advancing per stripe and scrambling after each block |
| `Xxh3.HashLong` | xxhash.h:6229-6259 | The long-hash loop: all settled stripes in order, then the last 64 bytes with their own secret |
| `Xxh3.HashOnce` | xxhash.h:6401-6420 | The one-shot entry point: the short form up to 240 bytes, the long one above |
| `Xxh3.Accumulate` | xxhash.h:4925-4941 | n stripes in a row with the secret advancing eight bytes each |
| `Xxh3.BlocksOf` | xxhash.h:6236-6251 | Block and stripe counts of the loop add up to the settled stripes of the input |
| `Xxh3.StripesInBlock` | xxhash.h:6654-6687 | Stripes that do not complete a block are accumulated only; those that do are followed by scrambling |
| `Xxh3.StripesConcat` | xxhash.h:6654-6687 | Consuming stripes in two pieces is consuming them in one |
| `Xxh3.StepInNumbers` | xxhash.h:6654-6687 | A stripe takes 64 bytes of the secret, eight further each time; the last of a block is followed by scrambling with the secret's last 64 bytes |
| `Xxh3.OneShotInNumbers` | xxhash.h:6229-6259 | The long form in numbers: the stripes in front of the last byte, then the last 64 bytes with the 64 bytes of secret that end seven before its end |
| `Xxh3.Stream.Update` | xxhash.h:6699-6776 | An update of any length keeps the state that of all bytes given so far |
| `Xxh3.Stream.TopUp` | xxhash.h:6741-6752 | A buffer that is not empty is completed with 256 bytes in all and consumed |
| `Xxh3.Stream.Store` | xxhash.h:6753-6770 | Settled stripes of the rest are consumed, the last of them kept at the buffer's end, and 1 to 256 bytes are buffered |
| `Xxh3.Stream.DigestLong` | xxhash.h:6797-6831 | The remaining stripes and the last 64 bytes, also where these wrap around the buffer |
| `Xxh3.Stream.Digest` | xxhash.h:6835-6847 | The digest equals the one-shot hash of all bytes given and leaves the state as it is |
| `Xxh3.WrapsAround` | xxhash.h:6818-6827 | With less than a stripe buffered, the end of the buffer and its beginning make up the last 64 bytes |
| `Xxh3.SettledInBuffer` | xxhash.h:6808-6817 | With at least a stripe buffered, the settled stripes and the last 64 bytes are in the buffer |
| `Planner.Planner.CreateSlices` | planer.cpp:763-803 | Planning terminates; afterwards every assigned file is in exactly one row of exactly one whole slice, also after a cancellation; every slice comes with the calls that made it, each with the moment before and after, tiles, and is as long as its fullest disk; a complete run leaves only empty files unassigned; the program stops itself only where two disks have files left after one disk alone started a slice with bytes, so never without empty files |
| `PlanOrder.PlacedOnce` | planer.cpp:763-803 | A file has exactly one row in all committed slices if it is assigned and none otherwise |
| `Planner.Planner.AddFile2Slice` | planer.cpp:300-307 | No disk is picked exactly if the slice is balanced; a picked disk gets a file or is finished, finished only if no file fits what it lacks of the slice's present length, and ends no further beyond the fullest disk than 64 bytes or tolerance plus half a percent of its last file |
| `Planner.Planner.SelectNextDisk` | planer.cpp:104-128 | In bytes: a disk is chosen exactly if some open disk lacks noticeably more than the tolerance; no open disk lacks more than the chosen one by a percent of the slice or more, unless the disk with most data takes precedence; the first disk with the largest deficit |
| `Planner.Planner.FillHole` | planer.cpp:226-298 | The nested loops terminate and insert exactly the files the filling rule picks; the check of counts and sums never fires |
| `Planner.Planner.FillRound` | planer.cpp:234-297 | One pass and the insertion of its key range; the disk is finished exactly if no file fits |
| `PlanScan.ScanHole` | planer.cpp:236-287 | The inner loop reports the key range, number and sum of exactly the files one pass picks |
| `Planner.Planner.Insert2Slice` | planer.cpp:156-195 | The unassigned files of a key range get rows end to end and are marked; fatal exactly if count or sum differ from the caller's; the open-ended mode stops at its limit |
| `PlanFill.InsertRows` | planer.cpp:170-186 | Rows laid end to end in list order up to the limit, with their number, sum and last key |
| `Planner.Planner.FreshSliceStat` | planer.cpp:130-140 | Counts, sums, slice size and fullest disk after an insertion |
| `Planner.Planner.ClearSliceStat` | planer.cpp:142-154 | The slice's sums move to the consumed bytes; the check against the disk's total never fires |
| `Planner.Planner.InitSliceFiles` | planer.cpp:197-205 | A disk's largest unassigned file, if any, is put into the slice |
| `Planner.Planner.StartSlice` | planer.cpp:207-224 | Each disk that takes files starts with its largest one; the result is the only disk starting with bytes, if there is exactly one |
| `Planner.Planner.CopyRest` | planer.cpp:776-790 | When one disk alone started with bytes its remaining files follow up to the limit; the program's check for files of other disks fires if and only if two disks had unassigned files, empty ones included |
| `Planner.PositiveNeverStops` | planer.cpp:776-790 | Without empty files that check never fires |
| `PlanHistory.WholeDoesNotStop` | planer.cpp:776-802 | No committed slice began where the check fires |
| `PlanEdges.EmptyFilesStop` | planer.cpp:776-790 | A run: two files with bytes on one disk and an empty one on another, and the check fires |
| `PlanEdges.EmptyAlonePasses` | planer.cpp:776-790 | With the first disk used up the same empty file stops nothing, and nothing but it is left |
| `Planner.Planner.Commit` | planer.cpp:792-802 | The slice's rows are committed as they are and all accounts stay balanced |
| `PlanRules.PercentDiffMeans` | planer.cpp:31-42 | The rounded percentage is zero if and only if the sizes differ by at most 64 bytes or by less than tolerance plus half a percent of the larger one |
| `PlanRules.PercentDiffInNumbers` | planer.cpp:31-42 | How large the percentage is: within half a percent of the gap over the larger size, negative exactly for a noticeable deficit, with the constants written out |
| `PlanRules.FillOk` | planer.cpp:226-298 | One filling call picks unassigned files no larger than the hole in list order within the file limit, and ends because the disk is full, the last file closes the hole, or no file fits what is left; it picks a file or finishes the disk |
| `PlanRules.FillInNumbers` | planer.cpp:226-298 | The same without the rule's own terms: which files a call takes, and in bytes why it ends |
| `PlanRules.ScanOk` | planer.cpp:236-272 | One pass takes exactly the fitting files up to the last one taken, and fills, closes or shrinks the hole accordingly |
| `PlanRules.Overshoot` | planer.cpp:226-298 | Closing a hole goes beyond it by at most 64 bytes or tolerance plus half a percent of the last file |
| `PlanTables.RangeIsPass` | planer.cpp:290-295 | The key range from the first to the last file of a pass selects exactly the files it counted |
| `PlanFill.RangeInserted` | planer.cpp:156-195 | An insertion of a key range takes the unassigned files with keys in it, all of them and in list order |
| `PlanTables.MarkRangeIsMark` | planer.cpp:191-193 | The closing UPDATE marks the inserted files and no others |
| `PlanTables.AddRowsTile` | planer.cpp:170-186 | Inserted rows keep tiling the disk's part of the slice from zero to its sum |
| `PlanTables.Moved` | planer.cpp:156-195 | An insertion moves exactly the inserted files, each once, from the unassigned ones to the rows |
| `PlanTables.FreeShrinks` | planer.cpp:156-195 | Unassigned files and bytes shrink by exactly the inserted ones |
| `PlanState.InsertKeepsDisk` | planer.cpp:156-195 | An insertion keeps a disk's tiling, counts and byte account |
| `PlanFill.FillKeepsDisk` | planer.cpp:226-307 | Filling keeps the file limit and the overshoot bound, and takes a file or finishes the disk; if it finishes the disk, the disk is shorter than the slice was and no unassigned file fits exactly what it lacks |
| `PlanHistory.FinishedHole` | planer.cpp:266-271 | A finished disk of a slice was marked by one of the slice's calls and is unchanged since; no file fits what it lacked of the slice's length at that moment, which is at least the length right after the start |
| `PlanHistory.BalancedAtClose` | planer.cpp:104-128 | Balance at close: each disk of a ready slice is as long as the fullest one within the tolerance, or at its file limit, or without bytes left, or finished by such a call |
| `PlanHistory.WithinLimit` | planer.cpp:81-86 | No disk of a slice that is filled call by call exceeds the file limit |
| `PlanFill.FillKeepsState` | planer.cpp:300-307 | Filling one disk keeps the accounts of all disks and the slice's head |
| `PlanFill.FillByRounds` | planer.cpp:234-297 | Filling is one round followed by filling what is left |
| `PlanRun.CommitKeepsState` | planer.cpp:142-154 | A commit keeps all accounts; no disk has consumed more than it has |
| `PlanRun.RestPicks` | planer.cpp:156-187 | The open-ended insertion takes unassigned files from the first one on, none exactly if there are none, and at most one more than the limit |
| `PlanRun.RestPicksIff` | planer.cpp:184-185 | It takes at most k files if and only if at most k are unassigned or the first k of them pass the byte limit |
| `PlanHistory.SoloLimitIff` | planer.cpp:156-195 | A slice that one disk alone started stays within the file limit if and only if at most one file less than the limit is unassigned after its first one, or that many of them pass the byte limit; it never holds more than two files too many |
| `PlanEdges.ThreeForOne` | planer.cpp:776-790 | A run: one disk with three files and a limit of one, and the slice holds all three |
| `PlanRun.StartsBigIff` | planer.cpp:81-86 | A new slice starts with bytes of a disk if and only if the disk has an unassigned file that is not empty |
| `Planner.SoleBigAlone` | planer.cpp:207-224 | If only one disk starts a slice with bytes, the other disks have only empty files left and add no bytes to it |
| `Planner.NoBigIsDone` | planer.cpp:772-775 | No disk starts a slice with bytes if and only if only empty files are unassigned |
| `Planner.CloseSlice` | planer.cpp:791-802 | A slice declared ready consists of what the disks hold then, with a whole history: balanced, or of one disk |
| `PlanOrder.StartsRightIff` | backup.cpp:1133-1168 | The recorded starts are the prefix sums in key order, as parity and header loader take them, if and only if the disk's files were inserted by ascending key, empty ones among themselves in any order |
| `PlanOrder.FillInOrderIff` | planer.cpp:226-298 | A filling call keeps a disk in key order if and only if the first file that fits the hole, if any, is empty or comes behind all rows the disk has |
| `PlanOrder.WholeInOrderIff` | planer.cpp:763-803 | A disk's rows in a whole slice are in key order if and only if each call that filled the disk met that condition |
| `PlanOrder.SoloInOrder` | planer.cpp:776-790 | The open-ended insertion always keeps key order |
| `PlanOrder.PlannedStartsRightIff` | planer.cpp:763-803 | Over whole plans: a disk's recorded starts in a slice are those of parity and header if and only if each call that filled the disk met the condition, whatever the files |
| `PlanOrder.OneFillAscends` | planer.cpp:226-298 | A disk that gets its first file and then at most one filling call in a slice has its files in key order |
| `PlanExample.ReopenedDisk` | planer.cpp:104-128 | A whole run in which one disk is filled twice because another overshot: its recorded start for a file is not where the file lies in key order |
| `PlanLayout.PlannedSliceIsLayoutIff` | planer.cpp:763-803 | From plan to archive: taken by key, the rows of a planned slice are a layout that sync and restore work on if and only if each call that filled a disk of the slice met its condition, empty files included |
| `PlanLayout.ByKeyTilesIff` | backup.cpp:1133-1168 | Taken by key, a disk's rows tile its part of the slice if and only if their recorded starts are the prefix sums in key order |
| `PlanLayout.PlannedSliceIsLayout` | planer.cpp:763-803 | Without empty files, and each call having met its condition, the rows of a planned slice are such a layout as they are |
| `WrongStarts.StartWorksIff` | backup.cpp:983-993 | The XOR of parity and the other disks taken from a position gives back a lost file, whatever the files hold, if and only if that is where the file lies in key order or the file is empty |
| `WrongStarts.PlannedStartWorksIff` | planer.cpp:170-186 | Over whole plans: a file comes back from its recorded start, whatever the files hold, if and only if it is empty or that start is the sum of the sizes of the disk's files with smaller keys |
| `WrongStarts.ReopenedFileLost` | planer.cpp:170-186 | The consequence of the run with a reopened disk: its second file does not always come back from the recorded start, and always would from the right one |
| `HeaderLoad.HeaderRoundTrip` | backup.cpp:1057-1208 | Loading a written slice file recovers every size, time, path and disk in order, starts as sums of the sizes before on the same disk, and the slice's size, file count, fill and exact header length |
| `Reload.LoadedIsLayout` | backup.cpp:1133-1168 | The rows that a written header is loaded as are a layout to restore from, if each disk's files are listed by descending size |
| `Reload.LoadThenRestore` | backup.cpp:1057-1208 | From header to restored files: with the rows rebuilt by the loader, any choice of files of any disk is restored byte for byte from the parity generated for them |
| `HeaderSound.LoadedIff` | backup.cpp:1057-1208 | A text is loaded, and as what, if and only if it reads: a first line, numbered file lines with at least four words and known disks, a closing line whose numbers agree with the lines before it, and a tail at header plus slice length |
| `HeaderSound.TrimmedIff` | backup.cpp:1119-1127 | What is left of a text without the blanks at its end, both ways |
| `HeaderSound.LoadSound` | backup.cpp:1057-1208 | The lines that an accepted text begins with |
| `HeaderLoad.LoadSliceHeader` | backup.cpp:1057-1208 | The loader's loop computes the loading function, with its rejections |
| `HeaderLoad.InterpretsFile` | backup.cpp:1115-1135 | A file line is read back as the row it was written for, blanks in the path included |
| `HeaderLoad.InterpretsEnd` | backup.cpp:1119-1127 | The closing line is read back as the two numbers it was written with |
| `HeaderLoad.FirstTokens` | backup.cpp:1104-1111 | The first line is read back as slice name and fill |
| `HeaderLoad.TailReads` | backup.cpp:1172-1179 | The tail is recognised by its word and the slice's name |
| `HeaderLoad.MaxSumIsMax` | backup.cpp:1164-1167 | The running maximum is the largest sum of any disk |
| `HeaderText.TwoPasses` | backup.cpp:1211-1301 | Both passes write the same number of bytes, a multiple of eight |
| `HeaderText.RewriteKeepsParity` | backup.cpp:1224-1225 | Writing the final header over the reserved one leaves the parity data where it is |
| `HeaderText.WriteHeader` | backup.cpp:1211-1301 | The flushed pieces make up the whole text; the second pass is cancelled exactly if some file's size or time has changed or a file that is not empty has no hash of sixteen digits; the buffer of 32768 characters is never overrun if each line has at most 4096 |
| `HeaderText.ColumnMeans` | backup.cpp:1259-1262 | A column holds the text cut off on the right, or the whole text behind blanks |
| `HeaderExample.Lines` | backup.cpp:1259-1283 | A header written out: every line of a slice with two files, one of them empty, in both passes |
| `HeaderExample.WholeHeader` | backup.cpp:1211-1301 | Its lines in order and the blanks up to the next multiple of eight |
| `HeaderHashes.HashColumn` | backup.cpp:1244-1258 | The third word of a file's line is the file's hash, sixteen zeros for an empty file |
| `HeaderHashes.WrittenHashes` | backup.cpp:1211-1301 | The hash columns of a whole written text are the hashes of its files, in order |
| `HeaderHashes.HashTextRound` | utils.cpp:42-47 | The sixteen digits written for a hash are its value |
| `HeaderHashes.SyncThenHashColumn` | backup.cpp:1244-1258 | From a sync to the header: the column written for a file holds the XXH64 of the file's bytes |
| `Text.Split` | utils.cpp:263-275 | The token loop returns the words of a line, the last one whole if their number is limited |
| `Text.OverrunsIff` | utils.cpp:263-275 | The loop writes past its array of five tokens if and only if it has no limit and the line has more than five words |
| `Text.SplitsAll` | utils.cpp:263-275 | A limit beyond the array counts as none: all words of the line, up to six |
| `HeaderLoad.FirstLineOverruns` | backup.cpp:1100-1109 | A first line of more than five words makes the loader's split write past its array, and the file is then rejected |
| `HeaderLoad.SixWordsOverrun` | backup.cpp:1100-1109 | An input: a file that begins with a line of six words |
| `Text.NextToken` | utils.cpp:263-275 | A padded word followed by a blank is the next token and what follows the blank is left |
| `Text.WordsMean` | utils.cpp:263-275 | The words of a line are its pieces without blanks: the line is blanks and words in turn |
| `Text.AtolRound` | backup.cpp:1138-1139 | Reading a printed number gives it back |
| `Text.DigitCountMeans` | backup.cpp:1138-1139 | Reading a number stops at the first character that is no digit |
| `Text.DecimalPlain` | backup.cpp:1259-1262 | A number is printed in digits, without leading zeros |
| `Text.ReadsLine` | backup.cpp:1115-1118 | A line shorter than the buffer is read whole, with its newline |
| `Text.LineLengthMeans` | backup.cpp:1115-1118 | A line ends with the first newline, or where the buffer or the text does |
| `TinyQueue.Store.Push` | utils.cpp:847-853 | Appends a job while there is room in the array, which is used once |
| `TinyQueue.Store.Pop` | utils.cpp:840-845 | Removes the oldest job, or returns none |
| `TinyQueue.Store.Clear` | utils.cpp:835-838 | Forgets all jobs |
| `TinyQueue.Store.GetCount` | utils.cpp:859-861 | The number of jobs left |
| `JobQueue.HandedOutInOrder` | jobqueue.cpp:46-66 | In every interleaving the jobs handed out are a prefix of the queue in its order, none twice; at most one thread owns the mutex; no worker sleeps |
| `JobQueue.AllHandedOut` | jobqueue.cpp:46-66 | If nobody has aborted when some pop returns nothing, every job has been returned exactly once, in order |
| `JobQueue.NothingAfterClear` | jobqueue.cpp:12-22 | After an abort's clearing step every pop returns nothing, also those already waiting |
| `JobQueue.NothingAfterAbort` | jobqueue.cpp:12-22 | In every run, once a thread that began an abort has come to its end, the queue is empty and every pop that returns from then on returns nothing |
| `JobQueue.AbortCanRun` | jobqueue.cpp:12-22 | Such runs exist: with the mutex free an abort begins and comes to its end, and empties the queue |
| `JobQueue.PopCanRun` | jobqueue.cpp:46-66 | With the mutex free a pop returns the oldest job |
| `JobQueue.SomeoneCanGoOn` | jobqueue.cpp:40-66 | There is no deadlock: while a call is under way some call can take its next step |
| `JobQueue.StepKeepsInv` | jobqueue.cpp:12-66 | Every step of every thread keeps the queue's invariant |
| `Shell.Path4Shell` | utils.cpp:488-500 | In place: -1 and unchanged if the escaped path does not fit, quoted if it fits with room to spare, else escaped but not quoted |
| `Shell.ReplaceStr` | utils.cpp:165-190 | In place: -1 and unchanged if the result does not fit, unchanged if it would be empty, else every leftmost non-overlapping occurrence replaced |
| `Shell.ReplaceFaithful` | utils.cpp:165-190 | Replacing does what it says if and only if the result fits and is not the empty remainder of a string that was not empty |
| `Shell.FoundMeans` | utils.cpp:165-190 | An occurrence at i splits the text into i characters, what is looked for and the rest |
| `Shell.ReplacedIsEscaped` | utils.cpp:488-493 | Replacing apostrophes is escaping the path character by character |
| `Shell.QuotedReads` | utils.cpp:488-500 | The quoted form of any path is one shell word equal to the path |
| `Shell.QuotingWorksIff` | utils.cpp:488-500 | What the call leaves in the buffer, also where it fails, is read as the path, by a reader that takes patterns for no word, if and only if there was room for the quotes or the path needs none |
| `Shell.HarmlessIff` | utils.cpp:488-500 | The paths that need no quotes, by their characters |
| `Shell.UnquotedAtTheEdge` | utils.cpp:494-498 | For every buffer size there is a path with a blank whose quotes would just fit and are left out |
| `Shell.EmptiedStays` | utils.cpp:165-190 | An input: a text whose only letter is replaced by nothing stays as it was |

## Left out

- SQLite, the kernel's asynchronous input and output, file system calls, access control lists and external commands: foreign code, modelled as sequences and nondeterministic transfers.
- Command line and configuration parsing, logging, progress display, reports: user interface.
- Cancelled transfers, input and output errors, files that change size during a transfer, and retrying the next file after an error: the transfer theorems are about uncancelled runs.
- Dry runs, renaming and saving work files under their final names, restoring permissions, flat restores and replace options: which rows are wanted is a parameter.
- Transfer.Slice.FinishTarget: the comparison with a stored hash before saving is not modelled. The array it searches is allocated and not filled, because the header loader stores no hashes, so a restore is uncancelled there exactly if for each restored file that is not empty those places happen to hold no entry with its key, or one with its own hash.
- Two-digit disk numbers: disks are D1 to D9 as the header and getDiskIndex read them; the arithmetic for a second digit is not modelled.
- Key and start of a row at the end of the rows: the code copies an unset local there; the model leaves the disk's key unchanged, and a sync's unselected start column is an arbitrary number.
- The optimisation that dissolves unbalanced saved slices before planning, fill factors of slices, XXH32, XXH128, the SIMD forms and the other hash in the repository: unused or adding only similar members.
- JobQueue.push with its wake-ups, the non-waiting lock mode and spurious reads of the mode: the program preloads the queue.
- Integer width: file sizes, sums and offsets are unbounded integers; byte and 64-bit hash arithmetic is exact, and lengths wrap modulo 2^64 where XXH64 counts them.
- Transfer.Slice.FinishRead: a completion of zero bytes, which the program treats as a file that has changed, is not modelled.
- Transfer.Slice.GetNextFile: pattern matching and the comparison with existing files are the given choice of wanted rows.
- Transfer.Slice.CreateSlice: per-disk fields are values in a sequence that the methods reassign, and the data buffers are separate arrays; aliasing between fields of one disk is not modelled.
- Planner.Planner.CreateSlices: the file limit of a slice is positive, as the program's start makes it (backup.cpp:952-953).
- PlanRules.PercentDiffMeans: percentages are exact fractions, without the rounding of floating-point division.
- Xxh3.HashChunks: accumulating a stripe, scrambling, the short form and the final mixing are arbitrary functions; the 64-bit length counter does not wrap.
- HeaderLoad.HeaderRoundTrip: paths are without newlines and lines fit the line buffer, as the loader needs; signs of numbers are not read.
- HeaderLoad.LoadSliceHeader: the form that compares the lines with the tables instead of filling them is not modelled; lines with fewer fields than expected are rejected, where the program reads what the tokens of an earlier line still point to.
- Text.Split: tokens are a sequence, so what a write past the token array destroys is not modelled, only when it happens.
- HeaderText.WriteHeader: failing writes, what a line of more than 4096 characters does to the line buffer, and the plain listing of the dry mode are not modelled.
- Shell.QuotingWorksIff: of the shell's rules word splitting, the two kinds of quotes and the characters special at the beginning of an argument are modelled; a text that needs expansions or is a pattern is no word in the model, although a pattern that matches no other file stands for itself.
