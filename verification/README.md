# Verified model of mmap-chunker-core

mmap-chunker-core plans record-aligned byte ranges over files and hands them to parallel
consumers. The same plan is promised by several implementations: a word-at-a-time slice planner,
a buffered planner over short reads, a multi-file planner over mapped files, and a second one that
opens one file at a time. This project states each plan once, as a specification, proves that every
implementation computes it, and proves what the plan guarantees.

A file is an unchanging `seq<byte>`, a byte is `bv8`, a machine word is `bv64`. `usize` is 64 bits
wide; saturating and checked arithmetic is written out where its bound can be reached. Everything
that mutates in the source is a method, a class or an array here, and each is proved against a
specification function; the specification functions in turn are the only things that satisfy a
description in which none of them occurs (`PlanIsDetermined`, `LogicalPlanIsDetermined`,
`ChunksAreDetermined`, `RecordsAreDetermined`, `PlanOfDescribes`, `RetryMeans`). Reads may return short by any legal schedule, mappings, opens and reads may
fail, and a pin check may answer either way: these are choices of the environment and every
contract covers all of them. `reliable` and `steady` mark an environment that does not fail.

Every search in memory notes the bytes it looks at on the `Meter` it is given, one by one in the
scalar loops and eight at a time in the word loop, so a search that is repeated or dropped shows up in
the contracts of its callers. The single look at the bytes before a target, which accepts the target
exactly, is not a search and is not noted.

| file | models |
|---|---|
| `Search.dfy`, `Swar.dfy` | first occurrence of a pattern; the SWAR kernel |
| `Partition.dfy` | the partition specification and the two slice planners |
| `PartitionTheorems.dfy`, `Records.dfy`, `RecordCount.dfy`, `OneByte.dfy`, `Balance.dfy`, `ScanCost.dfy` | what every plan guarantees, and when |
| `PlanMeaning.dfy`, `LogicalMeaning.dfy` | what the plans are, said without the planners' own functions, and that nothing else is |
| `Reads.dfy`, `Source.dfy`, `Windowed.dfy` | byte sources and their backends, buffered planning, the windowed mapping |
| `Logical.dfy`, `LogicalTheorems.dfy`, `LogicalImage.dfy`, `LogicalRecords.dfy`, `SingleSource.dfy` | the multi-file specification and its guarantees |
| `LogicalSteps.dfy`, `LogicalMapped.dfy`, `LogicalSourced.dfy` | the two multi-file planners |
| `Chunking.dfy`, `Engine.dfy` | delimited and fixed chunks, cursors, the plan state machines |
| `RangeReader.dfy`, `NativeClient.dfy`, `EndToEnd.dfy` | the Python consumers |

`dafny verify dfyconfig.toml` checks the whole project.

## Results worth knowing

- The documentation promises that no record is split for any delimiter, and names the doubled CRLF of
  HTTP-style framing. That is false of the code for delimiters that overlap themselves.
  `RecordsKeptIffNoBorder` proves that records are kept, for all files and counts, exactly when the
  delimiter has no border; `OverlapSplitsRecord` gives the failing input for every bordered delimiter,
  and `DelimiterBorders` classifies the documented ones.
- For delimiters longer than one byte the cut set is not the image of the ideal targets, and a
  remembered boundary is not always what a fresh search finds. `ImageIffOneByte` and
  `RememberedIsFreshIffOneByte` prove both hold exactly for one-byte delimiters. The planners are right
  all the same, because they never ask below a remembered boundary (`ProjectLogicalTarget`,
  `ProjectSourcedTarget`).
- The documentation bounds the bytes scanned for one plan by the length of the file. The word loop
  looks up to seven bytes past its answer, so the bound fails: 13 bytes with one delimiter at offset 5,
  three partitions and an address that is 3 modulo 8 cost 14. `ScansWithinFileIffTwoParts` proves that
  it holds for all files, delimiters and addresses exactly up to two partitions (`WordsExceedFile` is
  the failing file for every larger count), `ScanIsBounded` gives the bound that always holds, and
  `LongPartitionsScanWithinFile` a condition on length and count under which the documented one does.
- The documentation promises no more partitions than records. `WithinRecordsIffNoBorder` proves that
  this, too, holds exactly for delimiters without border; `BorderBeyondRecords` is the failing family.
- The documentation bounds the distance of a cut from its target by the longest record.
  `DeviationIffOneByte` proves that this holds for all data exactly for one-byte delimiters;
  `DeviationBounded` gives the bound for every delimiter, and `DeviationIsMet` shows it is reached.
- In the reader, the extra count for an unterminated final range never reaches an offset.

## Model

| member | source | states |
|---|---|---|
| Swar.LowestMarkIsFirstZero | src/scanner.rs:1257-1267 | no borrow reaches the first zero lane: the lowest mark is exactly there, and without a zero lane nothing is marked |
| Swar.MarksExactIff | src/scanner.rs:1262-1262 | every lane is marked exactly when it is zero, if and only if no 0x01 lane stands directly above a zero lane |
| Swar.BorrowMarksFalsely | src/scanner.rs:1262-1262 | the smallest word with such a lane, and the lane that is marked falsely |
| Swar.WordSearch | src/scanner.rs:1257-1267 | the marks vanish exactly when the delimiter is absent from the word, and their trailing zeros name its first position |
| Swar.SearchWord | src/scanner.rs:1257-1267 | one word of the main loop returns the first matching lane or none |
| Swar.ScanBytes | src/scanner.rs:1248-1253 | a scalar loop, prefix or tail, finds the first match of its stretch and looks at every byte up to it once |
| Swar.ScanWords | src/scanner.rs:1257-1267 | the main loop finds the first match of the whole words and looks at every word up to the one that holds it once |
| Swar.FindByteSwar | src/scanner.rs:1231-1278 | for every haystack, byte and starting address the result is the first occurrence, or none exactly when the byte is absent; it looks at each byte up to the end of the answer's word, or to the answer in the scalar parts, exactly once |
| Swar.InspectedBounds | src/scanner.rs:1231-1278 | that end lies past the answer, by at most seven bytes, and never past the haystack |
| Swar.TryCandidate | src/scanner.rs:1054-1062 | one round: no occurrence starts before the candidate, the comparison decides the candidate, and the bytes looked at are bounded |
| Swar.FindPatternInSlice | src/scanner.rs:1037-1066 | first occurrence of a pattern of any length, none for an empty pattern; at most pattern length plus eight bytes looked at per position considered, and none more than seven bytes past the answer |
| Partition.ComputeTarget | src/scanner.rs:1387-1387 | the target t of cut i satisfies t * n <= len * i < (t + 1) * n, and lies strictly inside the data |
| Partition.TargetIsFloor | src/scanner.rs:1387-1387 | that bracket holds of the i-th ideal cut and of nothing else |
| Partition.RangesFromBoundaries | src/scanner.rs:1423-1439 | ranges between consecutive cuts, empty and repeated cuts giving none |
| Partition.ByteBoundary | src/scanner.rs:1392-1411 | one target is accepted exactly or moved behind the next delimiter, else to the end; an accepted target costs no search, any other exactly one |
| Partition.FindPartitionBoundaries | src/scanner.rs:1361-1414 | the one-byte planner returns the specified ranges, and its searches look at exactly the bytes that the specified stretches cost |
| Partition.PatternBoundary | src/scanner.rs:1497-1520 | the same for a multi-byte delimiter, looking at no byte more than seven past the boundary |
| Partition.FindPartitionBoundariesPattern | src/scanner.rs:1466-1523 | the multi-byte planner returns the same specified ranges, also when it delegates to the one-byte planner; its searches look at no more than delimiter length plus eight bytes for each byte of the specified stretches |
| PartitionTheorems.PlanShape | src/scanner.rs:1339-1360 | a plan tiles the data without empty ranges, every range but the last ends behind a complete delimiter, there are at most as many as requested, and none only for an empty request or empty data |
| PlanMeaning.PlanIsDetermined | src/scanner.rs:1324-1360 | for delimiters of any length the planned ranges are the only tiling of the data in which every range ends at the least place where the first ideal target past its start may be moved to, or with the data if no target is left |
| PlanMeaning.SearchesAreDetermined | src/scanner.rs:1382-1413 | one search for each planned range whose target no delimiter precedes, from that target to the end of the range, and no other |
| PartitionTheorems.BoundaryIsLeastPlace | src/scanner.rs:1497-1520 | a target's boundary is the least place where a delimiter ends exactly there, or one starting at or after it ends, or the data ends; nothing else is, for delimiters of any length |
| PartitionTheorems.CapChangesNothing | src/scanner.rs:1374-1380 | for every count at or above the file length the uncapped target loop gives the same cuts and ranges, for delimiters of any length |
| PartitionTheorems.SearchIsBounded | src/scanner.rs:1348-1348 | the stretches from target to boundary are disjoint and together no longer than the file |
| ScanCost.ScanIsBounded | src/scanner.rs:1348-1348 | the bytes looked at for one plan cover every stretch, and number at most the file from its first target on plus six for every search after the first |
| ScanCost.LongPartitionsScanWithinFile | src/scanner.rs:1348-1348 | the documented bound holds up to two partitions, and whenever length / count is at least 6 * (count - 2) |
| ScanCost.WordsExceedFile | src/scanner.rs:1348-1348 | for every count from three on a file that costs one byte more than its length |
| ScanCost.ScansWithinFileIffTwoParts | src/scanner.rs:1348-1348 | the documented bound holds for all files, delimiters and addresses if and only if at most two partitions are requested |
| ScanCost.PatternScanIsBounded | src/scanner.rs:1457-1460 | the multi-byte searches of one plan look at no more than delimiter length plus eight bytes for each byte of the file |
| Records.RecordsAreLocal | src/scanner.rs:1324-1332 | splitting a stretch of the file is splitting the slice on its own |
| Records.RecordsTile | src/scanner.rs:1324-1332 | the records of a stretch tile it and all but the last end in a delimiter |
| Records.RecordsAreDetermined | src/scanner.rs:1324-1332 | the records are the only tiling in which every record, the last one too, ends behind the first delimiter from its start on that fits, or with the stretch |
| Records.SplitAtRecordEnd | src/scanner.rs:1441-1448 | cutting at a record end splits the record list exactly there, for delimiters without border |
| Records.RecordsKept | src/scanner.rs:1441-1448 | splitting every planned range on its own gives the records of the whole file |
| Records.OverlapSplitsRecord | src/scanner.rs:1441-1448 | for every bordered delimiter a file on which the plan splits a record |
| Records.RecordsKeptIffNoBorder | src/scanner.rs:1441-1448 | records are kept for all files and counts if and only if the delimiter has no border |
| Records.DelimiterBorders | src/scanner.rs:1444-1447 | the doubled CRLF has a border; CRLF and single bytes have none |
| RecordCount.NoBorderWithinRecords | src/scanner.rs:1358-1358 | without border a plan has no more partitions than the file has records |
| RecordCount.BorderBeyondRecords | src/scanner.rs:1358-1358 | for every bordered delimiter a file and a count that give more partitions than records |
| RecordCount.WithinRecordsIffNoBorder | src/scanner.rs:1358-1358 | no more partitions than records, for all files and counts, if and only if the delimiter has no border |
| OneByte.BoundaryIsLeastRecordEnd | src/scanner.rs:1324-1332 | a target's boundary is the least record end at or after it, and nothing else is |
| OneByte.OneByteImage | src/scanner.rs:1382-1413 | the cuts are exactly the boundaries of the ideal targets, so skipping and stopping early lose none |
| OneByte.ImageIffOneByte | src/scanner.rs:1382-1413 | that holds for all files and counts if and only if the delimiter is one byte long |
| OneByte.RememberedIsFreshIffOneByte | src/bin/mmap-chunker.rs:814-818 | a remembered boundary equals a fresh search for all ascending targets if and only if the delimiter is one byte long |
| Balance.DeviationBounded | src/scanner.rs:1347-1347 | for delimiters of any length a cut overshoots its ideal target by less than the longest record, plus the delimiter's length if it has several bytes |
| Balance.DeviationIsMet | src/scanner.rs:1497-1520 | that bound is reached: two delimiters with a filler between them, and the target behind the first byte |
| Balance.DeviationIffOneByte | src/scanner.rs:1347-1347 | no cut overshoots by more than the longest record, for all data, if and only if the delimiter is one byte long |
| Balance.PartitionsAreBalanced | src/scanner.rs:1346-1347 | for delimiters of any length no partition is longer than ceil(L / n) plus that overshoot |
| Source.ByteSource.ReadAt | src/source.rs:54-66 | through whichever backend: any positive prefix of what is there, nothing only at the end or for an empty request, bytes outside the window untouched; all that is there unless the source is free to read short |
| Source.Fill | src/source.rs:356-365 | accumulating short reads yields all bytes asked for that exist; also `fill_from` and the tail read |
| Source.ByteSource.ReadAll | src/source.rs:217-235 | the positional source always returns all the bytes asked for that exist, whatever the schedule of the reads below it |
| Source.Probe | src/source.rs:348-375 | one probe finds the first occurrence from the start of the search on, or rules out every start it covers completely |
| Source.FindPatternFrom | src/source.rs:325-393 | first occurrence at or after the start, also across reads; at most the first probe or three times the distance per delimiter byte is read, whichever is more |
| Source.FollowsDelimiter | src/source.rs:480-499 | the buffered exact-target check agrees with the slice planner's |
| Source.SourceBoundary | src/source.rs:480-511 | one buffered target gets the slice planner's boundary |
| Source.PlanPartitionBoundaries | src/source.rs:420-515 | for every source, count, delimiter, buffer size and read schedule a result is the slice planner's plan; errors are only a failed read or an oversized buffer |
| Source.OpenSource | src/source.rs:530-557 | each mode opens its own backend over the file, with its own window size, refusing exactly windows below 64 KiB |
| Source.PlanThroughBackend | src/source.rs:517-557 | mapped, windowed and positional planning all give the slice planner's plan, so every mode that succeeds gives the same ranges; exactly when the window or the buffer is refused, and that only an unreliable file fails otherwise |
| LogicalMeaning.ProjectionIsLeastPlace | src/bin/mmap-chunker.rs:767-800 | for delimiters of any length a logical target moves to the least place at or after it that is a source edge or a place in its own source where that source's target may be moved to, and nowhere else |
| Logical.CheckedTargetIs | src/bin/mmap-chunker.rs:732-737 | target i has no value exactly when its product leaves 128 bits, and else is the whole part of total * i / parts |
| LogicalMeaning.RowsAreDetermined | src/bin/mmap-chunker.rs:906-941 | the rows of an interval are the only ones that cover it in order, each inside its source, no source twice |
| LogicalMeaning.LogicalPlanIsDetermined | src/bin/mmap-chunker.rs:695-765 | for every list of files, delimiter and count a plan gives one worker to each interval of the logical range, where an interval ends at the least place of the first ideal target past its start; nothing else is a plan, and each error occurs exactly when it must |
| LogicalTheorems.ProjectionIsOk | src/bin/mmap-chunker.rs:774-799 | a projected cut inside a source is at a record end of that source |
| LogicalTheorems.CutsAreGoodEnds | src/bin/mmap-chunker.rs:732-750 | cuts increase strictly, stay inside the total, lie at record ends or source edges, and are fewer than the parts |
| LogicalTheorems.RowsTile | src/bin/mmap-chunker.rs:906-941 | the rows of an interval tile it in source order |
| LogicalTheorems.PlanIsSound | src/bin/mmap-chunker.rs:695-800 | workers are numbered 0 to k-1 with k at most the request, rows stay in their source between edges or record ends, and in output order cover every byte of every source exactly once |
| SingleSource.SingleSourceAgrees | src/bin/mmap-chunker.rs:732-764 | for one source the rows are exactly the slice planner's ranges |
| LogicalImage.ProjectionIsClosed | src/bin/mmap-chunker.rs:767-800 | for one-byte delimiters every target between a target and its projection has the same projection |
| LogicalImage.WorkersCutAtProjections | src/bin/mmap-chunker.rs:732-750 | for one-byte delimiters the cuts are exactly the projections of the ideal targets that fall before the end |
| LogicalImage.PlanCutsAtProjections | src/bin/mmap-chunker.rs:725-764 | the same of the plan itself, with the targets of the requested count capped at the total |
| LogicalRecords.PlanKeepsRecords | src/bin/mmap-chunker.rs:695-800 | for a delimiter without border, splitting every row on its own gives the records of all sources in order, also with empty and repeated sources |
| LogicalRecords.AllRecordsKeptIffNoBorder | src/bin/mmap-chunker.rs:695-800 | that holds for all lists of files and counts if and only if the delimiter has no border |
| LogicalSteps.FindFirstPatternFrom | src/bin/mmap-chunker.rs:899-904 | the one-byte-step scan finds the first occurrence |
| LogicalSteps.PrefixSums | src/bin/mmap-chunker.rs:704-714 | all prefix sums, or an error exactly when the total leaves 128 bits |
| LogicalSteps.FindSource | src/bin/mmap-chunker.rs:780-784 | the source that holds a target |
| LogicalSteps.RangesForInterval | src/bin/mmap-chunker.rs:906-941 | the specified rows of an interval |
| LogicalSteps.BuildAssignments | src/bin/mmap-chunker.rs:752-764 | the specified workers for the given ends |
| LogicalMapped.NextRecordBoundary | src/bin/mmap-chunker.rs:808-843 | the remembered boundary if it lies beyond the target, else a fresh search's; the state remembers the answer |
| LogicalMapped.NextRecordBoundaryPattern | src/bin/mmap-chunker.rs:845-892 | the same for multi-byte delimiters |
| LogicalMapped.ProjectLogicalTarget | src/bin/mmap-chunker.rs:767-800 | in a planner run the remembered state never changes the answer, and stays behind the last cut |
| LogicalMapped.MappedCuts | src/bin/mmap-chunker.rs:726-750 | the target loop yields the specified cuts or the overflow error |
| LogicalMapped.PlanLogicalPartitions | src/bin/mmap-chunker.rs:695-765 | the mapped planner returns the specified workers or error |
| LogicalSourced.Disk.Open | src/bin/mmap-chunker.rs:397-413 | a source is opened through its backend only when none is open, and is recorded; the mapped mode and a window that is too small are refused |
| LogicalSourced.ScanSource | src/bin/mmap-chunker.rs:623-689 | both buffered scan loops find the end of the first delimiter, whatever the read schedule |
| LogicalSourced.NextRecordBoundarySourced | src/bin/mmap-chunker.rs:593-693 | the same answer and state as the mapped search |
| LogicalSourced.SwitchSource | src/bin/mmap-chunker.rs:543-563 | the previous source is closed first, sources are opened in increasing order, and a changed length is an error |
| LogicalSourced.ProjectSourcedTarget | src/bin/mmap-chunker.rs:516-576 | the projection of the mapped planner, with at most one source open; a source is opened exactly when the target is no edge and lies in another source than the open one |
| LogicalSourced.SourcedTarget | src/bin/mmap-chunker.rs:473-493 | one target of the loop: skipped exactly when it is not past the last cut, else its projection; the overflow error for a target without value, or an error of the environment |
| LogicalSourced.SourcedCuts | src/bin/mmap-chunker.rs:467-499 | the cuts of the mapped planner, or an error of the environment |
| LogicalSourced.PlanLogicalPartitionsSourced | src/bin/mmap-chunker.rs:425-514 | for unchanging files exactly the mapped planner's result, through the window and through positional reads; sources opened in strictly increasing order, all closed at the end; a file of changed length is never opened or an error |
| Windowed.RetainedIsGood | src/mmap.rs:397-442 | after every request the retained window is aligned, inside the file, bounded, and covers the request |
| Windowed.FreshWindowIs | src/mmap.rs:422-429 | a fresh window starts at the last view alignment at or before the request and ends exactly the window size, or the request if that is longer, after the request starts, cut off at the end of the file |
| Windowed.RetainedIs | src/mmap.rs:397-442 | the cached window is kept exactly when nothing is asked for or it covers the request, and else is replaced by exactly that fresh one |
| Windowed.RunKeepsWindow | src/mmap.rs:397-442 | the same over every run of requests; the window is at most max(window, request) plus 65535 bytes |
| Windowed.WindowedMmapFile.ReadAt | src/mmap.rs:397-442 | every read returns all the file bytes asked for and updates the window as specified; a request inside the cached window never fails or maps anything, and an error leaves the window alone |
| Windowed.WindowedMmapFile.Remap | src/mmap.rs:422-440 | the replaced view is released once, the new one retained |
| Windowed.WindowedMmapFile.Drop | src/mmap.rs:527-536 | at the end every view ever mapped was released exactly once |
| Chunking.NextEnd | src/scanner.rs:27-41 | a chunk ends behind the first complete delimiter that starts a step or more after its start, or with the data if there is none; the saturating step changes nothing |
| Chunking.FindChunkBoundaries | src/scanner.rs:14-48 | the eager scan returns the specified chunks; with a pattern, lines 1080-1120 |
| Chunking.ChunkCursor.Next | src/scanner.rs:994-1018 | yields the next specified chunk and advances; the multi-byte cursor likewise |
| Chunking.Drain | src/scanner.rs:1187-1211 | draining a cursor yields exactly the bytes of the eager chunk list |
| Chunking.ChunkScanIsSound | src/scanner.rs:1-48 | chunks tile the data, each but the last ends at the first delimiter at or after its start plus the step, and their count fits the reserved capacity |
| Chunking.ChunksAreDetermined | src/scanner.rs:14-48 | the scanned chunks are the only tiling of the data in which every chunk, the last one too, ends that way |
| Chunking.FixedBoundsExact | src/scanner.rs:1285-1322 | chunk i is exactly [i * size, (i + 1) * size) cut at the end, existing exactly below the count: saturation is never reached |
| Chunking.FixedChunksTile | src/scanner.rs:1285-1322 | the fixed chunks tile the file |
| Engine.ComputePlan | src/plan.rs:18-45 | the plan each request leaves, computed by the scanners |
| Engine.PlanOfDescribes | src/lib.rs:211-362 | said without the scanners: a delimited request leaves the chunks of the file, a fixed-size one [i * size, (i + 1) * size) cut off at the end, a partition request the plan of that many |
| Engine.PlanOfIsGood | src/plan.rs:18-45 | every computed plan is empty or tiles the file |
| Engine.GoodPlanReads | src/plan.rs:57-72 | below the count every index names its own non-empty chunk inside the file, from the count on none does |
| Engine.RustRunIsGood | src/lib.rs:153-302 | in every reachable state the plan is empty or tiles the file, and a stashed pin error implies an empty plan |
| Engine.EngineRunIsGood | src/ffi.rs:370-759 | in every reachable state, with any failing calls, the plan is empty or tiles the file |
| Engine.EngineRunIsLastAccepted | src/ffi.rs:370-759 | after any run the plan is the one described by the last request that was not rejected |
| Engine.MmapChunker.CheckPinned | src/lib.rs:174-190 | a failed pin empties the plan and is stashed, a successful one clears the stash |
| Engine.MmapChunker.Rescan | src/lib.rs:211-362 | a failed pin leaves an empty plan and the stashed error; any other call leaves the described chunks and their count, and clears the stash of a pinned handle; only a search for an empty delimiter panics |
| Engine.MmapChunker.GetChunk | src/lib.rs:396-400 | the bytes of the indexed chunk exactly below the count |
| Engine.CEngine.Rescan | src/ffi.rs:370-759 | it fails exactly for an empty or oversized delimiter, a changed file, or no partitions of a file that is not empty, and then keeps the plan; otherwise it leaves the described chunks and their count |
| Engine.CEngine.GetChunk | src/ffi.rs:927-963 | in-bounds view below the count; the overflow error cannot occur |
| RangeReader.RecordOffsets | python/mmap_chunker/integrations/datatrove.py:73-109 | raises exactly when some range that is not empty ends beyond the file; otherwise each range's offset is the number of newlines in the ranges before it |
| RangeReader.ReadRange | python/mmap_chunker/integrations/datatrove.py:206-224 | succeeds exactly when the range lies in the file and ends at a line edge, and yields its numbered lines |
| RangeReader.Run | python/mmap_chunker/integrations/datatrove.py:164-197 | exactly when a rank succeeds, the lines it yields, and which error it raises otherwise |
| RangeReader.LinesAreNewlines | python/mmap_chunker/integrations/datatrove.py:73-83 | up to a newline, records and newlines are equally many |
| RangeReader.SequentialMeans | python/mmap_chunker/integrations/datatrove.py:206-224 | line k of a sequential read is the k-th record of the file, with number k |
| RangeReader.ParallelReadIsSequential | python/mmap_chunker/integrations/datatrove.py:126-224 | on a newline plan no rank fails, and the ranks' numbered lines in order are those of one sequential read |
| EndToEnd.RunAllRanks | python/mmap_chunker/integrations/datatrove.py:164-197 | running every rank of a plan with line-edge ranges never fails and concatenates the ranks' lines |
| EndToEnd.ReadWithAllRanks | python/mmap_chunker/integrations/datatrove.py:138-224 | planning with `plan_file`, building offsets and running all ranks yields exactly one sequential read of the file |
| NativeClient.PlanPartitionRanges | src/ffi.rs:810-899 | reports the count and fills the buffer only if the whole plan fits |
| NativeClient.Attempt | python/mmap_chunker/_native.py:243-283 | one round: what its counting and filling calls saw and answered, and the plan, the error or the retry that follows |
| NativeClient.PlanInTwoPhases | python/mmap_chunker/_native.py:241-288 | at most two rounds, the second exactly after a first whose buffer became too small; a result is the complete plan the last native call saw; a steady file succeeds in one round |
| NativeClient.RetryMeans | python/mmap_chunker/_native.py:242-288 | it tries again exactly when the plan grew between counting and filling, and gives up on a changing count exactly when it grew twice |
| NativeClient.FillDecides | python/mmap_chunker/_native.py:278-283 | a filling call that finds a plan no longer than the one counted decides the result |
| NativeClient.FailureMeans | python/mmap_chunker/_native.py:260-281 | a failed counting or filling call, and nothing else, ends the client with the error of its kind |
| NativeClient.CheckCoverage | python/mmap_chunker/planning.py:387-399 | accepts exactly consecutive ranges from 0 to the file size |
| NativeClient.VerifyRecordAlignment | python/mmap_chunker/planning.py:189-216 | accepts exactly plans whose boundaries follow the delimiter byte |
| NativeClient.AlignmentMeans | python/mmap_chunker/planning.py:189-216 | on ranges that cover the file the check accepts exactly the record-aligned ones |
| NativeClient.PlanPassesChecks | python/mmap_chunker/planning.py:383-400 | a plan of the file itself passes both checks |
| NativeClient.LengthsDetermineRanges | python/mmap_chunker/planning.py:295-307 | consecutive ranges are determined by their lengths, so rebuilding offsets is a round trip |
| NativeClient.PlanFileRanges | python/mmap_chunker/planning.py:313-402 | a window that is too small is refused; for a steady file and every backend the slice planner's ranges; for any other file exactly what the checks make of the two-phase result |
| NativeClient.CheckedMeans | python/mmap_chunker/planning.py:383-402 | a result is passed on exactly when it covers the size seen first and is aligned in the bytes seen last, and then is the complete plan of contents the client saw |
| NativeClient.PlanFile | python/mmap_chunker/planning.py:219-310 | plan, fetch lengths, rebuild and check gives the slice planner's ranges when the size is the mapped one, and the error of its kind for every other size |

## Left out

- System calls, handle lifetime, `madvise`, open paths and `probe_mmap_eligible`: foreign calls; mapping picks an interval of the file.
- The stat comparison of `src/pin.rs`: single-branch checks; revalidation answers either way.
- Argument parsing, help text and output of the command line: plumbing.
- C pointer validity, panic containment, the error buffer, ABI and capability bits.
- JSON decoding, document adapters, skip and limit statistics of the reader; lines are yielded as byte ranges.
- Allocation failure; only the size guard of the buffered planner is an error. The multi-file planner allocates its buffer without a guard.
- Threads: the lock around the cached window serialises reads, so runs of reads are sequences.
- Source.ByteSource.ReadAt: a source that answers nothing before its end is not legal here, so the loops' exit on an empty read is unreachable and not repeated in every loop.
- ScanCost.ScansWithinFileIffTwoParts: the condition is on the count alone; for larger counts the documented bound depends on length, delimiters and address, and only a sufficient condition is given.
- Chunking.ChunkCursor.Next: one class stands for the one-byte and the multi-byte cursor, which differ only in the search they call.
- Engine.MmapChunker.Rescan: one method stands for the five scan and partition calls, which differ only in the plan they compute; likewise Engine.CEngine.Rescan.
