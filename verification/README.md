# Storage engine and rings: a verified model

This project models two parts of the repository in Dafny and proves what they promise:

* the `bypass-db` storage engine: batches, the binary batch codec, the write-ahead log with its CRC-32
  (the CRC of section 8 of RFC 1952), sealed column segments, the table that moves rows between log,
  memory and segments, and queries over pruned segments, mapped columns, compressed selections, chunk
  lists and four-lane kernels;
* the lock-free rings and the buffer pool of `bypass-io`, as systems of interleaved atomic steps.

The main results:

* In every run of open, append, flush and compact with crashes between any two disk steps, the manifest
  lists only intact segments, reopening succeeds, and the reopened table shows the rows of the surviving
  appended batches, each exactly once; what was in the log at the last good flush always survives
  (`Safety`). Each operation's outcome, its rows in scan order and the directories it leaves are given
  outright (`ScanOrder`). A crash that cuts the log inside a record leaves a directory that opens exactly
  when fewer than 16 bytes of the record remain (`TornTails`).
* On every table in use a time-range scan and a predicate query, through pruning, mapping, selections,
  chunks and the vector kernels, return exactly the plain filter of the logical rows (`Query`, `Safety`).
* The codec is a bijection between schema-shaped batches within the length limits and the payloads that
  decode; the log reader accepts exactly the logs of whole records followed by a clean end; both formats
  are also given byte by byte (`Layout`); damage within 32 consecutive bits of a record is always a
  checksum mismatch (`Codec`, `Framing`, `Crc32`, `Wal`).
* The multi-producer ring never reads an unwritten or writes over an unread slot under any
  interleaving, and pops in reservation order; the single-producer ring does so with views that lag;
  the pool neither loses nor duplicates a buffer and hands them out first in, first out (`MpscSafety`,
  `SpscRing`, `BufPool`). The code of each operation keeps its promise whatever the other threads do
  between its atomic steps (`MpscCode`, `SpscCode`, `BufPool`).
* Two promises fail, each shown by a concrete run of the table and with its exact condition: compaction
  does not keep the scan order, and an accepted append can leave a table that does not open
  (`Witnesses`).

## How it is laid out

| file | content |
|---|---|
| `Wrappers`, `Bytes`, `Utf8`, `Words`, `Counters`, `Floats`, `Paths` | results, little-endian words, UTF-8, masks, wrapping counters, the IEEE order on bit patterns, sequences of steps |
| `Batch`, `Rows` | schemas, columns and batches; batches as plain row sequences, and the plain filter |
| `Codec`, `Payload`, `DecodeErrors` | the batch format as printers and parsers; the encoder and decoder that run it; which error a bad payload gives |
| `Layout` | payloads, log records and column files byte by byte, without printers or parsers |
| `Crc32`, `Framing`, `Wal` | the checksum; the record format for any checksum; the log with its CRC |
| `Segment`, `Sealing` | column files, mapped columns, pruning; writing a segment step by step |
| `Storage`, `TableRuns`, `Table` | the directory and its atomic steps; what each operation leaves behind; the `Table` class |
| `Compaction`, `TableState`, `TableSteps`, `CompactSteps`, `OpenSteps`, `Validation` | what disk and memory stand for, and that each operation keeps it |
| `Crashes`, `Recovery`, `Safety` | whole runs with crashes, and the main results about them |
| `ScanOrder` | what each operation does to the rows shown, in scan order, and how it ends |
| `TornTails`, `Witnesses` | logs cut at any byte; the runs that break two documented or expected promises |
| `Selection`, `Simd`, `Chunks`, `Scan`, `Query` | selections, kernels, chunk lists, scan results, queries |
| `MpscRing`, `MpscSafety`, `SpscRing`, `BufPool` | the concurrent structures as step systems, and their runs |
| `MpscCode`, `SpscCode`, and class `Shared` of `BufPool` | the code of their operations on words and slot arrays, each statement one step of the system, the other threads running in between |

A batch operation, table operation or parser that changes state is a method proved against a function
of the old state; the functions carry the lemmas. The table's disk is a value that changes by atomic
steps (create a directory, write a column file, write the metadata, replace the manifest, remove a
directory, append a record, sync), and `Volume` records every state, so a method's contract fixes each
intermediate state a crash can leave. An operation of a ring or of the pool takes a schedule: bursts of
other threads' steps, one of which runs before each of its own atomic steps; its contract holds for
every schedule and speaks of the state in which the outcome was decided. Record framing is generic in the checksum, and the invariants are
generic in how directories and records are read, so that each layer is proved once and by itself.

I/O enters as follows: a file's content is a byte sequence, a mapping is the file's bytes, the presence
of AVX or AVX2 is a boolean argument of every filter, and the rounding cast from `i64` to `f64` in
predicates is an argument of the predicate constructors.

## Model

| member | source | states |
|---|---|---|
| Batch.Build | bypass-db/src/batch.rs:205-245 | the builder returns a batch exactly when the column count is right and each schema column is found by name with its type, widths and a common row count, and then that one batch; otherwise the first failure in schema order |
| Batch.FailsAt | bypass-db/src/batch.rs:213-237 | the first schema column that does not fit decides the builder's error: missing, of another type, of a wrong string width, or of another length than the first |
| Batch.BatchBuffer.Append | bypass-db/src/batch.rs:152-169 | appending in place grows columns up to the first mismatch and reports it; the row count grows only on success |
| Batch.AppendStops | bypass-db/src/batch.rs:46-64 | exactly the columns before the first pair of different names or types have grown, and which error that is |
| Batch.AppendOutcomes | bypass-db/src/batch.rs:152-169 | an append leaves everything for another number of columns, keeps the row count when a column stops it, and otherwise adds every column and then the row count, unless that overflows |
| Batch.AppendValid | bypass-db/src/batch.rs:152-169 | appending builder-valid batches of one schema succeeds and is builder-valid |
| Batch.PickBatchRows | bypass-db/src/batch.rs:171-182 | every column of the result has the picked values in index order, and the row count is the number of indices |
| Rows.AppendBatchRows | bypass-db/src/batch.rs:152-169 | appending batches appends their rows |
| Codec.DecodeIffEncoded | bypass-db/src/table.rs:342-448 | a payload decodes to a batch exactly when the batch is schema-shaped, within the length limits, and the payload is its encoding: both round trips, no trailing or alternative form |
| Codec.DecodeOfEncoded | bypass-db/src/table.rs:342-448 | decoding an encoding gives the batch back |
| Codec.EncodedOfDecode | bypass-db/src/table.rs:383-448 | whatever decodes re-encodes to the same bytes |
| Codec.ReorderedBatchIsUnreadable | bypass-db/src/table.rs:394-402 | an encoded batch whose columns are in another order never decodes |
| Payload.EncodeBatch | bypass-db/src/table.rs:342-381 | the bytes are laid out as the batch, literal tag bytes and little-endian numbers included, and are its encoding; or the error with the first length, in writing order, that its 32-bit field cannot hold |
| Payload.DecodeBatch | bypass-db/src/table.rs:383-448 | a batch comes out exactly when it has the schema's shape, fits its length fields and the payload is laid out as it; otherwise the error is the format's parser's, a name that is not UTF-8 told apart from one out of order |
| Utf8.IsUtf8Iff | bypass-db/src/table.rs:395-396 | a name passes as UTF-8 exactly when it is scalar values end to end, each in its shortest form |
| Layout.PayloadIff | bypass-db/src/table.rs:342-381 | the encoding of a batch is the one byte sequence with the row count and column count in bytes 0-15 and then each column's name, literal type byte, width, count and cells in their places, numbers as sums of their bytes |
| Layout.DecodedIff | bypass-db/src/table.rs:383-448 | a payload decodes to a batch exactly when it is laid out so, for a batch of the schema's shape |
| DecodeErrors.CutIsUnexpectedEnd | bypass-db/src/table.rs:556-582 | an encoding cut short at any byte ends too early, and is never taken for another batch |
| DecodeErrors.MoreIsTrailing | bypass-db/src/table.rs:446 | an encoding with anything behind it is refused for its trailing bytes |
| DecodeErrors.OtherCountIsRefused | bypass-db/src/table.rs:383-392 | an encoding with another number of columns than the schema is refused for that |
| DecodeErrors.ColumnErrors | bypass-db/src/table.rs:394-443 | which error a column gives: a name that is not UTF-8, a name out of order, an unknown type byte, a type other than the schema's, in that order |
| DecodeErrors.FirstBadColumnDecides | bypass-db/src/table.rs:393-446 | behind good columns the first bad one's error is the decoder's |
| Payload.ReadColumns | bypass-db/src/table.rs:393-445 | the column loop reads what the column parser gives and leaves the cursor behind it |
| Payload.PayloadReader.ReadArray | bypass-db/src/table.rs:571-582 | exactly the next bytes are consumed, or an error when too few are left |
| Payload.PayloadReader.ReadBytes | bypass-db/src/table.rs:556-569 | a length-prefixed blob is read as the format's parser reads it |
| Crc32.Checksum32 | bypass-db/src/wal.rs:256-266 | the masked shift loop computes the bit-serial CRC-32 of the message |
| Crc32.KnownAnswers | bypass-db/src/wal.rs:256-266 | the checksum of three messages, as numbers |
| Crc32.PolyValue | bypass-db/src/wal.rs:262 | the constant in the loop is the CRC-32 generator polynomial with its bits reflected |
| Crc32.FeedLinear | bypass-db/src/wal.rs:256-266 | the register after a message is linear in register and message |
| Crc32.FeedInjective | bypass-db/src/wal.rs:259-263 | feeding the same message keeps different registers different |
| Crc32.ShortPatternsDoNotVanish | bypass-db/src/wal.rs:259-263 | no non-zero pattern of at most 32 bits returns the register to zero |
| Crc32.BurstChangesChecksum | bypass-db/src/wal.rs:256-266 | two messages of one length that differ only inside 32 consecutive bits have different checksums |
| Crc32.FourByteDamageIsABurst | bypass-db/src/wal.rs:256-266 | differing only inside four consecutive bytes is such a difference |
| Crc32.MatchIffResidue | bypass-db/src/wal.rs:87-93 | a stored checksum matches exactly when message and checksum together leave the fixed residue |
| Crc32.BurstBreaksMatch | bypass-db/src/wal.rs:87-93 | damage within 32 consecutive bits of message and stored checksum, across both included, breaks the match |
| Framing.Format.DecodeOfEncoded | bypass-db/src/wal.rs:45-96 | a record's encoding in front of any bytes is read back whole |
| Framing.Format.EncodedOfDecode | bypass-db/src/wal.rs:63-96 | whatever is read as a record is that record's encoding, byte for byte |
| Framing.Format.ReadLogIff | bypass-db/src/wal.rs:205-219 | a log reads as a record list exactly when it is their encodings followed by fewer than 16 bytes or bytes without the magic |
| Framing.Format.ReadLogOfCut | bypass-db/src/wal.rs:63-84 | a log of whole records cut at any byte reads as its complete records when fewer than 16 bytes of the next remain, and as an error otherwise |
| Framing.Format.MismatchEndsScan | bypass-db/src/wal.rs:91-93 | a record with a failing checksum ends the scan with a mismatch naming its sequence number, whatever follows |
| Framing.Format.AppendVisibleIff | bypass-db/src/wal.rs:113-152 | a record appended behind an unread tail is seen by the next reader exactly when its bytes are still in front |
| Framing.Format.TornTailHidesAppend | bypass-db/src/wal.rs:113-152 | one to three torn bytes hide every record appended after them |
| Framing.Format.TornHeaderHidesAppend | bypass-db/src/wal.rs:113-152 | behind a torn header of any length a record with sequence number and length below 2^30 is never in front: the magic stands nowhere else in its header |
| Wal.Encode | bypass-db/src/wal.rs:45-61 | the buffer is the magic, the sequence number, the length, the payload and the checksum of all that, each in its bytes; or the payload is too large |
| Layout.RecordIff | bypass-db/src/wal.rs:45-61 | a record's encoding is the one byte sequence with each field in its place, for any checksum |
| Wal.LogReader.DecodeFrom | bypass-db/src/wal.rs:63-96 | one read of the file is one decoding step of the format and consumes what the step takes |
| Wal.Records | bypass-db/src/wal.rs:212-219 | the record loop returns exactly what the log reads as |
| Wal.DamagedRecordIsMismatch | bypass-db/src/wal.rs:63-96 | damage within 32 consecutive bits of a record that spares magic and length always gives a checksum mismatch |
| Segment.ColumnFile | bypass-db/src/segment.rs:419-448 | the column loop writes the cells end to end, or fails exactly when a string has another width |
| Layout.FileIff | bypass-db/src/segment.rs:419-448 | a column's file is the one byte sequence with the i-th cell at i times the width: float bits, two's complement, string bytes |
| Segment.ThreeReadsAgree | bypass-db/src/segment.rs:191-231 | the whole-file read, the mapped cell readers and the original column agree for every row and type |
| Segment.ReadThenWriteColumn | bypass-db/src/segment.rs:450-491 | every file of the right length is the file of exactly the column read from it |
| Segment.PruningKeepsMatches | bypass-db/src/segment.rs:275-280 | a segment skipped by its min and max holds no timestamp in the range |
| Segment.PruningSkipsIff | bypass-db/src/segment.rs:275-280 | a segment is skipped exactly when it is empty, all its timestamps are before the start, or none is before the end |
| Segment.MapIntactColumn | bypass-db/src/segment.rs:309-346 | mapping a column of an intact, non-empty segment gives exactly the sealed values |
| Segment.ReadBatch | bypass-db/src/segment.rs:288-300 | the column loop returns the batch in the files, or the first error in schema order |
| Segment.ReadFilesFailAt | bypass-db/src/segment.rs:288-300 | the first column that cannot be read decides the error: a bad file name, a missing file or a wrong length |
| Segment.IntactReadsBack | bypass-db/src/segment.rs:288-300 | an intact directory reads back as the batch sealed into it |
| Sealing.WriteColumns | bypass-db/src/segment.rs:373-389 | the column loop leaves exactly the disk states of the run, up to the first column that cannot be written |
| Sealing.SealBatch | bypass-db/src/segment.rs:354-401 | sealing leaves exactly the disk states of its run and returns its metadata or error |
| Sealing.SealTouchesOneDir | bypass-db/src/segment.rs:354-401 | however it ends, sealing writes nothing outside its own directory |
| Sealing.SealedIff | bypass-db/src/segment.rs:354-401 | sealing a builder-valid batch succeeds exactly when every column name can be a file name, and then the directory is intact whatever a crash had left in it |
| Sealing.SealSteps | bypass-db/src/segment.rs:354-401 | the directory is made first, then each column is written whole in schema order, and the metadata comes last; the first name that cannot be a file name ends it there and is named in the error |
| Table.WalWriter.Append | bypass-db/src/wal.rs:140-152 | the record is appended under the next sequence number, which is returned, and is used up even when the payload is too large |
| Table.Table.Append | bypass-db/src/table.rs:99-105 | memory, every disk state, and the row count or the exact failure are those of the append run: validate, encode, log, then grow the active batch |
| Table.Table.Flush | bypass-db/src/table.rs:162-180 | memory, failure and every disk state are those of the flush run, the log synced first |
| Table.Table.Compact | bypass-db/src/table.rs:218-285 | memory, failure and every disk state are those of the compaction run, removals last |
| Table.Table.ScanTimeRange | bypass-db/src/table.rs:113-140 | on a sound table the result stands for exactly the rows in range, in order, or is the overflow error when they cannot be counted |
| Table.Table.ScanWhere | bypass-db/src/table.rs:147-155 | on a sound table the result stands for exactly the rows in range that pass the predicate, in order; an unknown column is refused |
| Table.Open | bypass-db/src/table.rs:34-59 | memory, failure and every disk state are those of the opening run |
| Table.CombineSelected | bypass-db/src/table.rs:236-245 | one pass yields the combined batch, the first selected place and the old directories |
| Table.ReplaceSelected | bypass-db/src/table.rs:259-273 | the loop with the replacement slot builds the new segment list |
| Table.ValidateRows | bypass-db/src/table.rs:322-340 | validation reports the first missing or mistyped schema column |
| Table.ReplayAll | bypass-db/src/table.rs:47-50 | replaying recovered batches in place gives the replayed batch or the first failure |
| Validation.ValidateIff | bypass-db/src/table.rs:322-340 | validation accepts exactly the batches with as many columns as the schema and one of each name and type, in any order |
| Validation.ValidateRefusal | bypass-db/src/table.rs:322-340 | the first schema column the batch does not have, by name and type, decides the error |
| Validation.ReadableIff | bypass-db/src/table.rs:322-402 | of the batches validation accepts, exactly those in schema order can be read back from the log |
| Validation.AcceptedAppendReopensIff | bypass-db/src/table.rs:99-105 | appending an accepted, loggable batch succeeds and leaves a table that opens exactly when its columns are in schema order; otherwise the append and the next opening fail with these two errors |
| Compaction.ReplacedParts | bypass-db/src/table.rs:259-273 | the replacement stands once, at the first selected place, between the unselected segments in their old order |
| Compaction.OrderKeptIff | bypass-db/src/table.rs:259-273 | the old segments keep their scan order exactly when no unselected one stands between two selected ones |
| Compaction.CompactionKeepsRows | bypass-db/src/table.rs:236-273 | the rows are kept as a bag for any selection, and as a sequence for an adjacent one |
| Compaction.OuterTwoOfThree | bypass-db/src/table.rs:259-273 | compacting the outer two of three segments keeps the row order exactly when the last two segments' rows commute |
| TableState.Reading.DiskFrame | bypass-db/src/table.rs:34-59 | steps outside the listed directories that lose no log byte keep what the disk stands for |
| TableSteps.AppendKeeps | bypass-db/src/table.rs:99-105 | appending a builder-valid batch adds exactly that batch to what disk and memory stand for, or changes neither |
| TableSteps.FlushKeeps | bypass-db/src/table.rs:162-180 | every state of a flush stands for the same history, the log ends up synced, and it succeeds unless a name cannot be a file name or ids are used up |
| CompactSteps.CombinedRows | bypass-db/src/table.rs:236-245 | the combined batch holds the selected segments' rows in manifest order |
| CompactSteps.CompactKeeps | bypass-db/src/table.rs:218-285 | every state of a compaction stands for the same history; each outcome is given, with the set of unknown ids; on success the replaced directories are gone, the next one is there and no other has come or gone, and the sealed rows are those of the unselected segments in their places and all the selected at the first selected place |
| CompactSteps.AdjacentKeepsOrder | bypass-db/src/table.rs:218-285 | for adjacent selections these are the old rows in the old order |
| OpenSteps.OpenKeeps | bypass-db/src/table.rs:34-59 | opening a good disk succeeds and gives the memory its history calls for |
| OpenSteps.SegmentsLoadIff | bypass-db/src/table.rs:34-43 | the segments load exactly when every listed directory is there with its metadata |
| OpenSteps.CutKeeps | bypass-db/src/table.rs:288-299 | after losing unsynced records the disk stands for a prefix of the history that covers all applied records |
| Crashes.StepSafe | bypass-db/src/table.rs:34-285 | any operation, run to its end or cut off after any disk step, leads from a safe world to a safe world with the durable history unchanged |
| Recovery.TableWorks | bypass-db/src/table.rs:34-285 | the table's operations keep what disk and memory stand for at every point of their runs, and never shrink the durable log |
| Safety.EveryWorldIsSafe | bypass-db/src/table.rs:34-285 | the invariant holds in every world of every run with crashes |
| Safety.ManifestIsIntact | bypass-db/src/table.rs:162-277 | in every reachable directory the manifest lists distinct ids below the next one, each with an intact, non-empty segment whose row count, smallest and largest timestamp are those in the entry |
| Safety.AppliedNeverExceedsLog | bypass-db/src/table.rs:162-180 | in every reachable directory the log reads as exactly the surviving history, and the manifest claims no more records than that |
| Safety.ReopeningRecovers | bypass-db/src/table.rs:34-59 | reopening any reachable directory succeeds and shows the rows of the surviving appended batches, each exactly once |
| Safety.LiveTableShowsHistory | bypass-db/src/table.rs:99-180 | a table in use shows exactly the rows of its history, fewer than 2^64, and its snapshot meets the query theorems' condition |
| Safety.ScanInUse | bypass-db/src/table.rs:113-140 | a time-range scan on any table in use succeeds with exactly the history's rows in range |
| Safety.QueryInUse | bypass-db/src/table.rs:147-155 | a query on any table in use succeeds with exactly the history's rows in range that pass, or is refused for naming no column |
| Safety.RangeInUse | bypass-db/src/scan.rs:588-605 | a range query returns exactly the rows in the time range whose cell is a number from min up to but without max: a float, or an integer after the cast; strings never match |
| Safety.GtInUse | bypass-db/src/scan.rs:625-641 | a greater-than query returns exactly those whose cell is a number above the threshold |
| Safety.ScalarInUse | bypass-db/src/scan.rs:661-669 | a scalar query returns exactly those whose cell is a byte string equal to the value |
| Safety.ReachableAppendReopensIff | bypass-db/src/table.rs:99-105 | on any reachable table an accepted append leaves a table that opens exactly when the batch's columns are in schema order |
| Safety.FlushedIsNeverLost | bypass-db/src/table.rs:162-180 | what was in the log at the last good flush stays a prefix of every later history |
| ScanOrder.AppendToReachable | bypass-db/src/table.rs:99-105 | on any table in use an append adds its batch's rows behind those shown and one record under the next number to the log; or it fails with the disk and the rows as they were, for one of three reasons told apart |
| ScanOrder.FlushOfReachable | bypass-db/src/table.rs:162-180 | a flush never changes the rows shown or their order; with active rows it adds one segment of them behind the others and counts the whole log as applied, or names the first bad column name, or finds the ids used up |
| ScanOrder.CompactionOfReachable | bypass-db/src/table.rs:218-285 | of any selection the rows shown are then the old segments' in their new order and the active ones, and the selected directories are gone, the next one there, the others untouched by name |
| ScanOrder.ReopeningOfReachable | bypass-db/src/table.rs:34-59 | opening the directory of a table in use changes nothing on disk and shows the same rows in the same order, the next sequence number that of the records |
| ScanOrder.AppendInUse | bypass-db/src/table.rs:99-105 | the table's append succeeds exactly when the batch fits its length fields, a sequence number is left and the record is not too large; it then shows the batch's rows behind the others |
| ScanOrder.FlushInUse | bypass-db/src/table.rs:162-180 | the table's flush shows the same rows, and fails exactly when there are active rows and a name cannot be a file name or the ids are used up |
| ScanOrder.CompactInUse | bypass-db/src/table.rs:218-285 | the table's compaction fails exactly for an unknown id or used-up ids, and otherwise leaves the rows in their new order and exactly the directories it should |
| TornTails.CutOpensIff | bypass-db/src/wal.rs:63-84 | a good disk with its log cut at any unsynced byte opens exactly when fewer than 16 bytes of the next record are left, with the memory of the complete records' batches; otherwise opening is an I/O error |
| TornTails.AnyCutReopensIff | bypass-db/src/table.rs:34-59 | the same for any operation of any run cut off after any disk step: when it opens, the table shows exactly the rows of the complete records' batches, and these cover the last good flush |
| TornTails.AppendSurvivesIff | bypass-db/src/wal.rs:113-152 | an append after such a reopening succeeds, and the next reader sees it, and the next table shows it, exactly when nothing of a torn record was left; behind one to three torn bytes the next table is the one before the append |
| Witnesses.OuterTwoCompacted | bypass-db/src/table.rs:218-285 | for any three batches that can be stored, a run that appends and flushes them one by one and compacts segments 1 and 3: the last batch's rows then come before the second's |
| Witnesses.ScanOrderKeptIff | bypass-db/src/table.rs:259-273 | such a run keeps the scan order exactly when the second and third batch's rows commute |
| Witnesses.CompactionReorders | docs/bypass-db-storage.md:62-65 | a run in which rows stamped 1, 2 and 3 are scanned as 1, 3, 2 after a compaction, against the documented claim |
| Witnesses.MisorderedIsUnopenable | bypass-db/src/table.rs:99-105 | any accepted, loggable batch out of schema order leaves a table just created in a state that does not open |
| Witnesses.AppendLeavesUnopenable | bypass-db/src/table.rs:322-340 | one such batch: a float and a timestamp column in the other order than the schema's |
| Selection.FromIndicesDenotes | bypass-db/src/scan.rs:193-212 | whichever form is chosen selects exactly the given rows; the identity form exactly for the whole column, a list only when no range would do |
| Selection.TakeLocalComposes | bypass-db/src/scan.rs:244-252 | taking positions of a selection composes with it, positions past the end skipped |
| Simd.PushMaskIndices | bypass-db/src/scan.rs:1353-1359 | extracting lowest set bits appends the positions of the one bits in ascending order |
| Simd.MaskBitsAreMatches | bypass-db/src/scan.rs:1170-1201 | the one bits of a block's mask are the block's hits |
| Simd.MatchesSound | bypass-db/src/scan.rs:1010-1020 | every hit is in range, passes, and is larger than the one before |
| Simd.MatchesComplete | bypass-db/src/scan.rs:1010-1020 | every cell that passes is among the hits |
| Simd.RangeFilterI64Avx2 | bypass-db/src/scan.rs:1170-1212 | the four-lane kernel with its scalar tail returns the scalar filter's list for every buffer and every start and end, the smallest start included |
| Simd.RangeFilterI64Bytes | bypass-db/src/scan.rs:992-1021 | with or without the vector unit the answer is the scalar filter's, and a length that is no multiple of eight is refused |
| Simd.FilterF64ValuesAvx | bypass-db/src/scan.rs:1216-1273 | the range and greater-than kernels over values return their scalar filters' lists, NaN included |
| Simd.FilterF64BytesAvx | bypass-db/src/scan.rs:1276-1350 | the range and greater-than kernels over bytes return their scalar filters' lists |
| Simd.FilterF64Values | bypass-db/src/scan.rs:1023-1047 | with or without the vector unit the answer over values is the scalar filter's |
| Simd.FilterF64Bytes | bypass-db/src/scan.rs:1096-1148 | with or without the vector unit the answer over bytes is the scalar filter's, and a bad length is refused |
| Chunks.FlattenChunks | bypass-db/src/scan.rs:794-840 | flattening owned and mapped chunks gives the contiguous column |
| Chunks.ValueAt | bypass-db/src/scan.rs:937-987 | walking the chunks finds the contiguous column's cell, and nothing past its end |
| Chunks.GroupIndicesByChunk | bypass-db/src/scan.rs:916-935 | the groups, mapped back by chunk, concatenate to the located input list, and no two neighbouring groups are of one chunk |
| Chunks.LocateAllGathers | bypass-db/src/scan.rs:916-935 | located pairs pick exactly the in-range elements of the contiguous column in input order |
| Chunks.TakeChunks | bypass-db/src/scan.rs:842-914 | taking indices from chunks equals indexing the contiguous column, for unsorted and repeated indices and across empty and mixed chunks |
| Scan.BuiltInPredicatesAreExact | bypass-db/src/scan.rs:588-669 | the three built-in predicates announce float forms that agree with their own tests on float cells |
| Query.NumericHits | bypass-db/src/scan.rs:588-641 | on integer cells the two numeric predicates select the positions the kernel tests select among the cast values; on string cells they select none |
| Floats.OrderOfNumbers | bypass-db/src/scan.rs:597-604 | the comparisons on bit patterns are those of the numbers the patterns stand for, subnormals and both zeros included |
| Floats.OrderOfTheRest | bypass-db/src/scan.rs:597-604 | the infinities bound all finite numbers, and no comparison holds of a NaN |
| Scan.FilterSelection | bypass-db/src/scan.rs:1049-1094 | the raw-bytes path and the per-row path find the same positions of a scanned selection |
| Scan.IdentityFastPathIff | bypass-db/src/scan.rs:1049-1059 | for an identity selection shorter than its column the raw-bytes path is right exactly when no row behind it passes |
| Scan.ShortIdentityIff | bypass-db/src/scan.rs:244-252 | picking rows leaves an identity selection shorter than its column exactly when it picks the column's first rows, in order, as many as the selection had, and the column goes on |
| Scan.PickedRangeIsShort | bypass-db/src/scan.rs:244-252 | picking all of a range at the start of a longer column is such a pick |
| Scan.FilterFloatColumn | bypass-db/src/scan.rs:437-471 | chunk-local hits moved to each chunk's base are the contiguous column's hits |
| Scan.FilterScanIndices | bypass-db/src/scan.rs:715-737 | whichever path a predicate takes, the positions are those whose cell passes its test |
| Scan.PickScanRows | bypass-db/src/scan.rs:96-106 | every column of the picked result stands for the picked values |
| Scan.ScanResult.AppendColumns | bypass-db/src/scan.rs:71-94 | appending succeeds exactly when names, types and count line up and the row count fits, and then every column has the incoming chunks behind its own |
| Query.ScanSegment | bypass-db/src/table.rs:116-136 | one segment contributes exactly its rows in range, nothing when pruned or without hits, and an identity selection spans the whole mapped column |
| Query.FilterTimeBatch | bypass-db/src/table.rs:301-320 | the active batch contributes exactly its rows in range, in order |
| Query.ScanTimeRange | bypass-db/src/table.rs:113-140 | on any valid snapshot the scan fails only when the row count overflows, and otherwise stands column by column for the plain filter of the logical rows |
| Query.ScanWhere | bypass-db/src/table.rs:147-155 | on any valid snapshot a query stands for the plain filter by time and predicate, and an unknown column is refused |
| MpscRing.WriteFindsFreeSlot | bypass-io/src/ring/mpsc.rs:88-97 | a reserving producer finds its slot free: no unread item, no ready flag |
| MpscRing.ReadFindsItem | bypass-io/src/ring/mpsc.rs:117-125 | the consumer reads the oldest reserved item, whole |
| MpscRing.ReservationHasRoom | bypass-io/src/ring/mpsc.rs:83-88 | the compare-and-exchange succeeds only if nobody reserved since head was loaded, and then a place is free |
| MpscSafety.StepKeeps | bypass-io/src/ring/mpsc.rs:75-128 | every atomic step that can be taken is memory-safe and keeps the invariant, head and tail wrapping |
| MpscSafety.RingIsSafe | bypass-io/src/ring/mpsc.rs:75-146 | in every reachable state head minus tail is the number of unpopped reservations, at most the capacity, and the popped items are the first reserved, in order |
| MpscSafety.OrderNeverChanges | bypass-io/src/ring/mpsc.rs:75-128 | reservation order and popped items only ever grow at the end |
| MpscSafety.PushRefusedIff | bypass-io/src/ring/mpsc.rs:76-81 | push returns the item exactly when the ring is full as tail is loaded and its head value is current |
| MpscSafety.PopNoneIff | bypass-io/src/ring/mpsc.rs:110-120 | pop returns nothing exactly when the ring is empty at its head load or the next reserved slot is unpublished at its ready load |
| MpscSafety.ReadyIff | bypass-io/src/ring/mpsc.rs:89-127 | in a quiescent state a slot is ready exactly when it holds a reserved item not yet popped |
| MpscCode.Shared.Push | bypass-io/src/ring/mpsc.rs:75-105 | whatever the other threads do in between, with any number of lost or spuriously failing exchanges: push refuses only on a ring that was full as tail was loaded and then reserves nothing; otherwise its item took the next place of a ring with room, once, and is published |
| MpscCode.Shared.Pop | bypass-io/src/ring/mpsc.rs:110-128 | whatever the producers do in between: pop finds nothing only if nothing was reserved at its head load or the next place was unpublished at its ready load; otherwise it hands out the oldest item and gives its slot back |
| MpscCode.Shared.Destroy | bypass-io/src/ring/mpsc.rs:154-168 | dropping a quiescent ring destroys each reserved, unpopped item once and leaves no slot ready |
| MpscSafety.Drop | bypass-io/src/ring/mpsc.rs:154-168 | dropping destroys the item of every ready slot and nothing else |
| MpscSafety.ReadyItemsInSlotOrder | bypass-io/src/ring/mpsc.rs:154-168 | they are destroyed in slot order |
| MpscSafety.DropDestroysTheRest | bypass-io/src/ring/mpsc.rs:154-168 | in a quiescent state those are the reserved, unpopped items, each once |
| SpscRing.FullIff | bypass-io/src/ring/spsc.rs:59-64 | with a view that never goes back, the equality test says full exactly when head is a whole lap ahead of it, and head is never further |
| SpscRing.OlderViewOverwrites | bypass-io/src/ring/spsc.rs:59-72 | on a full ring an older tail value than one already seen would pass the test and hit the oldest unread slot |
| SpscRing.ReadFindsOldest | bypass-io/src/ring/spsc.rs:79-91 | of all writes the memory model allows the consumer to find, there is exactly one: the oldest item's |
| SpscRing.RingIsSafe | bypass-io/src/ring/spsc.rs:59-92 | under every lag pops are the first pushes in order, writes go to slots whose items were all popped, and never to the slot being read |
| SpscRing.RefusalsMean | bypass-io/src/ring/spsc.rs:60-84 | a refusal means a full lap to the tail store seen; an empty pop means no item up to the head store seen |
| SpscRing.UnreadItemsStay | bypass-io/src/ring/spsc.rs:59-92 | every item not yet popped is what its slot holds |
| SpscCode.Shared.Push | bypass-io/src/ring/spsc.rs:59-75 | whatever the consumer does in between and whichever tail store is seen: push refuses exactly when head is a lap ahead of that store, and otherwise adds its item behind the pushed ones |
| SpscCode.Shared.Pop | bypass-io/src/ring/spsc.rs:79-92 | whatever the producer does in between and whichever head store is seen: pop finds nothing exactly when that store is for an item already popped, and otherwise returns the oldest item |
| SpscCode.Shared.Drop | bypass-io/src/ring/spsc.rs:115-119 | draining destroys exactly the pushed items that were not popped, in order |
| BufPool.PoolIsSafe | bypass-io/src/buf/pool.rs:42-50 | in every reachable state each buffer is free or behind one handle, and the counter is free plus acquirers past the pop minus releasers past the push, as a word |
| BufPool.FirstInFirstOut | bypass-io/src/buf/pool.rs:42-50 | in every run the buffers taken are the first of the pool's own and then the ones given back, in that order, and the free queue is exactly the rest |
| BufPool.QuiescentCountIsExact | bypass-io/src/buf/pool.rs:52-56 | while no operation is between its two changes the counter is the free count |
| BufPool.AcquireFailsIff | bypass-io/src/buf/pool.rs:42-43 | an acquire finds nothing exactly when every buffer is behind a handle |
| BufPool.Shared.Acquire | bypass-io/src/buf/pool.rs:42-50 | whatever other handles do before and between its two changes, acquire takes the next buffer of the pool's and then the given-back ones, or nothing when all those are taken, and then decrements the counter |
| BufPool.Shared.Release | bypass-io/src/buf/pool.rs:105-112 | whatever other handles do before and between its two changes, dropping a handle gives its buffer back behind all given back before, and then increments the counter |
| BufPool.CounterCanWrap | bypass-io/src/buf/pool.rs:105-112 | a run in which the counter reads one below zero |

## Where code and documentation differ

* docs/bypass-db-storage.md:62-65 says compaction preserves scan order. The code does so exactly when the
  selected segments are adjacent in the manifest (`Compaction.OrderKeptIff`); `Witnesses.CompactionReorders`
  is a run of the table that shows it.
* Validation before an append ignores column order while decoding requires it; the exact condition is
  `Safety.ReachableAppendReopensIff`, and `Witnesses.AppendLeavesUnopenable` a table it ruins.
* A torn record header is skipped by the reader but stays in the file, and the writer appends behind it;
  which appends the next reader then sees is `TornTails.AppendSurvivesIff`.
* A selection that picking made shorter than its column may still be marked as the identity; the exact
  condition under which the raw-bytes path is then right is `Scan.IdentityFastPathIff`.

## Left out

- Crashes.StepSafe: the crashes a run goes on from cut the log between records; for a cut at any byte `TornTails` follows a run to the crash, the reopening, an append and the reopening after it.
- TornTails.AppendSurvivesIff: behind a torn header the append's record must have a sequence number and a length below 2^30; `Framing.Format.AppendVisibleIff` is the condition for any record.
- Crashes.Allowed: runs append batches built for the table's schema and stay below 2^64 rows in all; batches out of schema order are covered by `Validation` instead.
- Table operations continued after an I/O error: files, renames and syncs either happen or the process stops there.
- Power loss of segment files, directories and the manifest: the code does not sync them, so a crash keeps every completed step of theirs and only log records can be lost.
- The manifest's JSON text, its version and log-path fields, the creation of the `WAL` and `segments` directories, memory-mapping calls and file handles.
- Payload.DecodeBatch: allocation failure for a huge declared count is not modelled.
- Crc32.Checksum32: a 32-bit word is a sequence of 32 bits, so the exclusive-or, shift and mask are per bit; the negated low bit is proved to be the mask.
- Segment.MapColumn: byte counts are unbounded integers, so the error for a row count times a width beyond a machine word does not arise.
- `WalWriter::reset`, which the table never calls, and gaps in sequence numbers, which recovery does not look at.
- Chunks.TakeChunks: the three chunk types of the source are one type over tagged values, and so are the pairs of range and greater-than kernels.
- Scan.FilterSelection: requires an identity selection to span its column, as `Query.ScanSegment` proves of every scan; `Scan.IdentityFastPathIff` covers the others.
- Scan.FilterScanIndices: predicates outside the three built-in ones are covered when the float form they announce agrees with their own test.
- Floating-point rounding: an `f64` is its bit pattern with the IEEE order on it; the cast from `i64` is any function.
- Sharing of chunks and mappings through reference counts, and the borrowed-slice accessors.
- MpscRing.Enabled: a push is assumed to finish before head goes round all its values, less one capacity; the steps are in one total order, and nothing is said about progress of the retry loop.
- MpscCode.Shared.Push: the schedule is finite, so the retry loop ends, and scheduled steps that cannot be taken or would break that time bound are skipped.
- SpscRing.Step: index loads are coherent and publish what precedes the store they read; other effects of weak memory are not modelled.
- BufPool.Step: the queue of free buffers is one atomic queue, and the buffers' memory, the pages behind it and cloned pool handles are not modelled.
- The SPDK, DPDK and io_uring backends, packet parsers, huge pages, the reactor, configuration, the command line and benchmarks.
