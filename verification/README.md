# Collapsar: a verified model of the packing pipeline

Collapsar packs files into ZIP or gzip output. A job scans its inputs, cuts every file into blocks that an I/O
pool reads, compresses the blocks of a file on a CPU worker or as one GPU batch, stitches the results, and writes
the files in input order. This project models that path in Dafny, from the list of input files to the bytes of
the archive, and proves what the design promises of it. `dafny verify dfyconfig.toml` checks everything.

| module | what it models |
|---|---|
| `Bytes`, `Common`, `Counting` | little-endian fields and records in a buffer, values shared by the stages, counting threads |
| `Crc32Model`, `Crc32Check` | CRC-32 (section 8 of RFC 1952), its GF(2) linearity, `combine` in its matrix square-and-multiply form; its residue, its check value and its register as a 32-bit word |
| `AsyncReader` | cutting a file into blocks, with the 64-bit and 32-bit arithmetic of the source |
| `Deflate`, `ZlibDeflateCodec` | codecs as self-delimiting encodings, stored blocks as an instance, the zlib call and its 32-bit counters |
| `Assembler` | stitching block checksums and sizes |
| `SizeRouter`, `Pipeline`, `PipelineSafety`, `PipelineRuns`, `PipelineLoops` | routing, the job as a step system over queues, workers, futures, the GPU mutex and the stop flag, its invariant, theorems about every run, and the loops of the sequential program it refines |
| `PipelineOrder`, `PipelineStops` | the order in which work is started and that none is done twice; what a stop request changes, from any point of any run |
| `PooledPipeline` | the job on pools whose idle workers sleep until a notification or a spurious wakeup: the same runs, no deadlock, termination |
| `ZipFormat`, `ZipWriter`, `ZipReader`, `ZipRoundTrip` | the archive as a function of the files, the streaming writer, a reader written from APPNOTE sections 4.3.7, 4.3.12, 4.3.14 to 4.3.16, 4.4 and 4.5.3, and the round trips |
| `GzipWriter`, `GzipReader` | the single-member writer and a reader written from sections 2.3 and 2.3.1 of RFC 1952 |
| `BoundedQueue`, `ThreadPool` | the blocking primitives with explicit sleeping threads, woken threads and notifications sent after unlocking |
| `GpuBatch`, `JobHandle` | staging of a GPU batch in device memory, and the one-shot future behind a job handle |
| `EndToEnd`, `Counters` | from the inputs of a job to what a reader of its archive gets back, and the counters it reports |
| `Limits` | where the promises of a job end: conditions on its inputs, and one concrete input beyond each limit |

Objects whose methods update fields in place are classes (`ZipWriter`, `GzipWriter`, `Crc32`, `BoundedQueue`,
`ThreadPool`, `NvcompDeflateCodec`, `ZStream`, `JobHandleImpl`, `ProgressCoalescer`, `AsyncReader`); each method
is tied to a function of the old state, and the theorems are about those functions. Concurrency is a step system:
a deterministic `Apply` per atomic action, and a schedule is any sequence of enabled actions. Theorems about runs
quantify over all schedules.

## Where the code and its promises part

Each promise below fails; the condition under which it holds is proved, and a lemma or method shows one concrete
input for which it does not.

- GPU batches. The five metadata arrays of a slot share one capacity, which the first of them sets, so the other
  four are never allocated and the batch copies to null device pointers
  (`core/src/codec/nvcomp_deflate_codec.cu:158-201`). A non-empty batch passes if and only if its buffers fit the
  device and the slot already has those arrays; no call ever provides them, so on a codec as `create` builds it
  every non-empty batch fails (`GpuBatch.NvcompDeflateCodec.CompressBatch`, `GpuBatch.FirstBatchFails`). A file
  routed to the GPU is then prepared if and only if it is cut into no blocks, which takes a block count that
  overflows (`GpuBatch.GpuFilesExactly`), and a job succeeds only if all its GPU files are
  (`Limits.GpuJobSucceedsExactly`, `Limits.TruncatedGpuWitness`). With the arrays in place the batch is the per-block
  map (`GpuBatch.RepairedBatchPasses`).
- The archive is called a standard `.zip` that any archiver reads (`README.md:5-6`). Every block is closed with
  `Z_FINISH`, so a file of several blocks is several complete deflate streams in a row. An inflater that stops at
  the first final block recovers the file if and only if its size is at most `block_bytes`
  (`EndToEnd.SingleStreamExactly`, and `GzipReader.SingleMemberExactly` for gzip; `Limits.TwoBlockWitness`). A
  decoder that restarts after each stream recovers every file (`EndToEnd.FileRoundTrip`).
- A central header puts the 32-bit sentinel in all three fields when any overflows, but carries only the
  overflowing values. Reading it back works if and only if none or all of the three overflow
  (`ZipRoundTrip.ReadCentralBack`); a mixed entry has the same bytes as a different entry, so no reader can do
  better (`ZipRoundTrip.MixedEntriesAreAmbiguous`). A job whose first input is cut into blocks that hold 2^32 - 1
  bytes or more is never recovered through its directory (`Limits.LargeFirstInputLost`, `Limits.MixedEntryWitness`),
  nor is an archive in which a smaller file starts that far in (`ZipRoundTrip.LateSmallFileLost`). A job whose inputs
  and archive stay below is (`Limits.SmallJobRecovered`), and the length of the archive is bounded beforehand by the
  names and the codec's bound on each block (`Limits.SmallInputsRecovered`). Local headers always carry both sizes,
  so reading front to back works for all sizes (`ZipRoundTrip.FrontToBackRoundTrip`).
- Name lengths are truncated to 16 bits: the archive of a job reads back front to back if and only if every name
  has at most 65535 bytes, and a longer one is lost to the directory reader as well (`Limits.NamesFitExactly`,
  `Limits.LongNameLost`, `Limits.LongNameWitness`).
- The block count is computed in 64 bits and truncated to 32: the blocks tile the file, and the reported input
  bytes reach its scanned size, if and only if neither step overflows (`AsyncReader.TilesExactly`,
  `Counters.CountersConserved`, `Limits.BlockCountWitness`). The zlib stream sees sizes modulo 2^32: a block holds
  its whole source if and only if it is shorter than 2^32 bytes (`ZlibDeflateCodec.WholeStreamExactly`,
  `Limits.BigBlockWitness`).
- A second caller that enters `wait` while the first holds the future stores an Internal error that a later
  success does not clear (`JobHandle.SecondWaiterSpoils`), and makes `done` announce a job that is still running
  (`JobHandle.SecondWaiterIsDoneEarly`). Without such an overlap the stored result is the pipeline's
  (`JobHandle.StoredExactly`). `done` is right if and only if no caller alone holds the future of a finished job
  and no overlap has happened in an unfinished one (`JobHandle.DoneIsRightExactly`). `resolve_locked` is never
  called and is not modelled.
- The routing table in `docs/architecture.md:80-86` sends every `Gpu*` algorithm to the GPU; under `GpuZstd` the
  code keeps small files on the CPU (`SizeRouter.FollowsTableExactly`, `SizeRouter.SmallZstdWitness`). `CpuZstd`,
  which has no row, may go to the GPU: it is routed as `Auto` is (`SizeRouter.ZstdIsAuto`).

## Model

| member | source | states |
|---|---|---|
| `Bytes.LERoundTrip` | `core/src/format/zip_writer.cpp:16-30` | a value below 256^w written in w little-endian bytes is read back exactly |
| `Bytes.Put16` | `core/src/format/zip_writer.cpp:16-19` | the two bytes at the offset become the little-endian value; the bytes before it and after it are kept |
| `Bytes.Put32` | `core/src/format/zip_writer.cpp:20-25` | the same for four bytes |
| `Bytes.Put64` | `core/src/format/zip_writer.cpp:26-30` | the same for eight bytes, byte by byte in a loop |
| `Bytes.ReadBack` | `core/src/format/zip_writer.cpp:113-126` | a record of fixed-width fields found anywhere in a buffer reads back as its field values, when each fits its width |
| `Crc32Model.StepLinear` | `core/src/codec/crc32.cpp:7-24` | the CRC-32 bit step is linear over exclusive or |
| `Crc32Model.ContinueAppend` | `core/src/codec/crc32.cpp:7-13` | streaming `update` over two pieces equals one update over their concatenation, from any starting value |
| `Crc32Model.CombineIsConcatenation` | `core/src/codec/crc32.cpp:15-24` | combining the checksums of two buffers gives the checksum of their concatenation, empty buffers included |
| `Crc32Model.CombineBySquaring` | `core/src/codec/crc32.cpp:22-24` | the logarithmic matrix form computes "advance the first checksum over len2 zero bytes, then add the second" |
| `Crc32Model.MatrixSquare` | `core/src/codec/crc32.cpp:22-24` | squaring the operator for n zero bits gives the operator for 2n |
| `Crc32Model.Crc32.Update` | `core/src/codec/crc32.cpp:7-13` | the stored value continues over the data; empty data changes nothing |
| `Crc32Check.StepValue` | `core/src/codec/crc32.cpp:7-24` | the register is a 32-bit word shifted right, with 0xEDB88320 added when a bit falls out |
| `Crc32Check.Residue` | `core/src/codec/crc32.cpp:7-13` | data followed by its own checksum in little-endian bytes has the checksum 0x2144DF1C, whatever the data |
| `Crc32Check.CheckValue` | `core/src/codec/crc32.cpp:7-13` | the nine digits 123456789 have the checksum 0xCBF43926 |
| `AsyncReader.AsyncReader.Submit` | `core/src/io/async_reader.cpp:16-72` | the loop queues exactly the reads given by the truncated block count, in order |
| `AsyncReader.TilesExactly` | `core/src/io/async_reader.cpp:20-31` | blocks cover [0, size) without gaps, non-empty unless the file is, flagged last exactly at the end, if and only if neither the rounded sum nor the count overflows |
| `AsyncReader.BlocksCoverExactly` | `core/src/io/async_reader.cpp:20-31` | for all sizes the blocks hold no more bytes than the file, and all of them if and only if neither step overflows |
| `AsyncReader.ReadsConcatenate` | `core/src/io/async_reader.cpp:28-68` | the first n blocks read are the prefix of the content that ends where block n starts |
| `Limits.BlockCountWitness` | `core/src/io/async_reader.cpp:21-23` | a file of 2^32 bytes in blocks of one is cut into no blocks at all |
| `Deflate.InflateAllStreams` | `core/src/codec/zlib_deflate_codec.cpp:35-45` | streams of any self-delimiting codec laid end to end decode, by restarting, to the concatenated sources |
| `Deflate.FirstStreamOnly` | `core/src/codec/zlib_deflate_codec.cpp:40` | a decoder that stops at the end of the first stream returns the first block only |
| `Deflate.StoredIsSelfDelimiting` | `core/src/codec/zlib_deflate_codec.cpp:24-52` | stored blocks (section 3.2.4 of RFC 1951) satisfy the codec contract for every input and every trailing data |
| `ZlibDeflateCodec.ZStream.Finish` | `core/src/codec/zlib_deflate_codec.cpp:35-40` | the contract of one `deflate(Z_FINISH)` call: a complete stream of the available input if there is room, otherwise unfinished |
| `ZlibDeflateCodec.Compress` | `core/src/codec/zlib_deflate_codec.cpp:24-52` | the codec error when zlib could not set up its stream or did not finish it; otherwise the block carries the stream, checksum and size of its source |
| `ZlibDeflateCodec.WholeStreamExactly` | `core/src/codec/zlib_deflate_codec.cpp:32-40` | the stream decodes to the whole source if and only if the source is shorter than 2^32 bytes; below that, and with a bound below 2^32, compression succeeds, and it fails when the truncated bound leaves too little room |
| `Limits.BigBlockWitness` | `core/src/codec/zlib_deflate_codec.cpp:32-40` | every block of 2^32 bytes is stored as an empty stream |
| `Assembler.Assemble` | `core/src/pipeline/pipeline.cpp:71-91` | the loop, with its shortcut for an empty prefix and its 64-bit sums, computes the stitched totals |
| `Assembler.StitchedTotals` | `core/src/pipeline/pipeline.cpp:71-91` | for every split, empty blocks included: the file checksum is that of the concatenated sources, the size is their length, the compressed size is the payload length |
| `Assembler.SplitIndependence` | `core/src/pipeline/pipeline.cpp:74-82` | two ways of cutting the same bytes give the same checksum and size |
| `SizeRouter.FollowsTableExactly` | `core/src/pipeline/size_router.hpp:23-31` | the code follows the documented table except for small files under `GpuZstd` |
| `SizeRouter.SmallZstdWitness` | `core/src/pipeline/size_router.hpp:23-31` | an empty file under `GpuZstd` with a GPU goes to the CPU, against the table |
| `SizeRouter.ZstdIsAuto` | `core/src/pipeline/size_router.hpp:23-31` | `CpuZstd` and `GpuZstd` are routed as `Auto`: to the GPU if and only if there is one and the file reaches the threshold |
| `PipelineSafety.MoveIsRight` | `core/src/pipeline/pipeline.cpp:26-69` | a worker's next step keeps its partial file on the way to the sequential result, and what it delivers is that result or a cancellation |
| `PipelineSafety.MainKeepsInv` | `core/src/pipeline/pipeline.cpp:196-302` | each action of the main thread keeps the invariant |
| `PipelineSafety.IoKeepsInv` | `core/src/io/async_reader.cpp:33-68` | each action of an I/O worker keeps the invariant |
| `PipelineSafety.CpuKeepsInv` | `core/src/pipeline/pipeline.cpp:213-264` | each action of a CPU worker keeps the invariant, the GPU mutex included |
| `PipelineSafety.StepKeepsInv` | `core/src/pipeline/pipeline.cpp:196-309` | every step of every thread, and a stop request, keeps: queued reads and tasks are tracked, results are the sequential ones or cancellations, at most one worker holds the GPU mutex, the writer holds the first files in order |
| `PipelineRuns.ScheduleIndependence` | `core/src/pipeline/pipeline.cpp:196-309` | every complete run of a job nobody cancels ends with the result, counters and written entries of the sequential program |
| `PipelineRuns.Deterministic` | `core/src/pipeline/pipeline.cpp:181-189` | two complete runs of a job cannot be told apart by result or written entries |
| `PipelineRuns.SequentialMeaning` | `core/src/pipeline/pipeline.cpp:268-305` | the result is the error of the lowest-index file that fails to prepare or to be written, with exactly the earlier entries written; finishing is tried only after all of them |
| `PipelineRuns.CancellationSafety` | `core/src/pipeline/pipeline.cpp:196-311` | with a stop request at any step: the writer always holds whole entries of the first files in order; success means all were written and finishing succeeded; a failure is the sequential one or a cancellation (what a stop must do is stated by the rows of `PipelineStops`) |
| `PipelineRuns.NoDeadlock` | `core/src/pipeline/pipeline.cpp:196-282` | a reachable state in which no thread can step is one where the job has its result and both pools are idle with empty queues |
| `PipelineRuns.Termination` | `core/src/pipeline/pipeline.cpp:196-309` | the number of steps of any run is bounded by a measure of the initial state |
| `PipelineRuns.EveryRunCompletes` | `core/src/pipeline/pipeline.cpp:196-309` | from any point of any run the threads can bring the job to its result and both pools to rest, without a further request |
| `PipelineOrder.StepKeepsOrder` | `core/src/io/async_reader.cpp:28-68` | every step keeps: reads and tasks leave their queues in file and block order, no two workers hold the same one, and none that has its result is queued or held |
| `PipelineOrder.StartedInOrder` | `core/src/pipeline/pipeline.cpp:196-264` | so at every point of every run |
| `PipelineOrder.ResultsStay` | `core/src/pipeline/pipeline.cpp:196-282` | no later step of any run changes the result of a block or a file: nothing is read or prepared twice |
| `PipelineStops.StopSettles` | `core/src/pipeline/pipeline.cpp:196-305` | from any state with a stop requested, in every continuation that ends: result, entries and number of submitted files follow from where the main thread was and, if it was awaiting a file, from that file's result |
| `PipelineStops.StopIsHeeded` | `core/src/pipeline/pipeline.cpp:196-279` | from any reachable state with a stop requested and a check of the main thread ahead, no continuation ends in success; at most the file being awaited is still written, and at most the file in hand still submitted; if none is awaited the job can only end as cancelled |
| `PipelineStops.TooLateToStop` | `core/src/pipeline/pipeline.cpp:276-309` | with the last check behind and no file awaited, a stop changes nothing: the job ends as the sequential program does |
| `PipelineStops.StoppedBeforeStart` | `core/src/pipeline/pipeline.cpp:196-199` | a job with inputs stopped before its first step ends as cancelled, with nothing queued, read, prepared or written |
| `PipelineStops.ReadsAfterStop` | `core/src/io/async_reader.cpp:33-68` | after a stop, a block answered later is really read if and only if a worker was already reading it, and is cancelled otherwise |
| `PipelineStops.FilesAfterStop` | `core/src/pipeline/pipeline.cpp:26-69` | after a stop, a file delivered later is prepared if and only if it would be without the stop, its task is past its last check, and the block that task waits for is read |
| `PipelineStops.NoInputsRefused` | `core/src/pipeline/pipeline.cpp:150-152` | a job without inputs ends with the invalid-argument error in every run, with nothing queued, read or written |
| `PooledPipeline.ActKeepsInv` | `core/src/util/thread_pool.cpp:28-40` | on sleeping pools every step, notification and spurious wakeup keeps the job's invariant, and where a worker sleeps each queued task has a notification on its way or a woken worker |
| `PooledPipeline.PooledFinalIsFinal` | `core/src/util/thread_pool.cpp:28-40` | every run on sleeping pools, without its sleeping and waking, is a run of the job and ends in the same state |
| `PooledPipeline.PooledNoDeadlock` | `core/src/pipeline/pipeline.cpp:196-282` | a reachable state in which nothing but a stop request or a spurious wakeup can happen is one where the job has its result, both queues are empty and all workers sleep |
| `PooledPipeline.PooledTermination` | `core/src/pipeline/pipeline.cpp:196-309` | the length of any run on sleeping pools is bounded by a measure of the initial state and twice the number of spurious wakeups |
| `PipelineLoops.CpuTask` | `core/src/pipeline/pipeline.cpp:26-69` | the drain-and-compress loop followed by stitching computes the file result of the sequential program, first error included; where that is a success, a stop seen at any of its checks cancels instead, and only then |
| `PipelineLoops.GpuTask` | `core/src/pipeline/pipeline.cpp:217-254` | the GPU branch: every block is collected, then one batch, with errors in the same order; where that is a success, a stop seen at any of its checks cancels instead, and only then |
| `PipelineLoops.ProgressCoalescer.OnFileCompleted` | `core/src/pipeline/pipeline.cpp:108-113` | the snapshot's file count and byte counts grow by the completed file |
| `PipelineLoops.Deliver` | `core/src/pipeline/pipeline.cpp:274-299` | one file handed to the ZIP writer: accepted exactly when its record fits, then counted; otherwise the writer's error, with the earlier entries in place |
| `PipelineLoops.RunInOrder` | `core/src/pipeline/pipeline.cpp:170-309` | run one file at a time into a real ZIP writer, with any outcome of the stop checks: result and written files are those of the sequential program, or the job is cancelled, and it succeeds only if no check saw a stop; on success the output is the archive and the progress snapshot shows the returned totals, on cancellation exactly the complete entries, on any other failure it starts with them |
| `ZipWriter.SanitiseArchiveName` | `core/src/format/zip_writer.cpp:62-69` | erasing leading separators one at a time computes the archive name |
| `ZipFormat.SanitisedMeaning` | `core/src/format/zip_writer.cpp:62-69` | an archive name is the path without its leading separators and with nothing else removed |
| `ZipWriter.ZipWriter.constructor` | `core/src/format/zip_writer.cpp:79-97` | a new writer has no output, no entries and no error |
| `ZipWriter.ZipWriter.WriteBytes` | `core/src/format/zip_writer.cpp:99-106` | a write appends all its bytes and counts them, or fails, leaves a prefix of them and makes the stream fail from then on |
| `ZipWriter.ZipWriter.WriteLocalHeader` | `core/src/format/zip_writer.cpp:108-139` | the header bytes of an entry are appended, with both sizes in the extra field when any field overflows |
| `ZipWriter.ZipWriter.WriteFile` | `core/src/format/zip_writer.cpp:141-164` | success appends exactly one complete record, with its offset equal to the bytes before it, and records the entry; failure leaves the earlier records, a prefix of this one, and no new entry |
| `ZipWriter.ZipWriter.WriteCentralEntry` | `core/src/format/zip_writer.cpp:166-209` | the central header of an entry is appended, fixed part, name and the overflowing values only |
| `ZipWriter.ZipWriter.WriteEocd` | `core/src/format/zip_writer.cpp:211-260` | the directory and the end records are appended, the Zip64 pair exactly when an entry, the count, the size or the offset needs it |
| `ZipWriter.ZipWriter.Finish` | `core/src/format/zip_writer.cpp:262-270` | finishing succeeds if and only if no write has failed and the archive fits the device, and then the output is exactly the archive of the accepted files |
| `ZipFormat.AppendFile` | `core/src/format/zip_writer.cpp:141-164` | one more file extends the records by its own and the directory by one entry whose offset is where the record starts |
| `ZipRoundTrip.ReadLocalBack` | `core/src/format/zip_writer.cpp:108-139` | a local header read by section 4.3.7 returns the entry for all 64-bit sizes, when the name fits: no flags, version 2.0, or 4.5 with a Zip64 field |
| `ZipRoundTrip.ReadCentralBack` | `core/src/format/zip_writer.cpp:166-209` | a central header read by sections 4.3.12 and 4.5.3 returns the entry, its versions and no attributes if none or all of its three fields overflow, and is rejected otherwise |
| `ZipRoundTrip.MixedEntriesAreAmbiguous` | `core/src/format/zip_writer.cpp:179-201` | every entry with some but not all fields overflowing has a different entry with identical central header bytes |
| `ZipRoundTrip.LocalsAt` | `core/src/format/zip_writer.cpp:141-164` | record k starts where the first k records end, so the records tile the output up to the directory |
| `ZipRoundTrip.ReadEndBack` | `core/src/format/zip_writer.cpp:211-260` | the rule "any sentinel means read the Zip64 record" takes the Zip64 path exactly when it was written and recovers count, size and offset, values equal to a sentinel included |
| `ZipRoundTrip.Zip64Exactly` | `core/src/format/zip_writer.cpp:211-260` | an archive ends with the Zip64 records if and only if there are 65535 entries or more, or the directory's size or offset, or a file's compressed size, size or offset reaches 2^32 - 1; otherwise with the 22-byte end record alone |
| `ZipRoundTrip.FrontToBackRoundTrip` | `core/src/format/zip_writer.cpp:108-164` | scanning local headers from offset 0 recovers every entry and payload and stops at the directory, for all sizes, if and only if every name has at most 65535 bytes |
| `ZipRoundTrip.DirectoryRoundTrip` | `core/src/format/zip_writer.cpp:141-260` | reading end record, directory and local headers recovers every file in order if and only if the names fit and every entry is none-or-all |
| `ZipRoundTrip.LongNamesLost` | `core/src/format/zip_writer.cpp:123` | one name that does not fit 16 bits makes the directory unreadable, whatever the other entries are |
| `ZipRoundTrip.MixedFileLost` | `core/src/format/zip_writer.cpp:166-209` | one entry with only some fields overflowing makes the whole directory unreadable |
| `ZipRoundTrip.LargeFirstFileLost` | `core/src/format/zip_writer.cpp:179-201` | an archive whose first file has either size at or above 2^32 - 1 is never recovered through its directory |
| `ZipRoundTrip.LateSmallFileLost` | `core/src/format/zip_writer.cpp:179-201` | nor is one in which a file with a size below that starts at or after it |
| `ZipRoundTrip.SmallArchiveRecovered` | `core/src/format/zip_writer.cpp:166-260` | an archive whose sizes and length stay below 2^32 - 1 is recovered when its names fit |
| `GzipWriter.GzipWriter.WriteFile` | `core/src/format/gzip_writer.cpp:58-85` | the first file goes out as one member, or a prefix of it when a write fails; any later call returns the format error and changes nothing |
| `GzipWriter.AtMostOneMember` | `core/src/format/gzip_writer.cpp:58-85` | after any sequence of calls the output is the member of the first file, and every later call is refused |
| `GzipReader.FramesBack` | `core/src/format/gzip_writer.cpp:65-85` | reading by sections 2.3 and 2.3.1 of RFC 1952 finds the payload, the checksum, the size modulo 2^32, no extra flags, an unknown system and the time, itself when it fits 32 bits and 0 before 1970, for any number of blocks |
| `GzipReader.SingleMemberExactly` | `core/src/format/gzip_writer.cpp:58-85` | a standard reader returns the file as one member ending with the output if and only if the file fits one block; a restarting decoder always recovers it |
| `GzipReader.SecondInputRefused` | `core/src/format/gzip_writer.cpp:58-63` | under every schedule, a gzip job with several readable inputs writes the first and ends with the format error |
| `GzipReader.OneInputSucceedsExactly` | `core/src/format/gzip_writer.cpp:58-94` | under every schedule an uncancelled gzip job with one input succeeds if and only if the input can be prepared and its member fits the device |
| `GzipReader.GzipJobRoundTrip` | `core/src/format/gzip_writer.cpp:58-94` | whenever a gzip job with one input succeeds, the output is exactly its member, and a standard reader returns the input and its time if and only if the input fits one block |
| `BoundedQueue.BoundedQueue.Push` | `core/src/util/bounded_queue.hpp:31-39` | the locked part of `push`: blocked, rejected when closed, or appended, exactly as the specification section says |
| `BoundedQueue.BoundedQueue.Pop` | `core/src/util/bounded_queue.hpp:41-50` | the locked part of `pop`: blocked, drained, or the oldest item |
| `BoundedQueue.BoundedQueue.TryPop` | `core/src/util/bounded_queue.hpp:54-62` | nothing when empty, whether closed or not, otherwise the oldest item |
| `BoundedQueue.BoundedQueue.Close` | `core/src/util/bounded_queue.hpp:64-71` | the queue is closed and its items stay |
| `BoundedQueue.StepLinearized` | `core/src/util/bounded_queue.hpp:31-71` | every step keeps the answers given so far replayable on a sequential bounded queue that ends with the same contents |
| `BoundedQueue.Fifo` | `core/src/util/bounded_queue.hpp:31-71` | over every interleaving: items popped, then items queued, are the accepted pushes in acceptance order; the size never exceeds the capacity; nothing is accepted after a close |
| `BoundedQueue.DrainedMeansDrained` | `core/src/util/bounded_queue.hpp:41-50` | `pop` answers empty only after a close and once everything accepted was popped, and nothing is delivered afterwards |
| `BoundedQueue.StepKeepsWakeups` | `core/src/util/bounded_queue.hpp:31-71` | while open, a sleeping consumer implies items <= pending notifications + woken consumers, and dually for producers and free slots; once closed, a sleeper implies a closer that has still to notify |
| `BoundedQueue.SleepersHaveReason` | `core/src/util/bounded_queue.hpp:31-71` | in every reachable state with no notification in flight, consumers sleep only on an open empty queue and producers only on an open full one; with room for an item never both; after a close nobody |
| `BoundedQueue.InternalRunsEnd` | `core/src/util/bounded_queue.hpp:31-71` | between calls the queue takes a bounded number of steps |
| `BoundedQueue.QuietMeansReason` | `core/src/util/bounded_queue.hpp:31-71` | in every reachable state with no step left, each thread is outside the queue or sleeps for a reason: a consumer on an open empty queue, a producer on an open full one |
| `BoundedQueue.EveryCallAnswered` | `core/src/util/bounded_queue.hpp:31-62` | over every interleaving, each push of a value has been accepted or rejected once or its thread is still at it, and so for `pop` and `try_pop` |
| `ThreadPool.ThreadPool.Submit` | `core/src/util/thread_pool.hpp:38-44` | the locked part of `submit`: appended, or refused if and only if the pool was stopped |
| `ThreadPool.ThreadPool.Take` | `core/src/util/thread_pool.cpp:31-37` | the locked part of the worker loop: sleep, exit when stopped and drained, or the oldest task |
| `ThreadPool.StepKeepsInv` | `core/src/util/thread_pool.cpp:13-40` | every step keeps: dequeued then queued tasks are the accepted ones in order, each dequeued task has run once or is being run by one worker, workers leave only a stopped and drained pool, no wakeup is lost |
| `ThreadPool.AcceptsSubmitted` | `core/src/util/thread_pool.hpp:38-44` | in every run the accepted tasks are those of the calls before the first `stop` or destruction, in order: an open pool refuses nothing |
| `ThreadPool.ExactlyOnce` | `core/src/util/thread_pool.cpp:13-40` | when the destructor returns, every task submitted before the first stop was dequeued in submission order and ran exactly once; at any time the dequeued tasks are the oldest submitted ones and none ran twice |
| `ThreadPool.StoppedRejects` | `core/src/util/thread_pool.hpp:38-43` | from a stopped state on, nothing more is accepted |
| `ThreadPool.InternalRunsEnd` | `core/src/util/thread_pool.cpp:28-40` | between calls the pool takes a bounded number of steps |
| `ThreadPool.QuietMeansDone` | `core/src/util/thread_pool.cpp:13-40` | a pool with no step left has run every task submitted before the first stop; all workers have exited if it was stopped, no destructor is left waiting, and all workers sleep otherwise |
| `GpuBatch.InputRegionsTile` | `core/src/codec/nvcomp_deflate_codec.cu:133-142` | every position of the flat input buffer lies in exactly one block's region |
| `GpuBatch.RegionsOrdered` | `core/src/codec/nvcomp_deflate_codec.cu:176-182` | the fixed-stride output regions are disjoint and in order |
| `GpuBatch.NvcompDeflateCodec.EnsureCapacity` | `core/src/codec/nvcomp_deflate_codec.cu:48-59` | a large enough buffer is kept; otherwise it is released first, and allocation succeeds if and only if the device has room for the growth; device memory is conserved |
| `GpuBatch.NvcompDeflateCodec.EnsureTyped` | `core/src/codec/nvcomp_deflate_codec.cu:61-64` | the same for an array of elements: the capacity passed in decides, so a null pointer stays null when that capacity suffices |
| `GpuBatch.NvcompDeflateCodec.KeepOtherArrays` | `core/src/codec/nvcomp_deflate_codec.cu:160-170` | once the shared capacity covers the batch, the other four metadata arrays are left as they are, null ones included |
| `GpuBatch.NvcompDeflateCodec.Reserve` | `core/src/codec/nvcomp_deflate_codec.cu:149-170` | staging, scratch and pointer array are brought to size if and only if their growths together fit the device; the other metadata arrays never change |
| `GpuBatch.NvcompDeflateCodec.PushMetadata` | `core/src/codec/nvcomp_deflate_codec.cu:193-201` | the metadata reaches the device if and only if all its destinations are allocated with room |
| `GpuBatch.Plan` | `core/src/codec/nvcomp_deflate_codec.cu:133-142` | sizes, prefix-sum offsets, total and largest size of a batch |
| `GpuBatch.Scatter` | `core/src/codec/nvcomp_deflate_codec.cu:180-190` | after the copies the flat buffer starts with the concatenated blocks, whatever it held |
| `GpuBatch.RunKernel` | `core/src/codec/nvcomp_deflate_codec.cu:203-219` | the contract of the batched compressor: stream i sits where pointer i says, at the start of region i, and size i is its length |
| `GpuBatch.NvcompDeflateCodec.CompressBatch` | `core/src/codec/nvcomp_deflate_codec.cu:112-242` | whichever slot is next and whatever its buffers held: a size mismatch is refused, an empty batch succeeds, and a non-empty one passes if and only if the device has room and the slot already has its metadata arrays, and then output i is the compression, size and checksum of input i; a failure leaves the outputs alone; the ring advances; no call provides the arrays, so a codec without them fails every non-empty batch |
| `GpuBatch.FirstBatchFails` | `core/src/codec/nvcomp_deflate_codec.cu:112-201` | the first batch of a new codec fails with a CUDA error, for every block and any amount of device memory |
| `GpuBatch.RepairedBatchPasses` | `core/src/codec/nvcomp_deflate_codec.cu:112-242` | on a slot whose metadata arrays were allocated separately, with just enough memory, the same batch passes and compresses its block |
| `GpuBatch.EncodedIsCompressed` | `core/src/codec/nvcomp_deflate_codec.cu:221-238` | an output prepared for a block of a file ends up as the block the CPU codec would return: place, stream, checksum and size |
| `GpuBatch.GpuFilesExactly` | `core/src/pipeline/pipeline.cpp:217-254` | with such a codec a file routed to the GPU is prepared if and only if it is cut into no blocks, which happens only when its block count overflows |
| `GpuBatch.GpuJobsFail` | `core/src/pipeline/pipeline.cpp:213-264` | with a GPU codec that fails every non-empty batch, no schedule lets a job succeed unless each file it routes to the GPU is cut into no blocks |
| `Limits.GpuJobSucceedsExactly` | `core/src/pipeline/pipeline.cpp:150-309` | an uncancelled ZIP job with such a codec succeeds if and only if it has inputs, its CPU files can be prepared, its GPU files are cut into no blocks, and the archive fits |
| `Limits.TruncatedGpuWitness` | `core/src/pipeline/pipeline.cpp:213-264` | a file of 2^32 bytes in blocks of one, routed to the GPU: the job succeeds, with no input byte read |
| `GpuBatch.RoutesAgree` | `core/src/pipeline/pipeline.cpp:217-264` | a job whose GPU batch is the per-block map of its CPU codec prepares the same file, or the same error, on both routes |
| `JobHandle.JobHandleImpl.BeginWait` | `core/src/job_handle.cpp:41-54` | the first locked part of `wait`: return, store the Internal error, or take the future |
| `JobHandle.JobHandleImpl.EndWait` | `core/src/job_handle.cpp:56-62` | the second locked part stores stats or error and marks the handle resolved, leaving the other field alone |
| `JobHandle.JobHandleImpl.Done` | `core/src/job_handle.cpp:64-69` | resolved, or the future is here and ready |
| `JobHandle.StepKeepsInv` | `core/src/job_handle.cpp:41-89` | every step keeps the future in one place and what is stored determined by the delivered result; a resolved handle that saw no overlap does not change |
| `JobHandle.StoredExactly` | `core/src/job_handle.cpp:41-62` | once all waiters are through, the stored stats are the delivered ones, and the stored error is the delivered one if and only if no caller entered `wait` while another held the future, or the job failed |
| `JobHandle.ResolvedForever` | `core/src/job_handle.cpp:41-89` | without overlap, the first resolution is the delivered result and no later step of any run changes it |
| `JobHandle.SoleWaiterIsTruthful` | `core/src/job_handle.cpp:64-89` | with at most one caller inside `wait` at any time, every answer of `error` and `stats` is the pipeline's result and `done` is never early |
| `JobHandle.DoneExactly` | `core/src/job_handle.cpp:64-69` | over all interleavings, `done` answers yes if and only if two callers have overlapped inside `wait`, or the result is there and no caller holds the future |
| `JobHandle.DoneIsRightExactly` | `core/src/job_handle.cpp:64-69` | `done` tells whether the result is there, except while one caller alone holds the future of a finished job, and after an overlap in an unfinished one |
| `JobHandle.SecondWaiterIsDoneEarly` | `core/src/job_handle.cpp:41-69` | a concrete run in which `done` is true while the job is still running |
| `JobHandle.SecondWaiterSpoils` | `core/src/job_handle.cpp:41-62` | a concrete run in which a second waiter leaves an Internal error beside the stats of a successful job |
| `JobHandle.EveryQueryAnswered` | `core/src/job_handle.cpp:71-89` | in every run each call of `error` and `stats` has been answered once, by an answer of its kind, or is still inside |
| `JobHandle.InternalRunsEnd` | `core/src/job_handle.cpp:41-89` | callers that are inside take a bounded number of steps |
| `JobHandle.QuietMeansAnswered` | `core/src/job_handle.cpp:41-89` | a caller that can go no further holds the future of a job still running; once the result is there every call returns |
| `EndToEnd.FileRoundTrip` | `core/src/pipeline/pipeline.cpp:26-91` | whatever codec a file was routed to: its checksum and sizes are those of its bytes, and decoding its payload stream by stream returns them |
| `EndToEnd.BlocksInPlace` | `core/src/pipeline/pipeline.cpp:26-69` | a prepared file keeps index, offset, length and last flag of every block of its input |
| `EndToEnd.SingleStreamExactly` | `core/src/codec/zlib_deflate_codec.cpp:40` | a decoder that reads one stream recovers the file if and only if its size is at most the block size |
| `EndToEnd.ZlibWrites` | `core/src/codec/zlib_deflate_codec.cpp:24-52` | with blocks shorter than 2^32 bytes the zlib codec meets the contract the round trips assume of the CPU codec |
| `EndToEnd.JobRoundTrip` | `core/src/pipeline/pipeline.cpp:145-311` | for every schedule, codec and stop request: from the archive of a successful job a front-to-back reader recovers every input's name, time, checksum, size and, decoding by the recorded method and checking size and checksum, its bytes, in order; and a directory reader does so if and only if no entry overflows only partly |
| `EndToEnd.ZipJobRoundTrip` | `core/src/pipeline/pipeline.cpp:145-311` | the same with the ZIP writer's own success condition in place of an assumption about the archive's size |
| `EndToEnd.PreparedExactly` | `core/src/io/async_reader.cpp:33-68` | with codecs that do not fail, a file is prepared if and only if its scanned bytes can be read and a buffer can be had for every block with bytes in it |
| `EndToEnd.FirstBadBlock` | `core/src/io/async_reader.cpp:39-62` | with such codecs a file that is not prepared ends with the error of its first block that cannot be read: its buffer's, or one that says whether the file could not be opened or is too short |
| `EndToEnd.ZipJobSucceedsExactly` | `core/src/pipeline/pipeline.cpp:150-309` | under every schedule an uncancelled ZIP job succeeds if and only if it has inputs, all of them can be prepared, and the archive fits the device |
| `EndToEnd.StoringJobStores` | `core/src/pipeline/pipeline.cpp:145-194` | for all inputs there is a job whose codecs and writer meet every assumption of the theorems about ZIP jobs |
| `EndToEnd.StoringJobSucceedsExactly` | `core/src/pipeline/pipeline.cpp:150-309` | such a job succeeds, under every uncancelled schedule, if and only if it has inputs, all can be read, and the archive fits |
| `EndToEnd.StoringJobRoundTrip` | `core/src/pipeline/pipeline.cpp:145-311` | when it succeeds, a reader with the stored-block decoder gets every input back, with no assumption left about codecs |
| `Counters.CountersConserved` | `core/src/pipeline/pipeline.cpp:279-309` | in every successful run of any job: every file is counted, input bytes are the summed lengths of the blocks read, output bytes the payload lengths, and CPU plus GPU blocks are all blocks, each counted where it was routed; the input bytes reach the scanned total if and only if no block count overflows |
| `Counters.ZipOutputCounted` | `core/src/pipeline/pipeline.cpp:276-299` | for a ZIP job the output bytes are exactly the payload bytes written, and fit the device |
| `Limits.NamesFitExactly` | `core/src/format/zip_writer.cpp:108-139` | the archive of a successful job, whatever its codecs, reads back front to back if and only if every input's name has at most 65535 bytes |
| `Limits.LongNameLost` | `core/src/format/zip_writer.cpp:123` | a successful job with one longer name leaves an archive its directory cannot recover |
| `Limits.LargeFirstInputLost` | `core/src/format/zip_writer.cpp:166-209` | a successful job whose first input is cut into blocks that hold 2^32 - 1 bytes or more leaves an archive its directory cannot recover |
| `Limits.SmallJobRecovered` | `core/src/format/zip_writer.cpp:166-260` | a successful job whose inputs and archive stay below 2^32 - 1 bytes, with names that fit, is recovered through its directory, every input with its bytes |
| `Limits.ArchiveWithinInputs` | `core/src/format/zip_writer.cpp:108-260` | the archive of a successful job is no longer than headers, names and the codec's bound on every block allow, which a caller can work out beforehand |
| `Limits.SmallInputsRecovered` | `core/src/format/zip_writer.cpp:166-260` | when that bound and all inputs stay below 2^32 - 1 bytes and the names fit, every successful run is recovered through the directory, on any device |
| `Limits.MixedEntryWitness` | `core/src/format/zip_writer.cpp:179-201` | for every file of 2^32 - 1 bytes stored as one block there is a run that succeeds and leaves an archive its directory cannot recover |
| `Limits.LongNameWitness` | `core/src/format/zip_writer.cpp:123` | an empty file with a name of 65536 bytes: the job succeeds, and both readers lose the entry |
| `Limits.TwoBlockWitness` | `core/src/codec/zlib_deflate_codec.cpp:40` | two bytes in blocks of one come back from a restarting decoder, but not from a one-stream inflater nor from a standard gzip reader |

## Left out

- File system access, scanning, `begin` and time conversion: contents, sizes, DOS times and Unix times are inputs. A device accepts a fixed number of bytes, which is how writes fail.
- ZipWriter.ZipWriter.WriteBytes: fails at the byte where the device is full; the source writes through a buffered `ofstream`, which may report the failure on a later write or only when flushed.
- ZipWriter.ZipWriter.WriteFile: for the same reason ties failure to the device at once.
- ZipWriter.ZipWriter.Finish: does not model a failing flush of bytes that writes had accepted.
- ZipWriter.ZipWriter.constructor: stands for construction and a successful `begin`; an existing output file and a failed open are not modelled.
- GzipWriter.GzipWriter.WriteFile: ties failure to the device at once, like the ZIP writer.
- PipelineLoops.RunInOrder: one order without pools; all others are the subject of `Pipeline`.
- PipelineLoops.GpuTask: the GPU mutex is part of the step system only.
- zlib, nvCOMP and CUDA internals: compressors are functions known by their contracts, the batched kernel included; of the device, allocation and copies to missing destinations can fail, streams, events and other errors are not modelled.
- GpuBatch.NvcompDeflateCodec.constructor: takes slots; the pre-allocation of staging buffers in `create`, and its failure, are not modelled.
- GpuBatch.RunKernel: runs the chunks in order, where the device runs them side by side; the regions it writes are proved disjoint.
- Sums of `std::size_t` values (batch totals, counters, progress bytes) are unbounded; block counts, block sizes, stitched sizes and header fields have their real widths.
- Crc32Model.Combine: does not model the cast of the length to `z_off_t`, which is signed on the platforms concerned.
- Pipeline.CANCELLED: the three cancellation messages are one value; only the status code is meant.
- Pipeline.Job: a codec, writer or buffer allocation fails as a function of its inputs, and several jobs sharing the pools of one engine are not modelled.
- Work still queued when a job returns early is run later by the model's workers; the lifetime of what such tasks refer to is not modelled.
- ThreadPool: a task body is one step that always returns. In the pipeline a task is a `packaged_task`, which stores an exception so that `get` rethrows it in `run`; neither is modelled.
- BoundedQueue: the unlocked read in `closed()` and the size query are not modelled.
- Throughput, elapsed time, the 50 ms coalescing window and the progress callback: only the counters are modelled.
- GDeflate and Zstd codecs and writers are declared but not implemented in the repository; command line, C bridge, GUI, logging and capability probing have no part in the results.
