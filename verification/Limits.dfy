/**
 Where the promises of a job end: exact conditions on its inputs, and one concrete input beyond each
 limit.
 */
module Limits {
  import opened Bytes
  import opened Common
  import opened AsyncReader
  import opened Deflate
  import opened Assembler
  import opened SizeRouter
  import opened Pipeline
  import opened PipelineSafety
  import opened PipelineRuns
  import opened PipelineLoops
  import opened EndToEnd
  import opened Counters
  import ZipFormat
  import ZipReader
  import ZipRoundTrip
  import ZlibDeflateCodec
  import GzipWriter
  import GzipReader
  import GpuBatch

  // ---- Archives of a job ---------------------------------------------------------------------

  lemma CompressedExactly(job: Job, k: nat, p: PreparedFile)
    requires job.blockBytes > 0 && k < |job.files| && FileResult(job, k) == Ok(p) && Prepares(job, k)
    requires |Payload(p.blocks)| < U64_LIMIT
    ensures p.compressed == |Payload(p.blocks)|
  {
    hide FileResult, Payload, BlocksOf, TaskBytes, SourceBytes;
    SmallMod(|Payload(p.blocks)|, U64_LIMIT);
  }

  lemma FileFits(job: Job, fs: seq<PreparedFile>, k: nat, capacity: nat)
    requires job.blockBytes > 0 && k < |fs| == |job.files| && FileResult(job, k) == Ok(fs[k])
    requires |ZipFormat.Archive(fs)| <= capacity < U64_LIMIT
    ensures Prepares(job, k) && fs[k].compressed == |Payload(fs[k].blocks)| <= capacity
  {
    hide FileResult, Payload, Prepares, ZipFormat.Archive, ZipFormat.Locals, ZipFormat.Entries, ZipRoundTrip.NameFits;
    ZipRoundTrip.EntriesInRange(fs);
    PayloadInLocals(fs, k);
    FilePrepares(job, k);
    CompressedExactly(job, k, fs[k]);
  }

  /** What such a job hands its writer, whatever the codecs. */
  lemma FilesAreStorable(job: Job, fs: seq<PreparedFile>, capacity: nat)
    requires job.blockBytes > 0 && |fs| == |job.files| && forall k :: 0 <= k < |fs| ==> FileResult(job, k) == Ok(fs[k])
    requires |ZipFormat.Archive(fs)| <= capacity < U64_LIMIT
    ensures ZipRoundTrip.Storable(fs)
    ensures forall k :: 0 <= k < |fs| ==> Prepares(job, k) && fs[k].compressed <= capacity
  {
    hide FileResult, Payload, ZipFormat.Archive, Prepares;
    forall k | 0 <= k < |fs|
      ensures Prepares(job, k) && fs[k].compressed == |Payload(fs[k].blocks)| <= capacity
    {
      FileFits(job, fs, k, capacity);
    }
    assert ZipRoundTrip.SizesAgree(fs);
  }

  lemma JobIsStorable(job: Job, schedule: seq<Action>, capacity: nat)
    requires ValidJob(job) && Run(job, schedule) && ToZip(job, capacity) && capacity < U64_LIMIT
    requires Final(job, schedule).main.Done? && Final(job, schedule).main.result.Ok?
    ensures var fs := Final(job, schedule).writer;
            && ZipRoundTrip.Storable(fs) && |ZipFormat.Archive(fs)| <= capacity
            && |fs| == |job.files|
            && (forall k :: 0 <= k < |fs| ==>
                  FileResult(job, k) == Ok(fs[k]) && Prepares(job, k) && fs[k].compressed <= capacity)
  {
    hide Inv, Run, Final, FileResult, ZipFormat.Archive, ZipRoundTrip.Storable, Prepares, ToZip;
    ZipJobFits(job, schedule, capacity);
    FilesAreStorable(job, Final(job, schedule).writer, capacity);
  }

  /** For every successful job, whatever its codecs: local headers read front to back give every entry
      exactly when the names of the inputs fit 16 bits. */
  lemma NamesFitExactly(job: Job, schedule: seq<Action>, capacity: nat)
    requires ValidJob(job) && Run(job, schedule) && ToZip(job, capacity) && capacity < U64_LIMIT
    requires Final(job, schedule).main.Done? && Final(job, schedule).main.result.Ok?
    ensures var fs := Final(job, schedule).writer;
            ZipReader.ScanLocals(ZipFormat.Archive(fs), 0) == Some((ZipRoundTrip.Expected(fs), |ZipFormat.Locals(fs)|))
            <==> forall f :: 0 <= f < |job.files| ==> |ZipFormat.Sanitised(job.files[f].entry.archivePath)| <= U16_MAX
  {
    hide Inv, Run, Final, FileResult, Payload, Count, ZipFormat.Archive, ZipFormat.Locals, NoOverflow, SourceBytes,
         ZipRoundTrip.Storable, ToZip;
    var fs := Final(job, schedule).writer;
    JobIsStorable(job, schedule, capacity);
    ZipRoundTrip.FrontToBackRoundTrip(fs);
    forall k | 0 <= k < |fs| ensures fs[k].entry == job.files[k].entry {
      assert Prepares(job, k);
    }
    if forall f :: f in fs ==> ZipRoundTrip.NameFits(f) {
      forall f | 0 <= f < |job.files| ensures ZipRoundTrip.NameFits(fs[f]) {
        assert fs[f] in fs;
      }
    }
  }

  /** A name that does not fit is lost to the directory reader as well. */
  lemma LongNameLost(job: Job, schedule: seq<Action>, capacity: nat, f: nat)
    requires ValidJob(job) && Run(job, schedule) && ToZip(job, capacity) && capacity < U64_LIMIT
    requires Final(job, schedule).main.Done? && Final(job, schedule).main.result.Ok?
    requires f < |job.files| && |ZipFormat.Sanitised(job.files[f].entry.archivePath)| > U16_MAX
    ensures var fs := Final(job, schedule).writer;
            ZipReader.ReadArchive(ZipFormat.Archive(fs)) != Some(ZipRoundTrip.Expected(fs))
  {
    hide Inv, Run, Final, FileResult, BlocksOf, Payload, ZipFormat.Archive, SourceBytes, TaskBytes, ToZip;
    var fs := Final(job, schedule).writer;
    JobIsStorable(job, schedule, capacity);
    assert Prepares(job, f);
    assert fs[f] in fs && !ZipRoundTrip.NameFits(fs[f]);
    ZipRoundTrip.LongNamesLost(fs);
  }

  /** A job whose first input is cut into blocks that hold 2^32 - 1 bytes or more (all of the input, when its
      block count does not overflow) leaves an archive that its own directory cannot recover. */
  lemma LargeFirstInputLost(job: Job, schedule: seq<Action>, capacity: nat)
    requires ValidJob(job) && Run(job, schedule) && ToZip(job, capacity) && capacity < U64_LIMIT
    requires Final(job, schedule).main.Done? && Final(job, schedule).main.result.Ok?
    requires job.files != [] && TaskBytes(BlocksOf(job, 0)) >= U32_MAX
    ensures var fs := Final(job, schedule).writer;
            ZipReader.ReadArchive(ZipFormat.Archive(fs)) != Some(ZipRoundTrip.Expected(fs))
  {
    hide Inv, Run, Final, FileResult, BlocksOf, Payload, ZipFormat.Archive, SourceBytes, TaskBytes, ToZip,
         ZipRoundTrip.Storable;
    JobIsStorable(job, schedule, capacity);
    assert Prepares(job, 0);
    ZipRoundTrip.LargeFirstFileLost(Final(job, schedule).writer);
  }

  /** A job whose inputs and archive stay below 2^32 - 1 bytes, with names that fit, is safe: when it
      succeeds, a directory reader gets every input back. */
  lemma SmallJobRecovered(job: Job, schedule: seq<Action>, cpu: Compressor, gpu: Compressor, inflate: Inflater,
                          capacity: nat)
    requires ValidJob(job) && Run(job, schedule) && CodecsWrite(job, cpu, gpu) && WithinLimits(job)
    requires SelfDelimiting(cpu, inflate) && SelfDelimiting(gpu, inflate)
    requires ToZip(job, capacity) && capacity < U64_LIMIT
    requires forall f :: 0 <= f < |job.files| ==> job.files[f].entry.sizeBytes < U32_MAX
    requires Final(job, schedule).main.Done? && Final(job, schedule).main.result.Ok?
    requires |ZipFormat.Archive(Final(job, schedule).writer)| < U32_MAX
    ensures var fs := Final(job, schedule).writer;
            var xs := ZipRoundTrip.Expected(fs);
            && |xs| == |job.files| && (forall k :: 0 <= k < |xs| ==> Recovered(xs[k], job.files[k], inflate))
            && ZipReader.ReadArchive(ZipFormat.Archive(fs)) == Some(xs)
  {
    ZipJobRoundTrip(job, schedule, cpu, gpu, inflate, capacity);
    SmallJobDirectory(job, schedule, capacity);
    hide Inv, Run, Final, SelfDelimiting, CodecsWrite, ZipFormat.Archive, Recovered, WithinLimits, ToZip;
  }

  lemma SmallJobDirectory(job: Job, schedule: seq<Action>, capacity: nat)
    requires ValidJob(job) && Run(job, schedule) && ToZip(job, capacity) && WithinLimits(job)
    requires forall f :: 0 <= f < |job.files| ==> job.files[f].entry.sizeBytes < U32_MAX
    requires Final(job, schedule).main.Done? && Final(job, schedule).main.result.Ok?
    requires |ZipFormat.Archive(Final(job, schedule).writer)| < U32_MAX
    ensures var fs := Final(job, schedule).writer;
            ZipReader.ReadArchive(ZipFormat.Archive(fs)) == Some(ZipRoundTrip.Expected(fs))
  {
    hide Inv, Run, Final, FileResult, ZipFormat.Archive, WithinLimits, ToZip;
    ZipJobFits(job, schedule, capacity);
    SmallFilesRecovered(job, Final(job, schedule).writer);
  }

  lemma SmallFilesRecovered(job: Job, fs: seq<PreparedFile>)
    requires job.blockBytes > 0 && WithinLimits(job) && |fs| == |job.files| && |ZipFormat.Archive(fs)| < U32_MAX
    requires forall f :: 0 <= f < |fs| ==> FileResult(job, f) == Ok(fs[f]) && job.files[f].entry.sizeBytes < U32_MAX
    ensures ZipReader.ReadArchive(ZipFormat.Archive(fs)) == Some(ZipRoundTrip.Expected(fs))
  {
    hide FileResult, ZipFormat.Archive, NoOverflow, ZipRoundTrip.Storable, ZipRoundTrip.NameFits, WithinLimits,
         Prepares;
    FilesAreStorable(job, fs, |ZipFormat.Archive(fs)|);
    forall f | f in fs
      ensures ZipRoundTrip.NameFits(f) && f.uncompressed < U32_MAX && f.compressed < U32_MAX
    {
      var k :| 0 <= k < |fs| && fs[k] == f;
      SmallFile(job, fs, k);
    }
    ZipRoundTrip.SmallArchiveRecovered(fs);
  }

  lemma SmallFile(job: Job, fs: seq<PreparedFile>, k: nat)
    requires job.blockBytes > 0 && WithinLimits(job) && k < |fs| == |job.files|
    requires FileResult(job, k) == Ok(fs[k]) && Prepares(job, k) && job.files[k].entry.sizeBytes < U32_MAX
    ensures ZipRoundTrip.NameFits(fs[k]) && fs[k].uncompressed < U32_MAX
  {
    hide FileResult, BlocksOf, TaskBytes, SourceBytes, NoOverflow, Payload;
    CoveredExactly(job, k);
  }

  // ---- How long an archive can get ---------------------------------------------------------------

  lemma LocalSizeOf(e: ZipFormat.CentralEntry)
    ensures |ZipFormat.LocalHeader(e)| <= 50 + |e.name|
  {
    ZipFormat.LocalSize();
  }

  lemma CentralSizeOf(e: ZipFormat.CentralEntry)
    ensures |ZipFormat.CentralHeader(e)| <= 74 + |e.name|
  {
    ZipFormat.CentralSize();
  }

  lemma EndSizeOf(zip64: bool, count: nat, size: nat, offset: nat)
    ensures |ZipFormat.EndOfDirectory(zip64, count, size, offset)| <= 98
  {
    hide ZipFormat.EndValues, ZipFormat.Zip64EndValues, ZipFormat.LocatorValues;
    ZipFormat.EndSize();
    ZipFormat.Zip64EndSize();
    ZipFormat.LocatorSize();
  }

  /** Headers, names and payloads of the files, at their largest. */
  function RecordBound(fs: seq<PreparedFile>): nat {
    if fs == [] then 0
    else
      var f := fs[|fs| - 1];
      RecordBound(fs[..|fs| - 1]) + 124 + 2 * |ZipFormat.Sanitised(f.entry.archivePath)| + |Payload(f.blocks)|
  }

  lemma {:induction false} RecordsWithin(fs: seq<PreparedFile>)
    ensures |ZipFormat.Locals(fs)| + |ZipFormat.Directory(ZipFormat.Entries(fs))| <= RecordBound(fs)
    decreases |fs|
  {
    hide ZipFormat.LocalHeader, ZipFormat.CentralHeader, ZipFormat.Sanitised, Payload;
    if fs != [] {
      var n := |fs| - 1;
      RecordsWithin(fs[..n]);
      var e := ZipFormat.EntryOf(fs[n], |ZipFormat.Locals(fs[..n])|);
      LocalSizeOf(e);
      CentralSizeOf(e);
      assert ZipFormat.Entries(fs)[..n] == ZipFormat.Entries(fs[..n]);
    }
  }

  lemma ArchiveWithin(fs: seq<PreparedFile>)
    ensures |ZipFormat.Archive(fs)| <= RecordBound(fs) + 98
  {
    hide ZipFormat.Locals, ZipFormat.Directory, ZipFormat.Entries, ZipFormat.EndOfDirectory, ZipFormat.UsesZip64,
         RecordBound;
    var es := ZipFormat.Entries(fs);
    var size, offset := |ZipFormat.Directory(es)|, |ZipFormat.Locals(fs)|;
    RecordsWithin(fs);
    EndSizeOf(ZipFormat.UsesZip64(es, size, offset), |es|, size, offset);
  }

  function StreamsBound(ts: seq<ReadTask>, bound: nat -> nat): nat {
    if ts == [] then 0 else StreamsBound(ts[..|ts| - 1], bound) + bound(ts[|ts| - 1].bytes)
  }

  /** The same from the inputs alone, given what the codecs make of a block at most. */
  function InputBound(job: Job, bound: nat -> nat, k: nat): nat
    requires job.blockBytes > 0 && k <= |job.files|
  {
    if k == 0 then 0
    else
      InputBound(job, bound, k - 1) + 124 + 2 * |ZipFormat.Sanitised(job.files[k - 1].entry.archivePath)|
      + StreamsBound(BlocksOf(job, k - 1), bound)
  }

  lemma StreamWithin(job: Job, f: nat, deflate: Compressor, bound: nat -> nat, cs: seq<CompressedBlock>,
                     bs: seq<FileBlock>, i: nat)
    requires job.blockBytes > 0 && f < |job.files| && ReadFrom(job, f, bs) && Coded(deflate, cs, bs) && i < |bs|
    requires ZlibDeflateCodec.BoundHolds(deflate, bound)
    ensures |cs| == |bs| && |cs[i].bytes| <= bound(BlocksOf(job, f)[i].bytes)
  {
    hide BlocksOf, ReadFrom;
    ReadLength(job, f, bs, i);
    assert |deflate(bs[i].data)| <= bound(|bs[i].data|);
  }

  lemma {:induction false} StreamsWithin(cs: seq<CompressedBlock>, ts: seq<ReadTask>, bound: nat -> nat)
    requires |cs| == |ts| && forall i :: 0 <= i < |cs| ==> |cs[i].bytes| <= bound(ts[i].bytes)
    ensures |Payload(cs)| <= StreamsBound(ts, bound)
    decreases |cs|
  {
    if cs != [] {
      StreamsWithin(cs[..|cs| - 1], ts[..|ts| - 1], bound);
    }
  }

  lemma PayloadWithin(job: Job, f: nat, cpu: Compressor, gpu: Compressor, bound: nat -> nat)
    requires job.blockBytes > 0 && f < |job.files| && CodecsWrite(job, cpu, gpu) && FileResult(job, f).Ok?
    requires ZlibDeflateCodec.BoundHolds(cpu, bound) && ZlibDeflateCodec.BoundHolds(gpu, bound)
    ensures |Payload(FileResult(job, f).value.blocks)| <= StreamsBound(BlocksOf(job, f), bound)
  {
    hide FileResult, CodecsWrite, BlocksOf, Assembled, ReadFrom, Payload, StreamsBound, ZlibDeflateCodec.BoundHolds;
    var bs := FileMeaning(job, f, cpu, gpu);
    var deflate, cs := CodecFor(job, f, cpu, gpu), FileResult(job, f).value.blocks;
    hide Coded;
    CodedSize(deflate, cs, bs);
    forall i | 0 <= i < |cs| ensures |cs[i].bytes| <= bound(BlocksOf(job, f)[i].bytes) {
      StreamWithin(job, f, deflate, bound, cs, bs, i);
    }
    StreamsWithin(cs, BlocksOf(job, f), bound);
  }

  lemma CodedSize(deflate: Compressor, cs: seq<CompressedBlock>, bs: seq<FileBlock>)
    requires Coded(deflate, cs, bs)
    ensures |cs| == |bs|
  {
  }

  lemma {:induction false} RecordsOfInputs(job: Job, fs: seq<PreparedFile>, cpu: Compressor, gpu: Compressor,
                                           bound: nat -> nat, k: nat)
    requires job.blockBytes > 0 && CodecsWrite(job, cpu, gpu) && k <= |fs| == |job.files|
    requires ZlibDeflateCodec.BoundHolds(cpu, bound) && ZlibDeflateCodec.BoundHolds(gpu, bound)
    requires forall f :: 0 <= f < |fs| ==> FileResult(job, f) == Ok(fs[f]) && fs[f].entry == job.files[f].entry
    ensures RecordBound(fs[..k]) <= InputBound(job, bound, k)
    decreases k
  {
    hide FileResult, CodecsWrite, BlocksOf, Payload, StreamsBound, ZlibDeflateCodec.BoundHolds, ZipFormat.Sanitised;
    if k > 0 {
      RecordsOfInputs(job, fs, cpu, gpu, bound, k - 1);
      PayloadWithin(job, k - 1, cpu, gpu, bound);
      assert fs[..k][..k - 1] == fs[..k - 1];
    }
  }

  /** What a caller can work out beforehand: the archive of a successful job is no longer than this. */
  lemma ArchiveWithinInputs(job: Job, schedule: seq<Action>, cpu: Compressor, gpu: Compressor, bound: nat -> nat,
                            capacity: nat)
    requires ValidJob(job) && Run(job, schedule) && CodecsWrite(job, cpu, gpu) && ToZip(job, capacity)
    requires ZlibDeflateCodec.BoundHolds(cpu, bound) && ZlibDeflateCodec.BoundHolds(gpu, bound)
    requires Final(job, schedule).main.Done? && Final(job, schedule).main.result.Ok?
    ensures |ZipFormat.Archive(Final(job, schedule).writer)| <= InputBound(job, bound, |job.files|) + 98
  {
    hide Inv, Run, Final, FileResult, CodecsWrite, ToZip, ZipFormat.Archive, InputBound, RecordBound, BlocksOf,
         TaskBytes, SourceBytes, Payload, ZlibDeflateCodec.BoundHolds;
    var fs := Final(job, schedule).writer;
    ZipJobFits(job, schedule, capacity);
    forall f | 0 <= f < |fs| ensures fs[f].entry == job.files[f].entry {
      FilePrepares(job, f);
    }
    RecordsOfInputs(job, fs, cpu, gpu, bound, |fs|);
    assert fs[..|fs|] == fs;
    ArchiveWithin(fs);
  }

  /** So inputs below 2^32 - 1 bytes with names that fit, whose archive can be no longer than that, are
      recovered through the directory by every successful run, on any device. */
  lemma SmallInputsRecovered(job: Job, schedule: seq<Action>, cpu: Compressor, gpu: Compressor, inflate: Inflater,
                             bound: nat -> nat, capacity: nat)
    requires ValidJob(job) && Run(job, schedule) && CodecsWrite(job, cpu, gpu) && WithinLimits(job)
    requires SelfDelimiting(cpu, inflate) && SelfDelimiting(gpu, inflate)
    requires ZlibDeflateCodec.BoundHolds(cpu, bound) && ZlibDeflateCodec.BoundHolds(gpu, bound)
    requires ToZip(job, capacity) && capacity < U64_LIMIT
    requires forall f :: 0 <= f < |job.files| ==> job.files[f].entry.sizeBytes < U32_MAX
    requires InputBound(job, bound, |job.files|) + 98 < U32_MAX
    requires Final(job, schedule).main.Done? && Final(job, schedule).main.result.Ok?
    ensures var fs := Final(job, schedule).writer;
            var xs := ZipRoundTrip.Expected(fs);
            && |xs| == |job.files| && (forall k :: 0 <= k < |xs| ==> Recovered(xs[k], job.files[k], inflate))
            && ZipReader.ReadArchive(ZipFormat.Archive(fs)) == Some(xs)
  {
    hide Inv, Run, Final, SelfDelimiting, CodecsWrite, ZipFormat.Archive, Recovered, WithinLimits, ToZip, InputBound,
         ZlibDeflateCodec.BoundHolds;
    ArchiveWithinInputs(job, schedule, cpu, gpu, bound, capacity);
    SmallJobRecovered(job, schedule, cpu, gpu, inflate, capacity);
  }

  // ---- Jobs whose GPU codec fails every batch ----------------------------------------------------

  /** Such a ZIP job succeeds, uncancelled, exactly when its CPU files can be prepared, its GPU files are cut
      into no blocks, and the archive fits. */
  lemma GpuJobSucceedsExactly(job: Job, schedule: seq<Action>, capacity: nat)
    requires ValidJob(job) && Run(job, schedule) && RequestStop !in schedule && ToZip(job, capacity)
    requires Final(job, schedule).main.Done? && GpuBatch.FailsBatches(job)
    ensures forall f :: 0 <= f < |job.files| ==>
              (FileResult(job, f).Ok? <==> if UsesGpu(job, f) then Count(job, f) == 0 else CpuFrom(job, f, []).Ok?)
    ensures Final(job, schedule).main.result.Ok? <==>
              && job.files != []
              && (forall f :: 0 <= f < |job.files| ==>
                    if UsesGpu(job, f) then Count(job, f) == 0 else CpuFrom(job, f, []).Ok?)
              && |ZipFormat.Archive(AllPrepared(job))| <= capacity
  {
    forall f | 0 <= f < |job.files|
      ensures FileResult(job, f).Ok? <==> if UsesGpu(job, f) then Count(job, f) == 0 else CpuFrom(job, f, []).Ok?
    {
      hide CpuFrom, GpuFrom, Count, Inv, Run, Final, NoOverflow;
      if UsesGpu(job, f) {
        GpuBatch.GpuFilesExactly(job, f);
      }
    }
    hide Inv, Run, Final, FileResult, Count, CpuFrom, UsesGpu, ZipFormat.Archive, ToZip, GpuBatch.FailsBatches,
         ValidJob;
    ZipJobSucceedsExactly(job, schedule, capacity);
  }

  // ---- One input beyond each limit ---------------------------------------------------------------

  const NAME: seq<byte> := [0x61]

  const DEVICE: nat := 0x1000_0000_0000

  /** A job with one file that can be prepared, on a large enough device, has runs that succeed. */
  lemma SingleFileSucceeds(job: Job, capacity: nat) returns (schedule: seq<Action>)
    requires ValidJob(job) && ToZip(job, capacity) && |job.files| == 1 && FileResult(job, 0).Ok?
    requires |Payload(FileResult(job, 0).value.blocks)| < 0x100_0000_0000 && capacity >= DEVICE
    requires |job.files[0].entry.archivePath| < 0x100_0000
    ensures Run(job, schedule) && RequestStop !in schedule
    ensures Final(job, schedule).main.Done? && Final(job, schedule).main.result.Ok?
  {
    hide Inv, Run, Final, Quiet, FileResult, Payload, ZipFormat.Archive, ToZip, AllPrepared, ValidJob;
    HasBlocks(job);
    NoSteps(job);
    schedule := EveryRunCompletes(job, []);
    assert [] + schedule == schedule;
    QuietIsDone(Final(job, schedule));
    SingleArchive(job);
    ZipJobSucceedsExactly(job, schedule, capacity);
  }

  lemma HasBlocks(job: Job)
    requires ValidJob(job)
    ensures job.blockBytes > 0
  {
  }

  lemma QuietIsDone(s: State)
    requires Quiet(s)
    ensures s.main.Done?
  {
  }

  lemma NoSteps(job: Job)
    requires ValidJob(job)
    ensures Run(job, [])
  {
  }

  lemma SingleArchive(job: Job)
    requires job.blockBytes > 0 && |job.files| == 1 && FileResult(job, 0).Ok?
    requires |Payload(FileResult(job, 0).value.blocks)| < 0x100_0000_0000
    requires |job.files[0].entry.archivePath| < 0x100_0000
    ensures |ZipFormat.Archive(AllPrepared(job))| <= DEVICE
  {
    hide FileResult, Payload, ZipFormat.Archive, BlocksOf, SourceBytes, TaskBytes;
    var fs := AllPrepared(job);
    FilePrepares(job, 0);
    var kept := ZipFormat.SanitisedMeaning(job.files[0].entry.archivePath);
    hide ZipFormat.Sanitised;
    ArchiveWithin(fs);
    assert fs[..0] == [] && RecordBound([]) == 0;
  }

  function StoredLimit(n: nat): nat {
    6 * n + 5
  }

  lemma StoredLimitHolds()
    ensures ZlibDeflateCodec.BoundHolds(StoredDeflate, StoredLimit)
  {
    hide StoredDeflate;
    var deflate: Compressor := StoredDeflate;
    forall x: seq<byte> ensures |deflate(x)| <= StoredLimit(|x|) {
      StoredBound(x);
      assert deflate(x) == StoredDeflate(x);
    }
  }

  lemma {:induction false} StoredStreams(ts: seq<ReadTask>, n: nat)
    requires forall i :: 0 <= i < |ts| ==> ts[i].bytes <= n
    ensures StreamsBound(ts, StoredLimit) <= StoredLimit(n) * |ts|
    decreases |ts|
  {
    if ts != [] {
      StoredStreams(ts[..|ts| - 1], n);
      assert StoredLimit(n) * |ts| == StoredLimit(n) * (|ts| - 1) + StoredLimit(n);
    }
  }

  lemma StoringStreams(job: Job, f: nat)
    requires job.blockBytes > 0 && f < |job.files|
    ensures StreamsBound(BlocksOf(job, f), StoredLimit) <= StoredLimit(job.blockBytes) * Count(job, f)
  {
    hide BlockCount, StoredLimit, StreamsBound;
    StoredStreams(BlocksOf(job, f), job.blockBytes);
  }

  lemma StoringPayload(job: Job, f: nat, capacity: nat)
    requires Stores(job, capacity) && f < |job.files| && FileResult(job, f).Ok?
    ensures |Payload(FileResult(job, f).value.blocks)| <= StoredLimit(job.blockBytes) * Count(job, f)
  {
    StoringJobIsValid(job, capacity);
    hide Stores, ValidJob, FileResult, CodecsWrite, BlocksOf, Payload, StreamsBound, StoredLimit,
         ZlibDeflateCodec.BoundHolds, ToZip;
    StoredLimitHolds();
    PayloadWithin(job, f, StoredDeflate, StoredDeflate, StoredLimit);
    StoringStreams(job, f);
  }

  /** A storing job for one readable file that fits one block, on the device above. */
  lemma OneBlockJob(file: InputFile, blockBytes: u64, router: SizeRouter) returns (schedule: seq<Action>)
    requires 0 < blockBytes < 0x2_0000_0000 && file.entry.sizeBytes <= blockBytes && Readable(file)
    requires |file.entry.archivePath| < 0x100_0000
    ensures var job := StoringJob([file], blockBytes, router, DEVICE);
            && ValidJob(job) && ToZip(job, DEVICE) && job.files == [file] && job.blockBytes == blockBytes
            && Run(job, schedule) && Final(job, schedule).main.Done? && Final(job, schedule).main.result.Ok?
  {
    var job := StoringJob([file], blockBytes, router, DEVICE);
    StoringJobStores([file], blockBytes, router, DEVICE);
    assert job.files == [file] && job.blockBytes == blockBytes;
    hide StoringJob;
    StoringJobIsValid(job, DEVICE);
    OneBlockFits(file.entry.sizeBytes, blockBytes);
    OneBlockPrepared(job);
    schedule := SingleFileSucceeds(job, DEVICE);
  }

  lemma OneBlockFits(size: u64, b: u64)
    requires 0 < b < 0x2_0000_0000 && size <= b
    ensures NoOverflow(size, b) && |Tasks(size, b)| == 1
  {
    if size > 0 {
      assert size + b - 1 == 1 * b + (size - 1);
      DivUnique(size + b - 1, b, 1, size - 1);
    }
  }

  lemma OneBlockPrepared(job: Job)
    requires Stores(job, DEVICE) && |job.files| == 1 && Readable(job.files[0])
    requires 0 < job.blockBytes < 0x2_0000_0000 && job.files[0].entry.sizeBytes <= job.blockBytes
    ensures FileResult(job, 0).Ok? && |Payload(FileResult(job, 0).value.blocks)| < 0x100_0000_0000
  {
    StoringJobIsValid(job, DEVICE);
    OneBlockFits(job.files[0].entry.sizeBytes, job.blockBytes);
    assert Count(job, 0) == 1;
    hide Stores, CodecsWrite, FileResult, Payload, NoOverflow, Readable, StoredDeflate, ValidJob;
    PreparedExactly(job, 0, StoredDeflate, StoredDeflate);
    StoringPayload(job, 0, DEVICE);
  }

  /** Any file of 2^32 - 1 bytes, stored as one block: the job succeeds, and the directory of its archive
      cannot be read. */
  lemma MixedEntryWitness(content: seq<byte>, router: SizeRouter) returns (schedule: seq<Action>)
    requires |content| == U32_MAX
    ensures var job := StoringJob([InputFile(FileEntry(NAME, U32_MAX, 0, 0, 0), Some(content))], U32_MAX, router,
                                  DEVICE);
            && ValidJob(job) && Run(job, schedule)
            && Final(job, schedule).main.Done? && Final(job, schedule).main.result.Ok?
            && var fs := Final(job, schedule).writer;
               ZipReader.ReadArchive(ZipFormat.Archive(fs)) != Some(ZipRoundTrip.Expected(fs))
  {
    var file := InputFile(FileEntry(NAME, U32_MAX, 0, 0, 0), Some(content));
    var job := StoringJob([file], U32_MAX, router, DEVICE);
    schedule := OneBlockJob(file, U32_MAX, router);
    hide StoringJob, Inv, Run, Final, ZipFormat.Archive, ToZip, TaskBytes, BlocksOf;
    OneBlockFits(U32_MAX, U32_MAX);
    CoveredExactly(job, 0);
    LargeFirstInputLost(job, schedule, DEVICE);
  }

  function LongName(): (name: seq<byte>)
    ensures |name| == 0x1_0000 && ZipFormat.Sanitised(name) == name
  {
    seq(0x1_0000, _ => 0x61)
  }

  /** An empty file with a name of 65536 bytes: the job succeeds, and neither reader recovers the entry. */
  lemma LongNameWitness(router: SizeRouter) returns (schedule: seq<Action>)
    ensures var job := StoringJob([InputFile(FileEntry(LongName(), 0, 0, 0, 0), Some([]))], 1, router, DEVICE);
            && ValidJob(job) && Run(job, schedule)
            && Final(job, schedule).main.Done? && Final(job, schedule).main.result.Ok?
            && var fs := Final(job, schedule).writer;
               && ZipReader.ScanLocals(ZipFormat.Archive(fs), 0)
                  != Some((ZipRoundTrip.Expected(fs), |ZipFormat.Locals(fs)|))
               && ZipReader.ReadArchive(ZipFormat.Archive(fs)) != Some(ZipRoundTrip.Expected(fs))
  {
    hide LongName;
    var file := InputFile(FileEntry(LongName(), 0, 0, 0, 0), Some([]));
    var job := StoringJob([file], 1, router, DEVICE);
    schedule := OneBlockJob(file, 1, router);
    hide StoringJob, Inv, Run, Final, ZipFormat.Archive, ZipFormat.Locals, ToZip;
    NamesFitExactly(job, schedule, DEVICE);
    LongNameLost(job, schedule, DEVICE, 0);
  }

  /** A storing job whose GPU codec fails every batch. */
  function FailingGpuJob(file: InputFile, router: SizeRouter): Job {
    StoringJob([file], 1, router, DEVICE).(
      gpuCompress := xs => if xs == [] then Ok([]) else Err(GpuBatch.INVALID_DESTINATION))
  }

  /** A file of 2^32 bytes in blocks of one, routed to the GPU: it is cut into nothing, so the job succeeds
      although every batch fails, and archives the file as empty. */
  lemma TruncatedGpuWitness(content: Option<seq<byte>>, router: SizeRouter) returns (schedule: seq<Action>)
    requires router.Route(U32_LIMIT) == Gpu
    ensures var job := FailingGpuJob(InputFile(FileEntry(NAME, U32_LIMIT, 0, 0, 0), content), router);
            && ValidJob(job) && GpuBatch.FailsBatches(job) && UsesGpu(job, 0) && Run(job, schedule)
            && Final(job, schedule).main.Done? && Final(job, schedule).main.result.Ok?
            && Final(job, schedule).main.result.value.inputBytes == 0
  {
    var file := InputFile(FileEntry(NAME, U32_LIMIT, 0, 0, 0), content);
    var job := FailingGpuJob(file, router);
    FailingGpuJobFacts(file, router);
    BlockCountWitness();
    assert job.files == [file] && job.blockBytes == 1 && BlocksOf(job, 0) == [] && UsesGpu(job, 0);
    hide FailingGpuJob;
    GpuBatch.GpuFilesExactly(job, 0);
    NothingPrepared(job);
    schedule := SingleFileSucceeds(job, DEVICE);
    NothingCounted(job, schedule);
  }

  lemma FailingGpuJobFacts(file: InputFile, router: SizeRouter)
    ensures var job := FailingGpuJob(file, router);
            && ValidJob(job) && GpuBatch.FailsBatches(job) && ToZip(job, DEVICE) && job.files == [file]
               && job.blockBytes == 1
            && job.router == router
  {
    hide StoredDeflate, ZipFormat.Locals, ZipFormat.Archive;
  }

  lemma NothingPrepared(job: Job)
    requires job.blockBytes > 0 && |job.files| == 1 && BlocksOf(job, 0) == [] && FileResult(job, 0).Ok?
    ensures FileResult(job, 0).value.blocks == [] && Payload(FileResult(job, 0).value.blocks) == []
  {
    hide FileResult;
    FilePrepares(job, 0);
  }

  lemma NothingCounted(job: Job, schedule: seq<Action>)
    requires ValidJob(job) && Run(job, schedule) && |job.files| == 1 && BlocksOf(job, 0) == []
    requires Final(job, schedule).main.Done? && Final(job, schedule).main.result.Ok?
    ensures Final(job, schedule).main.result.value.inputBytes == 0
  {
    hide Inv, Run, Final, FileResult, Payload, NoOverflow, SizesOf;
    CountersConserved(job, schedule);
    var w := Final(job, schedule).writer;
    assert |w[0].blocks| == Count(job, 0) == 0;
    assert Tally(job, 1, w).inputBytes == Tally(job, 0, w).inputBytes + SourceBytes(w[0].blocks);
  }

  const TWO_BYTES := InputFile(FileEntry(NAME, 2, 0, 0, 0), Some([1, 2]))

  /** Two bytes in blocks of one, stored: the file is prepared, but an inflater that stops after the first
      stream, and a standard gzip reader, do not get it back. */
  lemma TwoBlockWitness(router: SizeRouter, capacity: nat)
    ensures var job := StoringJob([TWO_BYTES], 1, router, capacity);
            && FileResult(job, 0).Ok?
            && var p := FileResult(job, 0).value;
               && StoredInflate(Payload(p.blocks)).Some? && StoredInflate(Payload(p.blocks)).value.0 != [1, 2]
               && InflateAll(StoredInflate, Payload(p.blocks)) == Some([1, 2])
               && (var m := GzipWriter.Member(p);
                   GzipReader.ReadMember(StoredInflate, m) != Some(GzipReader.Decoded(0, [1, 2], |m|)))
  {
    var job := StoringJob([TWO_BYTES], 1, router, capacity);
    StoringJobStores([TWO_BYTES], 1, router, capacity);
    assert job.files == [TWO_BYTES] && job.blockBytes == 1;
    hide StoringJob, StoredInflate, FileResult, Payload, InflateAll, GzipReader.ReadMember, GzipWriter.Member;
    TwoBlocksPrepared(job, capacity);
    TwoBlocksOneStream(job);
    TwoBlocksGzip(job, capacity);
  }

  ghost predicate TwoBlockJob(job: Job) {
    && ValidJob(job) && job.blockBytes == 1 && job.files == [TWO_BYTES]
    && CodecsWrite(job, StoredDeflate, StoredDeflate) && FileResult(job, 0).Ok?
  }

  lemma TwoBlocksPrepared(job: Job, capacity: nat)
    requires Stores(job, capacity) && job.blockBytes == 1 && job.files == [TWO_BYTES]
    ensures TwoBlockJob(job)
  {
    StoringJobIsValid(job, capacity);
    assert NoOverflow(2, 1) && Readable(TWO_BYTES);
    hide Stores, StoredDeflate, CodecsWrite, FileResult, NoOverflow, Readable;
    PreparedExactly(job, 0, StoredDeflate, StoredDeflate);
  }

  lemma TwoBytesFacts()
    ensures NoOverflow(2, 1) && Readable(TWO_BYTES) && Scanned(TWO_BYTES) == [1, 2] && GzipWriter.Mtime(0) == 0
  {
  }

  lemma TwoBlocksOneStream(job: Job)
    requires TwoBlockJob(job)
    ensures var payload := Payload(FileResult(job, 0).value.blocks);
            StoredInflate(payload).Some? && StoredInflate(payload).value.0 != [1, 2]
  {
    TwoBytesFacts();
    StoredIsSelfDelimiting();
    hide StoredInflate, StoredDeflate, SelfDelimiting, CodecsWrite, FileResult, Payload, NoOverflow, Readable, Scanned;
    SingleStreamExactly(job, 0, StoredDeflate, StoredDeflate, StoredInflate);
  }

  lemma TwoBlocksGzip(job: Job, capacity: nat)
    requires TwoBlockJob(job) && Stores(job, capacity)
    ensures var p := FileResult(job, 0).value;
            && InflateAll(StoredInflate, Payload(p.blocks)) == Some([1, 2])
            && (var m := GzipWriter.Member(p);
                GzipReader.ReadMember(StoredInflate, m) != Some(GzipReader.Decoded(0, [1, 2], |m|)))
  {
    TwoBytesFacts();
    StoredIsSelfDelimiting();
    TwoBlockPayload(job, capacity);
    hide StoredInflate, StoredDeflate, SelfDelimiting, CodecsWrite, FileResult, Payload, InflateAll,
         NoOverflow, GzipReader.ReadMember, GzipWriter.Member, GzipWriter.Mtime, Readable, Scanned;
    FileRoundTrip(job, 0, StoredDeflate, StoredDeflate, StoredInflate);
    GzipReader.SingleMemberExactly(job, 0, StoredDeflate, StoredDeflate, StoredInflate);
  }

  lemma TwoBlockCount(job: Job)
    requires job.blockBytes == 1 && job.files == [TWO_BYTES]
    ensures Count(job, 0) == 2
  {
  }

  lemma TwoBlockPayload(job: Job, capacity: nat)
    requires TwoBlockJob(job) && Stores(job, capacity)
    ensures |Payload(FileResult(job, 0).value.blocks)| < U64_LIMIT
  {
    hide FileResult, Payload, Stores, Count, CodecsWrite, ValidJob;
    TwoBlockCount(job);
    StoringPayload(job, 0, capacity);
  }

  /** A file of 2^32 bytes in blocks of one: the block count is truncated to nothing. */
  lemma BlockCountWitness()
    ensures Tasks(U32_LIMIT, 1) == [] && !Tiles(Tasks(U32_LIMIT, 1), U32_LIMIT) && !NoOverflow(U32_LIMIT, 1)
  {
    assert (U32_LIMIT + 1 - 1) / 1 == U32_LIMIT;
  }

  /** A block of 2^32 bytes: zlib is told of none of them, and the stored stream decodes to nothing. */
  lemma BigBlockWitness(source: seq<byte>)
    requires |source| == U32_LIMIT
    ensures ZlibDeflateCodec.ZlibStream(StoredDeflate, n => 6 * n + 5, source) == Ok(StoredDeflate([]))
    ensures StoredInflate(StoredDeflate([])) == Some(([], |StoredDeflate([])|))
  {
    hide StoredDeflate, StoredInflate;
    StoredBound([]);
    StoredRoundTrip([], []);
    assert StoredDeflate([]) + [] == StoredDeflate([]);
    assert |source| % U32_LIMIT == 0 && source[..0] == [];
  }
}
