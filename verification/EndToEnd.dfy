/** From the inputs of a job to what a reader gets back, and the counters reported. */
module EndToEnd {
  import opened Bytes
  import opened Common
  import opened Crc32Model
  import opened AsyncReader
  import opened Deflate
  import opened Assembler
  import opened SizeRouter
  import opened Pipeline
  import opened PipelineSafety
  import opened PipelineRuns
  import ZipFormat
  import ZipReader
  import ZipRoundTrip
  import ZlibDeflateCodec
  import opened PipelineLoops

  /** When the CPU codec succeeds on a block, it writes one stream of the given format. */
  ghost predicate CpuWrites(job: Job, cpu: Compressor) {
    forall x :: |x| <= job.blockBytes && job.cpuCompress(x).Ok? ==> job.cpuCompress(x).value == cpu(x)
  }

  ghost predicate BlockSized(job: Job, xs: seq<seq<byte>>) {
    forall i :: 0 <= i < |xs| ==> |xs[i]| <= job.blockBytes
  }

  /** When the GPU codec succeeds on a batch of blocks, it writes one stream for each. */
  ghost predicate GpuWrites(job: Job, gpu: Compressor) {
    forall xs :: BlockSized(job, xs) && job.gpuCompress(xs).Ok? ==> job.gpuCompress(xs).value == Compressed(gpu, xs)
  }

  ghost predicate CodecsWrite(job: Job, cpu: Compressor, gpu: Compressor) {
    CpuWrites(job, cpu) && GpuWrites(job, gpu)
  }

  /** The zlib codec meets its part whenever a block is shorter than 2^32 bytes. */
  lemma ZlibWrites(job: Job, deflate: Compressor, bound: nat -> nat)
    requires job.blockBytes < U32_LIMIT
    requires forall x :: job.cpuCompress(x) == ZlibDeflateCodec.ZlibStream(deflate, bound, x)
    ensures CpuWrites(job, deflate)
  {
    forall x: seq<byte> | |x| <= job.blockBytes
      ensures job.cpuCompress(x).Ok? ==> job.cpuCompress(x).value == deflate(x)
    {
      assert x[..|x|] == x;
    }
  }

  /** No read delivers more than a block. */
  lemma BlockFits(job: Job, f: nat, b: nat)
    requires job.blockBytes > 0 && f < |job.files| && b < Count(job, f)
    ensures BlockOf(job, f, b).Ok? ==> |BlockOf(job, f, b).value.data| <= job.blockBytes
  {
    assert BlocksOf(job, f)[b] == TaskAt(job.files[f].entry.sizeBytes, job.blockBytes, b);
  }

  /** `bs` are the blocks read from file `f`, up to some point. */
  ghost predicate ReadFrom(job: Job, f: nat, bs: seq<FileBlock>)
    requires job.blockBytes > 0 && f < |job.files|
  {
    |bs| <= Count(job, f) && forall i :: 0 <= i < |bs| ==> BlockOf(job, f, i) == Ok(bs[i])
  }

  ghost predicate Coded(deflate: Compressor, cs: seq<CompressedBlock>, bs: seq<FileBlock>) {
    |cs| == |bs| && forall i :: 0 <= i < |cs| ==> cs[i] == CompressBlock(bs[i], deflate(bs[i].data))
  }

  // ---- What a prepared file holds ----------------------------------------------------------

  ghost predicate FromCpu(job: Job, cs: seq<CompressedBlock>, bs: seq<FileBlock>) {
    && |cs| == |bs|
    && forall i :: 0 <= i < |cs| ==>
         job.cpuCompress(bs[i].data).Ok? && cs[i] == CompressBlock(bs[i], job.cpuCompress(bs[i].data).value)
  }

  ghost predicate FromGpu(job: Job, cs: seq<CompressedBlock>, bs: seq<FileBlock>) {
    var batch := job.gpuCompress(Sources(bs));
    batch.Ok? && |batch.value| == |bs| && cs == Gathered(bs, batch.value)
  }

  lemma {:induction false} CpuFromMeaning(job: Job, f: nat, out: seq<CompressedBlock>, bs: seq<FileBlock>)
    returns (all: seq<FileBlock>)
    requires job.blockBytes > 0 && f < |job.files| && |out| <= Count(job, f)
    requires ReadFrom(job, f, bs) && FromCpu(job, out, bs) && CpuFrom(job, f, out).Ok?
    ensures var p := CpuFrom(job, f, out).value;
            && ReadFrom(job, f, all) && |all| == Count(job, f)
            && FromCpu(job, p.blocks, all) && p == Assembled(job.files[f].entry, p.blocks)
    decreases Count(job, f) - |out|
  {
    hide Count, CompressBlock, BlockOf, Assembled;
    if |out| == Count(job, f) {
      all := bs;
      AssembledBlocks(job.files[f].entry, out);
    } else {
      var b := BlockOf(job, f, |out|).value;
      var stream := job.cpuCompress(b.data).value;
      all := CpuFromMeaning(job, f, out + [CompressBlock(b, stream)], bs + [b]);
    }
  }

  /** A prepared file keeps the place of every block in its input. */
  lemma BlocksInPlace(job: Job, f: nat)
    requires job.blockBytes > 0 && f < |job.files| && FileResult(job, f).Ok?
    requires NoOverflow(job.files[f].entry.sizeBytes, job.blockBytes)
    ensures var blocks := FileResult(job, f).value.blocks;
            && |blocks| == Count(job, f)
            && forall i :: 0 <= i < |blocks| ==>
                 && blocks[i].index == i && blocks[i].offset == i * job.blockBytes
                 && (blocks[i].isLast <==> i == |blocks| - 1)
                 && blocks[i].uncompressed == BlocksOf(job, f)[i].bytes
  {
    var total := job.files[f].entry.sizeBytes;
    var bs := FileBlocks(job, f);
    TilesWhenInRange(total, job.blockBytes);
    var blocks := FileResult(job, f).value.blocks;
    hide FileResult, Tasks, TaskAt, NoOverflow, FromGpu, FromCpu, BlockCount;
    forall i | 0 <= i < |blocks|
      ensures blocks[i].index == i && blocks[i].offset == i * job.blockBytes
      ensures (blocks[i].isLast <==> i == |blocks| - 1) && blocks[i].uncompressed == BlocksOf(job, f)[i].bytes
    {
      assert BlockOf(job, f, i) == Ok(bs[i]);
      BlockKeepsPlace(job, f, i);
    }
  }

  lemma BlockKeepsPlace(job: Job, f: nat, i: nat)
    requires job.blockBytes > 0 && f < |job.files| && i < Count(job, f) && BlockOf(job, f, i).Ok?
    ensures var b, t := BlockOf(job, f, i).value, BlocksOf(job, f)[i];
            && b.index == t.index && b.offset == t.offset == i * job.blockBytes
            && b.isLast == t.last && |b.data| == t.bytes
  {
    assert BlocksOf(job, f)[i] == TaskAt(job.files[f].entry.sizeBytes, job.blockBytes, i);
  }

  lemma AssembledBlocks(entry: FileEntry, cs: seq<CompressedBlock>)
    ensures Assembled(entry, cs).blocks == cs && Assembled(entry, cs).entry == entry
  {
  }

  lemma {:induction false} GpuFromMeaning(job: Job, f: nat, drained: seq<FileBlock>) returns (all: seq<FileBlock>)
    requires job.blockBytes > 0 && f < |job.files| && |drained| <= Count(job, f)
    requires ReadFrom(job, f, drained) && GpuFrom(job, f, drained).Ok?
    ensures var p := GpuFrom(job, f, drained).value;
            && ReadFrom(job, f, all) && |all| == Count(job, f)
            && FromGpu(job, p.blocks, all) && p == Assembled(job.files[f].entry, p.blocks)
    decreases Count(job, f) - |drained|
  {
    hide Count, CompressBlock, BlockOf, Assembled;
    if |drained| == Count(job, f) {
      all := drained;
      AssembledBlocks(job.files[f].entry, Gathered(drained, job.gpuCompress(Sources(drained)).value));
    } else {
      all := GpuFromMeaning(job, f, drained + [BlockOf(job, f, |drained|).value]);
    }
  }

  /** A prepared file holds all blocks of its input, in order, each through the codec of its route. */
  lemma FileBlocks(job: Job, f: nat) returns (bs: seq<FileBlock>)
    requires job.blockBytes > 0 && f < |job.files| && FileResult(job, f).Ok?
    ensures var p := FileResult(job, f).value;
            && ReadFrom(job, f, bs) && |bs| == Count(job, f) && p == Assembled(job.files[f].entry, p.blocks)
            && (if UsesGpu(job, f) then FromGpu(job, p.blocks, bs) else FromCpu(job, p.blocks, bs))
            && CodedFrom(p.blocks, bs)
  {
    hide CpuFrom, GpuFrom, Count, Assembled, ReadFrom, CompressBlock;
    if UsesGpu(job, f) {
      NothingRead(job, f);
      bs := GpuFromMeaning(job, f, []);
    } else {
      NothingRead(job, f);
      bs := CpuFromMeaning(job, f, [], []);
    }
    CodecKeepsSource(job, f, FileResult(job, f).value.blocks, bs);
  }

  lemma NothingRead(job: Job, f: nat)
    requires job.blockBytes > 0 && f < |job.files|
    ensures ReadFrom(job, f, []) && FromCpu(job, [], [])
  {
  }

  lemma CodecKeepsSource(job: Job, f: nat, cs: seq<CompressedBlock>, bs: seq<FileBlock>)
    requires FromGpu(job, cs, bs) || FromCpu(job, cs, bs)
    ensures CodedFrom(cs, bs)
  {
  }

  function CodecFor(job: Job, f: nat, cpu: Compressor, gpu: Compressor): Compressor
    requires f < |job.files|
  {
    if UsesGpu(job, f) then gpu else cpu
  }

  lemma FileMeaning(job: Job, f: nat, cpu: Compressor, gpu: Compressor) returns (bs: seq<FileBlock>)
    requires job.blockBytes > 0 && f < |job.files| && CodecsWrite(job, cpu, gpu) && FileResult(job, f).Ok?
    ensures var p := FileResult(job, f).value;
            && ReadFrom(job, f, bs) && |bs| == Count(job, f)
            && Coded(CodecFor(job, f, cpu, gpu), p.blocks, bs) && p == Assembled(job.files[f].entry, p.blocks)
  {
    hide FileResult, Count, Assembled, BlockOf, CompressBlock;
    bs := FileBlocks(job, f);
    forall i | 0 <= i < |bs| ensures |bs[i].data| <= job.blockBytes {
      BlockFits(job, f, i);
    }
    if UsesGpu(job, f) {
      assert BlockSized(job, Sources(bs));
    }
  }

  // ---- Contents -------------------------------------------------------------------------------

  /** The scanned file can be read in full. */
  ghost predicate Readable(file: InputFile) {
    file.entry.sizeBytes > 0 ==> file.content.Some? && file.entry.sizeBytes <= |file.content.value|
  }

  /** The bytes of the file, as far as its scanned size. */
  ghost function Scanned(file: InputFile): (s: seq<byte>)
    requires Readable(file)
    ensures |s| == file.entry.sizeBytes
  {
    if file.entry.sizeBytes == 0 then [] else file.content.value[..file.entry.sizeBytes]
  }

  lemma BlocksAreContent(job: Job, f: nat, bs: seq<FileBlock>)
    requires job.blockBytes > 0 && f < |job.files| && NoOverflow(job.files[f].entry.sizeBytes, job.blockBytes)
    requires ReadFrom(job, f, bs) && |bs| == Count(job, f)
    ensures Readable(job.files[f]) && Concat(Sources(bs)) == Scanned(job.files[f])
  {
    var file, ts := job.files[f], BlocksOf(job, f);
    var total := file.entry.sizeBytes;
    TilesWhenInRange(total, job.blockBytes);
    hide Tasks, TaskAt, BlockCount, Concat, Tiles, NoOverflow;
    if total > 0 {
      FirstReadOpens(job, f, bs);
      var content := file.content.value;
      forall i | 0 <= i < |ts|
        ensures ReadBlock(Some(content), ts[i]).Ok? && Sources(bs)[i] == ReadBlock(Some(content), ts[i]).value.data
      {
        assert BlockOf(job, f, i) == Ok(bs[i]);
      }
      hide ReadBlock;
      TileEnd(ts, total, 0);
      ReadsConcatenate(content, ts, total, Sources(bs), |ts|);
      assert Sources(bs)[..|ts|] == Sources(bs);
    } else {
      forall i | 0 <= i < |bs| ensures Sources(bs)[i] == [] {
        ZeroTotal(ts, i);
        assert BlockOf(job, f, i) == Ok(bs[i]);
      }
      EmptyParts(Sources(bs));
    }
  }

  lemma FirstReadOpens(job: Job, f: nat, bs: seq<FileBlock>)
    requires job.blockBytes > 0 && f < |job.files| && Tiles(BlocksOf(job, f), job.files[f].entry.sizeBytes)
    requires ReadFrom(job, f, bs) && |bs| == Count(job, f) && job.files[f].entry.sizeBytes > 0
    ensures job.files[f].content.Some?
  {
    TileEnd(BlocksOf(job, f), job.files[f].entry.sizeBytes, 0);
    hide Tasks, TaskAt, BlockCount, Tiles;
    assert BlockOf(job, f, 0) == Ok(bs[0]);
  }

  lemma {:induction false} EmptyParts(parts: seq<seq<byte>>)
    requires forall i :: 0 <= i < |parts| ==> parts[i] == []
    ensures Concat(parts) == []
  {
    if parts != [] {
      EmptyParts(parts[..|parts| - 1]);
    }
  }

  lemma StreamsAreCompressed(deflate: Compressor, cs: seq<CompressedBlock>, bs: seq<FileBlock>)
    requires Coded(deflate, cs, bs)
    ensures CodedFrom(cs, bs) && Streams(cs) == Compressed(deflate, Sources(bs))
  {
  }

  /** Content round trip of one file: whatever codec it was routed to, the stitched checksum and
      sizes are those of its bytes, and decoding stream by stream returns them. */
  lemma FileRoundTrip(job: Job, f: nat, cpu: Compressor, gpu: Compressor, inflate: Inflater)
    requires job.blockBytes > 0 && f < |job.files| && CodecsWrite(job, cpu, gpu) && FileResult(job, f).Ok?
    requires NoOverflow(job.files[f].entry.sizeBytes, job.blockBytes)
    requires SelfDelimiting(cpu, inflate) && SelfDelimiting(gpu, inflate)
    requires |Payload(FileResult(job, f).value.blocks)| < U64_LIMIT
    ensures var p, file := FileResult(job, f).value, job.files[f];
            && Readable(file) && p.entry == file.entry && |p.blocks| == Count(job, f)
            && p.fileCrc32 == Compute(Scanned(file)) && p.uncompressed == file.entry.sizeBytes
            && p.compressed == |Payload(p.blocks)|
            && InflateAll(inflate, Payload(p.blocks)) == Some(Scanned(file))
  {
    hide FileResult, Count, SelfDelimiting, Compute, InflateAll, TotalsOf, Coded, CodecsWrite;
    var p := FileResult(job, f).value;
    var bs := FileMeaning(job, f, cpu, gpu);
    var deflate := CodecFor(job, f, cpu, gpu);
    StreamsAreCompressed(deflate, p.blocks, bs);
    BlocksAreContent(job, f, bs);
    AssembledBlocks(job.files[f].entry, p.blocks);
    StitchedTotals(p.blocks, bs);
    PayloadIsConcat(p.blocks);
    InflateAllStreams(deflate, inflate, Sources(bs));
  }

  /** A decoder that stops after one stream recovers the file exactly when it has one block. */
  lemma SingleStreamExactly(job: Job, f: nat, cpu: Compressor, gpu: Compressor, inflate: Inflater)
    requires job.blockBytes > 0 && f < |job.files| && CodecsWrite(job, cpu, gpu) && FileResult(job, f).Ok?
    requires NoOverflow(job.files[f].entry.sizeBytes, job.blockBytes)
    requires SelfDelimiting(cpu, inflate) && SelfDelimiting(gpu, inflate)
    ensures var p, file := FileResult(job, f).value, job.files[f];
            && Readable(file) && inflate(Payload(p.blocks)).Some?
            && (inflate(Payload(p.blocks)).value.0 == Scanned(file) <==> file.entry.sizeBytes <= job.blockBytes)
  {
    hide FileResult, Count, SelfDelimiting, Coded, CodecsWrite, Assembled;
    var p, file := FileResult(job, f).value, job.files[f];
    var bs := FileMeaning(job, f, cpu, gpu);
    var deflate := CodecFor(job, f, cpu, gpu);
    StreamsAreCompressed(deflate, p.blocks, bs);
    BlocksAreContent(job, f, bs);
    PayloadIsConcat(p.blocks);
    FirstBlock(job, f, bs);
    FirstStreamOnly(deflate, inflate, Sources(bs));
  }

  lemma FirstBlock(job: Job, f: nat, bs: seq<FileBlock>)
    requires job.blockBytes > 0 && f < |job.files| && NoOverflow(job.files[f].entry.sizeBytes, job.blockBytes)
    requires ReadFrom(job, f, bs) && |bs| == Count(job, f) && Readable(job.files[f])
    ensures var total := job.files[f].entry.sizeBytes;
            && |bs| > 0 && |bs[0].data| == (if total <= job.blockBytes then total else job.blockBytes)
            && (total <= job.blockBytes ==> bs[0].data == Scanned(job.files[f]))
  {
    var total := job.files[f].entry.sizeBytes;
    TilesWhenInRange(total, job.blockBytes);
    assert BlockOf(job, f, 0) == Ok(bs[0]);
    assert BlocksOf(job, f)[0] == TaskAt(total, job.blockBytes, 0);
  }

  // ---- Whole jobs -----------------------------------------------------------------------------

  ghost predicate WithinLimits(job: Job)
    requires job.blockBytes > 0
  {
    forall f :: 0 <= f < |job.files| ==>
      && NoOverflow(job.files[f].entry.sizeBytes, job.blockBytes)
      && |ZipFormat.Sanitised(job.files[f].entry.archivePath)| <= U16_MAX
  }

  /** What a reader should extract for an input: its name, time, checksum, size and bytes. */
  ghost predicate Recovered(x: ZipReader.Extracted, file: InputFile, inflate: Inflater) {
    && Readable(file)
    && x.name == ZipFormat.Sanitised(file.entry.archivePath)
    && x.modTime == file.entry.dosTime && x.modDate == file.entry.dosDate
    && x.crc32 == Compute(Scanned(file)) && x.uncompressed == file.entry.sizeBytes
    && x.compressed == |x.payload| && ZipReader.Decode(x, inflate) == Some(Scanned(file))
  }

  /** The entry a reader extracts for a prepared file gives the input back. */
  lemma FileRecovered(job: Job, f: nat, cpu: Compressor, gpu: Compressor, inflate: Inflater)
    requires job.blockBytes > 0 && f < |job.files| && CodecsWrite(job, cpu, gpu) && FileResult(job, f).Ok?
    requires NoOverflow(job.files[f].entry.sizeBytes, job.blockBytes)
    requires SelfDelimiting(cpu, inflate) && SelfDelimiting(gpu, inflate)
    requires |Payload(FileResult(job, f).value.blocks)| < U64_LIMIT
    ensures var p := FileResult(job, f).value;
            && Recovered(ZipRoundTrip.ExpectedOf(p), job.files[f], inflate)
            && p.entry == job.files[f].entry && p.compressed == |Payload(p.blocks)|
  {
    hide FileResult, SelfDelimiting, CodecsWrite, Compute, InflateAll, Payload, NoOverflow;
    FileRoundTrip(job, f, cpu, gpu, inflate);
  }

  lemma {:induction false} PayloadInLocals(fs: seq<PreparedFile>, k: nat)
    requires k < |fs|
    ensures |Payload(fs[k].blocks)| <= |ZipFormat.Locals(fs)|
    decreases |fs|
  {
    hide ZipFormat.LocalHeader, Payload;
    var init := fs[..|fs| - 1];
    if k < |init| {
      PayloadInLocals(init, k);
    }
  }

  /** Any run that reports success, under any schedule and even with a late stop request, leaves
      an archive from which a front-to-back reader recovers every input, in order; a reader that
      goes through the directory recovers the same when no entry overflows only partly. */
  lemma JobRoundTrip(job: Job, schedule: seq<Action>, cpu: Compressor, gpu: Compressor, inflate: Inflater)
    requires ValidJob(job) && Run(job, schedule) && CodecsWrite(job, cpu, gpu) && WithinLimits(job)
    requires SelfDelimiting(cpu, inflate) && SelfDelimiting(gpu, inflate)
    requires Final(job, schedule).main.Done? && Final(job, schedule).main.result.Ok?
    requires |ZipFormat.Archive(Final(job, schedule).writer)| < U64_LIMIT
    ensures var fs := Final(job, schedule).writer;
            var archive, xs := ZipFormat.Archive(fs), ZipRoundTrip.Expected(fs);
            && |xs| == |job.files| && (forall k :: 0 <= k < |xs| ==> Recovered(xs[k], job.files[k], inflate))
            && ZipReader.ScanLocals(archive, 0) == Some((xs, |ZipFormat.Locals(fs)|))
            && (ZipReader.ReadArchive(archive) == Some(xs) <==> ZipRoundTrip.AllDecodable(ZipFormat.Entries(fs)))
  {
    hide Inv, Run, Final, FileResult, SelfDelimiting, CodecsWrite, ZipFormat.Archive, ZipFormat.Locals,
         ZipFormat.Entries, Compute, InflateAll, Payload, NoOverflow, ZipRoundTrip.AllDecodable, Recovered;
    var fs := Final(job, schedule).writer;
    CancellationSafety(job, schedule);
    ZipRoundTrip.EntriesInRange(fs);
    forall k | 0 <= k < |fs|
      ensures Recovered(ZipRoundTrip.ExpectedOf(fs[k]), job.files[k], inflate)
      ensures fs[k].compressed == |Payload(fs[k].blocks)| && ZipRoundTrip.NameFits(fs[k])
    {
      assert FileResult(job, k) == Ok(fs[k]);
      PayloadInLocals(fs, k);
      FileRecovered(job, k, cpu, gpu, inflate);
    }
    assert ZipRoundTrip.SizesAgree(fs);
    ZipRoundTrip.FrontToBackRoundTrip(fs);
    ZipRoundTrip.DirectoryRoundTrip(fs);
  }

  /** The same for a job that really writes a ZIP archive: nothing is assumed of the archive's size,
      since success says it fitted the device. */
  lemma ZipJobRoundTrip(job: Job, schedule: seq<Action>, cpu: Compressor, gpu: Compressor, inflate: Inflater,
                        capacity: nat)
    requires ValidJob(job) && Run(job, schedule) && CodecsWrite(job, cpu, gpu) && WithinLimits(job)
    requires SelfDelimiting(cpu, inflate) && SelfDelimiting(gpu, inflate)
    requires ToZip(job, capacity) && capacity < U64_LIMIT
    requires Final(job, schedule).main.Done? && Final(job, schedule).main.result.Ok?
    ensures var fs := Final(job, schedule).writer;
            var archive, xs := ZipFormat.Archive(fs), ZipRoundTrip.Expected(fs);
            && |archive| <= capacity
            && |xs| == |job.files| && (forall k :: 0 <= k < |xs| ==> Recovered(xs[k], job.files[k], inflate))
            && ZipReader.ScanLocals(archive, 0) == Some((xs, |ZipFormat.Locals(fs)|))
            && (ZipReader.ReadArchive(archive) == Some(xs) <==> ZipRoundTrip.AllDecodable(ZipFormat.Entries(fs)))
  {
    hide Inv, Run, Final, FileResult, SelfDelimiting, CodecsWrite, ZipFormat.Archive, ZipFormat.Locals,
         ZipFormat.Entries, Recovered, WithinLimits;
    CancellationSafety(job, schedule);
    SequentialMeaning(job, 0, [], Stats(0, 0, 0, 0, 0));
    JobRoundTrip(job, schedule, cpu, gpu, inflate);
  }

  // ---- When a job succeeds --------------------------------------------------------------------------

  lemma {:induction false} CpuFromOk(job: Job, f: nat, out: seq<CompressedBlock>)
    requires job.blockBytes > 0 && f < |job.files| && |out| <= Count(job, f)
    requires (forall x :: job.cpuCompress(x).Ok?) && forall i :: 0 <= i < Count(job, f) ==> BlockOf(job, f, i).Ok?
    ensures CpuFrom(job, f, out).Ok?
    decreases Count(job, f) - |out|
  {
    hide Count, BlockOf, CompressBlock, Assembled;
    if |out| < Count(job, f) {
      var b := BlockOf(job, f, |out|).value;
      CpuFromOk(job, f, out + [CompressBlock(b, job.cpuCompress(b.data).value)]);
    }
  }

  lemma {:induction false} GpuFromOk(job: Job, f: nat, drained: seq<FileBlock>)
    requires ValidJob(job) && f < |job.files| && |drained| <= Count(job, f)
    requires (forall xs :: job.gpuCompress(xs).Ok?) && forall i :: 0 <= i < Count(job, f) ==> BlockOf(job, f, i).Ok?
    ensures GpuFrom(job, f, drained).Ok?
    decreases Count(job, f) - |drained|
  {
    hide Count, BlockOf, Assembled;
    if |drained| < Count(job, f) {
      GpuFromOk(job, f, drained + [BlockOf(job, f, |drained|).value]);
    } else {
      assert job.gpuCompress(Sources(drained)).Ok?;
    }
  }

  /** A read buffer can be had for every block that needs one. */
  ghost predicate Buffered(job: Job, f: nat)
    requires job.blockBytes > 0 && f < |job.files|
  {
    forall b :: 0 <= b < Count(job, f) ==> Buffer(job, BlocksOf(job, f)[b].bytes).None?
  }

  /** Only a block with bytes in it needs a buffer. */
  lemma BufferedExactly(job: Job, f: nat)
    requires job.blockBytes > 0 && f < |job.files|
    ensures Buffered(job, f) <==>
              forall b :: 0 <= b < Count(job, f) && BlocksOf(job, f)[b].bytes > 0 ==>
                job.allocate(BlocksOf(job, f)[b].bytes).None?
  {
    hide BlocksOf;
  }

  lemma ReadableBlocks(job: Job, f: nat)
    requires job.blockBytes > 0 && f < |job.files| && NoOverflow(job.files[f].entry.sizeBytes, job.blockBytes)
    requires Readable(job.files[f]) && Buffered(job, f)
    ensures forall i :: 0 <= i < Count(job, f) ==> BlockOf(job, f, i).Ok?
  {
    var total, ts := job.files[f].entry.sizeBytes, BlocksOf(job, f);
    TilesWhenInRange(total, job.blockBytes);
    forall i | 0 <= i < Count(job, f)
      ensures BlockOf(job, f, i).Ok?
    {
      if total == 0 {
        ZeroTotal(ts, i);
      } else {
        CountInRange(total, job.blockBytes, i);
        assert ts[i] == TaskAt(total, job.blockBytes, i);
      }
    }
  }

  lemma ReadNeedsBuffers(job: Job, f: nat, bs: seq<FileBlock>)
    requires job.blockBytes > 0 && f < |job.files| && ReadFrom(job, f, bs) && |bs| == Count(job, f)
    ensures Buffered(job, f)
  {
    hide BlocksOf, ReadBlock, Buffer;
    forall b | 0 <= b < Count(job, f) ensures Buffer(job, BlocksOf(job, f)[b].bytes).None? {
      assert BlockOf(job, f, b).Ok?;
    }
  }

  /** With codecs that do not fail, a file is prepared exactly when its scanned bytes can be read and a buffer
      can be had for every block. */
  lemma PreparedExactly(job: Job, f: nat, cpu: Compressor, gpu: Compressor)
    requires ValidJob(job) && f < |job.files| && CodecsWrite(job, cpu, gpu)
    requires (forall x :: job.cpuCompress(x).Ok?) && (forall xs :: job.gpuCompress(xs).Ok?)
    requires NoOverflow(job.files[f].entry.sizeBytes, job.blockBytes)
    ensures FileResult(job, f).Ok? <==>
              && Readable(job.files[f])
              && forall b :: 0 <= b < Count(job, f) && BlocksOf(job, f)[b].bytes > 0 ==>
                   job.allocate(BlocksOf(job, f)[b].bytes).None?
  {
    BufferedExactly(job, f);
    hide BlocksOf, CodecsWrite, NoOverflow, BlockOf, Coded, Assembled, CpuFrom, GpuFrom, Buffered;
    if FileResult(job, f).Ok? {
      var bs := FileMeaning(job, f, cpu, gpu);
      BlocksAreContent(job, f, bs);
      ReadNeedsBuffers(job, f, bs);
    }
    if Readable(job.files[f]) && Buffered(job, f) {
      ReadableBlocks(job, f);
      CpuFromOk(job, f, []);
      GpuFromOk(job, f, []);
    }
  }

  // ---- Which error a file ends with ------------------------------------------------------------------

  lemma {:induction false} CpuFromError(job: Job, f: nat, out: seq<CompressedBlock>) returns (i: nat)
    requires job.blockBytes > 0 && f < |job.files| && |out| <= Count(job, f)
    requires (forall x :: job.cpuCompress(x).Ok?) && CpuFrom(job, f, out).Err?
    ensures |out| <= i < Count(job, f) && BlockOf(job, f, i).Err?
    ensures CpuFrom(job, f, out) == Err(BlockOf(job, f, i).error)
    ensures forall j :: |out| <= j < i ==> BlockOf(job, f, j).Ok?
    decreases Count(job, f) - |out|
  {
    hide Count, BlockOf, CompressBlock, Assembled;
    i := |out|;
    if BlockOf(job, f, i).Ok? {
      var b := BlockOf(job, f, i).value;
      i := CpuFromError(job, f, out + [CompressBlock(b, job.cpuCompress(b.data).value)]);
    }
  }

  lemma BatchSucceeds(job: Job, f: nat, drained: seq<FileBlock>)
    requires ValidJob(job) && f < |job.files| && forall xs :: job.gpuCompress(xs).Ok?
    ensures GpuResult(job, f, drained).Ok?
  {
    assert job.gpuCompress(Sources(drained)).Ok?;
  }

  lemma {:induction false} GpuFromError(job: Job, f: nat, drained: seq<FileBlock>) returns (i: nat)
    requires ValidJob(job) && f < |job.files| && |drained| <= Count(job, f)
    requires (forall xs :: job.gpuCompress(xs).Ok?) && GpuFrom(job, f, drained).Err?
    ensures |drained| <= i < Count(job, f) && BlockOf(job, f, i).Err?
    ensures GpuFrom(job, f, drained) == Err(BlockOf(job, f, i).error)
    ensures forall j :: |drained| <= j < i ==> BlockOf(job, f, j).Ok?
    decreases Count(job, f) - |drained|
  {
    hide Count, BlockOf, Assembled;
    i := |drained|;
    BatchSucceeds(job, f, drained);
    if i < Count(job, f) && BlockOf(job, f, i).Ok? {
      i := GpuFromError(job, f, drained + [BlockOf(job, f, i).value]);
    }
  }

  /** With codecs that do not fail, a file that cannot be prepared ends with the error of its first block that
      cannot be read: that of its buffer, or one that says whether the file could not be opened or is shorter
      than it was when scanned. */
  lemma FirstBadBlock(job: Job, f: nat) returns (i: nat)
    requires ValidJob(job) && f < |job.files| && FileResult(job, f).Err?
    requires (forall x :: job.cpuCompress(x).Ok?) && (forall xs :: job.gpuCompress(xs).Ok?)
    ensures i < Count(job, f) && BlocksOf(job, f)[i].bytes > 0
    ensures forall j :: 0 <= j < i ==> BlockOf(job, f, j).Ok?
    ensures var buffer := job.allocate(BlocksOf(job, f)[i].bytes);
            FileResult(job, f)
            == if buffer.Some? then Err(buffer.value)
               else Err(Error(StatusCode.Io, if job.files[f].content.None? then "Failed to open" else "Short read"))
  {
    if UsesGpu(job, f) {
      i := GpuFromError(job, f, []);
    } else {
      i := CpuFromError(job, f, []);
    }
    hide BlocksOf, CpuFrom, GpuFrom;
  }

  ghost function AllPrepared(job: Job): (fs: seq<PreparedFile>)
    requires job.blockBytes > 0 && forall f :: 0 <= f < |job.files| ==> FileResult(job, f).Ok?
  {
    seq(|job.files|, f requires 0 <= f < |job.files| => FileResult(job, f).value)
  }

  lemma {:induction false} LocalsGrow(fs: seq<PreparedFile>, k: nat)
    requires k <= |fs|
    ensures |ZipFormat.Locals(fs[..k])| <= |ZipFormat.Locals(fs)|
    decreases |fs|
  {
    hide ZipFormat.LocalRecord;
    if k == |fs| {
      assert fs[..k] == fs;
    } else {
      var init := fs[..|fs| - 1];
      LocalsGrow(init, k);
      assert init[..k] == fs[..k];
    }
  }

  /** A job that writes a ZIP archive and is not cancelled succeeds exactly when it has inputs, every
      one of them can be prepared, and the archive fits the device. */
  lemma ZipJobSucceedsExactly(job: Job, schedule: seq<Action>, capacity: nat)
    requires ValidJob(job) && Run(job, schedule) && RequestStop !in schedule && ToZip(job, capacity)
    requires Final(job, schedule).main.Done?
    ensures Final(job, schedule).main.result.Ok? <==>
              && job.files != [] && (forall f :: 0 <= f < |job.files| ==> FileResult(job, f).Ok?)
              && |ZipFormat.Archive(AllPrepared(job))| <= capacity
  {
    hide Inv, Run, Final, FileResult, ZipFormat.Archive, ZipFormat.Locals, SequentialFrom, ToZip;
    ScheduleIndependence(job, schedule);
    if job.files != [] {
      var stats := Stats(0, 0, 0, 0, 0);
      SequentialMeaning(job, 0, [], stats);
      hide StopsAtFirstFailure;
      OutcomeExactly(job, capacity, SequentialFrom(job, 0, [], stats).0, SequentialFrom(job, 0, [], stats).1);
    }
  }

  /** A refused write means the whole archive would not have fitted. */
  lemma RefusedMeansTooLong(job: Job, capacity: nat, w: seq<PreparedFile>)
    requires job.blockBytes > 0 && ToZip(job, capacity) && |w| < |job.files|
    requires forall f :: 0 <= f < |job.files| ==> FileResult(job, f).Ok?
    requires forall f :: 0 <= f < |w| ==> FileResult(job, f) == Ok(w[f])
    requires job.writeError(w, FileResult(job, |w|).value).Some?
    ensures |ZipFormat.Archive(AllPrepared(job))| > capacity
  {
    hide FileResult, ZipFormat.Archive, ZipFormat.Locals;
    var fs := AllPrepared(job);
    assert w + [fs[|w|]] == fs[..|w| + 1];
    LocalsGrow(fs, |w| + 1);
    ZipRoundTrip.EntriesInRange(fs);
  }

  lemma FinishExactly(job: Job, capacity: nat, w: seq<PreparedFile>)
    requires ToZip(job, capacity)
    ensures job.finishError(w).None? <==> |ZipFormat.Archive(w)| <= capacity
  {
    hide ZipFormat.Archive, ZipFormat.Locals;
  }

  lemma OutcomeExactly(job: Job, capacity: nat, r: Result<Stats>, w: seq<PreparedFile>)
    requires job.blockBytes > 0 && ToZip(job, capacity) && StopsAtFirstFailure(job, r, w)
    ensures r.Ok? <==>
              && (forall f :: 0 <= f < |job.files| ==> FileResult(job, f).Ok?)
              && |ZipFormat.Archive(AllPrepared(job))| <= capacity
  {
    hide FileResult, ZipFormat.Archive, ToZip;
    if |w| == |job.files| {
      assert forall f :: 0 <= f < |w| ==> FileResult(job, f) == Ok(w[f]);
      assert w == AllPrepared(job);
      FinishExactly(job, capacity, w);
    } else if forall f :: 0 <= f < |job.files| ==> FileResult(job, f).Ok? {
      RefusedMeansTooLong(job, capacity, w);
    }
  }

  /** A successful ZIP job has written the result of every input, and the archive fitted. */
  lemma ZipJobFits(job: Job, schedule: seq<Action>, capacity: nat)
    requires ValidJob(job) && Run(job, schedule) && ToZip(job, capacity)
    requires Final(job, schedule).main.Done? && Final(job, schedule).main.result.Ok?
    ensures var fs := Final(job, schedule).writer;
            && |fs| == |job.files| && |ZipFormat.Archive(fs)| <= capacity
            && forall k :: 0 <= k < |fs| ==> FileResult(job, k) == Ok(fs[k])
  {
    CancellationSafety(job, schedule);
    SequentialMeaning(job, 0, [], Stats(0, 0, 0, 0, 0));
    FinishExactly(job, capacity, Final(job, schedule).writer);
    hide Inv, Run, Final, FileResult, ZipFormat.Archive, ToZip;
  }

  // ---- An instance that assumes nothing of the codecs --------------------------------------------------

  /** The job stores its blocks (section 3.2.4 of RFC 1951) and writes a ZIP archive. */
  ghost predicate Stores(job: Job, capacity: nat) {
    && job.blockBytes > 0 && job.ioWorkers > 0 && job.cpuWorkers > 0 && ToZip(job, capacity)
    && (forall n :: job.allocate(n).None?)
    && (forall x :: job.cpuCompress(x) == Ok(StoredDeflate(x)))
    && (forall xs :: job.gpuCompress(xs) == Ok(Compressed(StoredDeflate, xs)))
  }

  lemma StoringJobIsValid(job: Job, capacity: nat)
    requires Stores(job, capacity)
    ensures ValidJob(job) && CodecsWrite(job, StoredDeflate, StoredDeflate)
    ensures (forall x :: job.cpuCompress(x).Ok?) && (forall xs :: job.gpuCompress(xs).Ok?)
    ensures forall n :: job.allocate(n).None?
  {
    hide StoredDeflate, ToZip;
  }

  function StoringJob(files: seq<InputFile>, blockBytes: u64, router: SizeRouter, capacity: nat): Job {
    Job(files, blockBytes, router, _ => None, x => Ok(StoredDeflate(x)), xs => Ok(Compressed(StoredDeflate, xs)),
        (w, p) => if |ZipFormat.Locals(w + [p])| <= capacity then None else Some(Zip.SHORT_WRITE.error),
        w => if |ZipFormat.Archive(w)| <= capacity then None else Some(Zip.SHORT_WRITE.error),
        1, 1)
  }

  lemma StoringJobStores(files: seq<InputFile>, blockBytes: u64, router: SizeRouter, capacity: nat)
    requires blockBytes > 0
    ensures Stores(StoringJob(files, blockBytes, router, capacity), capacity)
  {
    hide StoredDeflate, ZipFormat.Locals, ZipFormat.Archive;
  }

  lemma StoringJobReads(job: Job, capacity: nat)
    requires Stores(job, capacity) && WithinLimits(job)
    ensures forall f :: 0 <= f < |job.files| ==> (FileResult(job, f).Ok? <==> Readable(job.files[f]))
  {
    StoringJobIsValid(job, capacity);
    hide Stores, ValidJob, FileResult, CodecsWrite, StoredDeflate, NoOverflow, Readable, BlocksOf;
    forall f | 0 <= f < |job.files| ensures FileResult(job, f).Ok? <==> Readable(job.files[f]) {
      PreparedExactly(job, f, StoredDeflate, StoredDeflate);
    }
  }

  /** Every complete, uncancelled run of such a job succeeds exactly when there are inputs, all can be read
      and the archive fits the device. */
  lemma StoringJobSucceedsExactly(job: Job, capacity: nat, schedule: seq<Action>)
    requires Stores(job, capacity) && WithinLimits(job)
    requires ValidJob(job) && Run(job, schedule) && RequestStop !in schedule && Final(job, schedule).main.Done?
    ensures forall f :: 0 <= f < |job.files| ==> (FileResult(job, f).Ok? <==> Readable(job.files[f]))
    ensures Final(job, schedule).main.result.Ok? <==>
              && job.files != [] && (forall f :: 0 <= f < |job.files| ==> Readable(job.files[f]))
              && |ZipFormat.Archive(AllPrepared(job))| <= capacity
  {
    hide Inv, Run, Final, FileResult, ZipFormat.Archive, ToZip, WithinLimits, Readable, ValidJob;
    StoringJobReads(job, capacity);
    ZipJobSucceedsExactly(job, schedule, capacity);
  }

  /** When it succeeds, cancelled or not, a reader with the stored-block decoder gets every input back. */
  lemma StoringJobRoundTrip(job: Job, capacity: nat, schedule: seq<Action>)
    requires Stores(job, capacity) && WithinLimits(job) && capacity < U64_LIMIT
    requires ValidJob(job) && Run(job, schedule)
    requires Final(job, schedule).main.Done? && Final(job, schedule).main.result.Ok?
    ensures var fs := Final(job, schedule).writer;
            var xs := ZipRoundTrip.Expected(fs);
            && |xs| == |job.files| && (forall k :: 0 <= k < |xs| ==> Recovered(xs[k], job.files[k], StoredInflate))
            && ZipReader.ScanLocals(ZipFormat.Archive(fs), 0) == Some((xs, |ZipFormat.Locals(fs)|))
  {
    StoringJobIsValid(job, capacity);
    StoredIsSelfDelimiting();
    hide Inv, Run, Final, FileResult, SelfDelimiting, CodecsWrite, ZipFormat.Archive, ZipFormat.Locals,
         ZipFormat.Entries, ZipRoundTrip.AllDecodable, Recovered, StoredDeflate, StoredInflate, ToZip, WithinLimits;
    ZipJobRoundTrip(job, schedule, StoredDeflate, StoredDeflate, StoredInflate, capacity);
  }
}
