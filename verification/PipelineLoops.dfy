/**
 The loops of the pipeline without the pools: what one CPU task does with its blocks, what one GPU
 task does, and the ordered drain with its counters. They compute the sequential program that
 every schedule of the concurrent protocol agrees with.
 */
module PipelineLoops {
  import opened Common
  import opened AsyncReader
  import opened Assembler
  import opened SizeRouter
  import opened Pipeline
  import ZipFormat
  import Zip = ZipWriter

  /** `drain_and_compress`, followed by `assemble`; `stop(i)` is what the check before block `i` sees. */
  method CpuTask(job: Job, f: nat, stop: nat -> bool) returns (r: Result<PreparedFile>)
    requires job.blockBytes > 0 && f < |job.files|
    ensures r == CpuFrom(job, f, []) || r == Err(CANCELLED)
    ensures (forall i :: 0 <= i < Count(job, f) ==> !stop(i)) ==> r == CpuFrom(job, f, [])
    ensures CpuFrom(job, f, []).Ok? && (exists i :: 0 <= i < Count(job, f) && stop(i)) ==> r == Err(CANCELLED)
    ensures Count(job, f) > 0 && stop(0) ==> r == Err(CANCELLED)
  {
    hide Assembled, CompressBlock, Count, BlockOf;
    var out: seq<CompressedBlock> := [];
    while |out| < Count(job, f)
      invariant |out| <= Count(job, f) && CpuFrom(job, f, out) == CpuFrom(job, f, [])
      invariant forall i :: 0 <= i < |out| ==> !stop(i)
      decreases Count(job, f) - |out|
    {
      if stop(|out|) {
        return Err(CANCELLED);
      }
      var read := BlockOf(job, f, |out|);
      if read.Err? {
        return Err(read.error);
      }
      var stream := job.cpuCompress(read.value.data);
      if stream.Err? {
        return Err(stream.error);
      }
      out := out + [CompressBlock(read.value, stream.value)];
    }
    var file := Assemble(job.files[f].entry, out);
    r := Ok(file);
  }

  /** The GPU branch of the file task: collect every block, then one batch. */
  method GpuTask(job: Job, f: nat, stop: nat -> bool) returns (r: Result<PreparedFile>)
    requires job.blockBytes > 0 && f < |job.files|
    ensures r == GpuFrom(job, f, []) || r == Err(CANCELLED)
    ensures (forall i :: 0 <= i < Count(job, f) ==> !stop(i)) ==> r == GpuFrom(job, f, [])
    ensures GpuFrom(job, f, []).Ok? && (exists i :: 0 <= i < Count(job, f) && stop(i)) ==> r == Err(CANCELLED)
    ensures Count(job, f) > 0 && stop(0) ==> r == Err(CANCELLED)
  {
    hide Assembled, Count, BlockOf, Gathered;
    var drained: seq<FileBlock> := [];
    while |drained| < Count(job, f)
      invariant |drained| <= Count(job, f) && GpuFrom(job, f, drained) == GpuFrom(job, f, [])
      invariant forall i :: 0 <= i < |drained| ==> !stop(i)
      decreases Count(job, f) - |drained|
    {
      if stop(|drained|) {
        return Err(CANCELLED);
      }
      var read := BlockOf(job, f, |drained|);
      if read.Err? {
        return Err(read.error);
      }
      drained := drained + [read.value];
    }
    var batch := job.gpuCompress(Sources(drained));
    if batch.Err? {
      return Err(batch.error);
    }
    if |batch.value| != |drained| {
      return Err(BAD_BATCH);
    }
    var file := Assemble(job.files[f].entry, Gathered(drained, batch.value));
    r := Ok(file);
  }

  /** One file on the route chosen for it. */
  method FileTask(job: Job, f: nat, stop: nat -> bool) returns (r: Result<PreparedFile>)
    requires job.blockBytes > 0 && f < |job.files|
    ensures r == FileResult(job, f) || r == Err(CANCELLED)
    ensures (forall i :: 0 <= i < Count(job, f) ==> !stop(i)) ==> r == FileResult(job, f)
    ensures FileResult(job, f).Ok? && (exists i :: 0 <= i < Count(job, f) && stop(i)) ==> r == Err(CANCELLED)
  {
    if UsesGpu(job, f) {
      r := GpuTask(job, f, stop);
    } else {
      r := CpuTask(job, f, stop);
    }
  }

  /** The counters of the progress snapshot. */
  class ProgressCoalescer {
    const totalFiles: nat
    const totalBytes: nat
    var processedFiles: nat
    var processedBytes: nat
    var outputBytes: nat

    constructor (totalFiles: nat, totalBytes: nat)
      ensures this.totalFiles == totalFiles && this.totalBytes == totalBytes
      ensures processedFiles == 0 && processedBytes == 0 && outputBytes == 0
    {
      this.totalFiles, this.totalBytes := totalFiles, totalBytes;
      processedFiles, processedBytes, outputBytes := 0, 0, 0;
    }

    method OnFileCompleted(inBytes: nat, outBytes: nat)
      modifies this
      ensures processedFiles == old(processedFiles) + 1
      ensures processedBytes == old(processedBytes) + inBytes && outputBytes == old(outputBytes) + outBytes
    {
      processedFiles := processedFiles + 1;
      processedBytes := processedBytes + inBytes;
      outputBytes := outputBytes + outBytes;
    }
  }

  method ScannedBytes(files: seq<InputFile>) returns (total: nat)
    ensures total == SizesOf(files)
  {
    total := 0;
    for i := 0 to |files|
      invariant total == SizesOf(files[..i])
    {
      assert files[..i + 1][..i] == files[..i];
      total := total + files[i].entry.sizeBytes;
    }
    assert files[..|files|] == files;
  }

  function SizesOf(files: seq<InputFile>): nat {
    if files == [] then 0 else SizesOf(files[..|files| - 1]) + files[|files| - 1].entry.sizeBytes
  }

  /** The job writes a ZIP archive to a device that accepts `capacity` bytes. */
  ghost predicate ToZip(job: Job, capacity: nat) {
    && (forall w, p :: job.writeError(w, p)
                       == if |ZipFormat.Locals(w + [p])| <= capacity then None else Some(Zip.SHORT_WRITE.error))
    && (forall w :: job.finishError(w)
                    == if |ZipFormat.Archive(w)| <= capacity then None else Some(Zip.SHORT_WRITE.error))
  }

  /** Count one file on its route, write it, and add its bytes. */
  method Deliver(job: Job, out: Zip.ZipWriter, stats: Stats, p: PreparedFile) returns (r: Result<Stats>)
    requires ToZip(job, out.capacity) && out.Valid() && !out.failed
    modifies out
    ensures out.Valid() && ZipFormat.Locals(out.written) <= out.sink
    ensures match job.writeError(old(out.written), p)
            case Some(e) => r == Err(e) && out.written == old(out.written)
            case None => r == Ok(AddFile(job, stats, p)) && !out.failed && out.written == old(out.written) + [p]
    ensures r != Err(CANCELLED)
  {
    hide ZipFormat.Locals, ZipFormat.Archive, ZipFormat.Entries;
    var tallied := if job.router.Route(p.entry.sizeBytes) == Gpu
                   then stats.(gpuBlocks := stats.gpuBlocks + |p.blocks|)
                   else stats.(cpuBlocks := stats.cpuBlocks + |p.blocks|);
    var written := out.WriteFile(p);
    if written.Fail? {
      return Err(written.error);
    }
    r := Ok(tallied.(files := stats.files + 1, inputBytes := stats.inputBytes + p.uncompressed,
                     outputBytes := stats.outputBytes + p.compressed));
  }

  /** Files one after the other, in input order, into a real writer; `stop(k)` is what the check before
      file `k` sees, and `stopIn(k)` what the checks inside its task see. The counters are kept in two
      places; on success the progress snapshot flushed at the end shows the totals returned. */
  method RunInOrder(job: Job, out: Zip.ZipWriter, stop: nat -> bool, stopIn: nat -> nat -> bool)
    returns (r: Result<Stats>, progress: ProgressCoalescer)
    requires job.blockBytes > 0 && ToZip(job, out.capacity)
    requires out.Valid() && !out.failed && out.written == []
    modifies out
    ensures (r, out.written) == Sequential(job) || r == Err(CANCELLED)
    ensures (forall k :: !stop(k)) && (forall k, i :: !stopIn(k)(i)) ==> (r, out.written) == Sequential(job)
    ensures if r.Ok? then out.sink == ZipFormat.Archive(out.written) else ZipFormat.Locals(out.written) <= out.sink
    ensures r == Err(CANCELLED) ==> !out.failed && out.sink == ZipFormat.Locals(out.written)
    ensures r.Ok?
            ==> forall k :: 0 <= k < |job.files| ==> !stop(k) && forall i :: 0 <= i < Count(job, k) ==> !stopIn(k)(i)
    ensures fresh(progress) && progress.totalFiles == |job.files| && progress.totalBytes == SizesOf(job.files)
    ensures r.Ok? ==>
              && progress.processedFiles == r.value.files == |job.files|
              && progress.processedBytes == r.value.inputBytes && progress.outputBytes == r.value.outputBytes
  {
    hide FileResult, SizesOf, Count, ZipFormat.Locals, ZipFormat.Archive, ZipFormat.Entries;
    var total := ScannedBytes(job.files);
    progress := new ProgressCoalescer(|job.files|, total);
    if job.files == [] {
      r := Err(NO_INPUTS);
      return;
    }
    var stats := Stats(0, 0, 0, 0, 0);
    for k := 0 to |job.files|
      invariant out.Valid() && !out.failed
      invariant SequentialFrom(job, k, out.written, stats) == Sequential(job)
      invariant forall j :: 0 <= j < k ==> !stop(j) && forall i :: 0 <= i < Count(job, j) ==> !stopIn(j)(i)
      invariant progress.processedFiles == stats.files == k
      invariant progress.processedBytes == stats.inputBytes && progress.outputBytes == stats.outputBytes
    {
      if stop(k) {
        r := Err(CANCELLED);
        return;
      }
      var file := FileTask(job, k, stopIn(k));
      if file.Err? {
        r := Err(file.error);
        return;
      }
      var p := file.value;
      var delivered := Deliver(job, out, stats, p);
      if delivered.Err? {
        r := Err(delivered.error);
        return;
      }
      stats := delivered.value;
      progress.OnFileCompleted(p.uncompressed, p.compressed);
    }
    var finished := out.Finish();
    r := if finished.Fail? then Err(finished.error) else Ok(stats);
  }
}
