/** The counters a successful job reports, from the blocks it read and the payloads it wrote. */
module Counters {
  import opened Bytes
  import opened Common
  import opened AsyncReader
  import opened Assembler
  import opened Pipeline
  import opened PipelineSafety
  import opened PipelineRuns
  import opened PipelineLoops
  import opened EndToEnd
  import ZipFormat
  import ZipRoundTrip

  /** The lengths of the blocks' sources, summed. */
  function SourceBytes(cs: seq<CompressedBlock>): nat {
    if cs == [] then 0 else SourceBytes(cs[..|cs| - 1]) + cs[|cs| - 1].uncompressed
  }

  lemma ModUnique(v: nat, d: nat, q: nat, r: nat)
    requires d > 0 && r < d && v == q * d + r
    ensures v % d == r
  {
    DivUnique(v, d, q, r);
    assert v == v / d * d + v % d;
  }

  lemma AddQuotients(p: nat, q: nat, d: nat)
    ensures p * d + q * d == (p + q) * d
  {
  }

  lemma ModSum(a: nat, b: nat, m: nat)
    requires m > 0
    ensures (a % m + b) % m == (a + b) % m
  {
    var p, low := a / m, a % m;
    var q, r := (low + b) / m, (low + b) % m;
    assert a == p * m + low;
    assert low + b == q * m + r;
    AddQuotients(p, q, m);
    ModUnique(a + b, m, p + q, r);
  }

  /** The stitching loop keeps both sums modulo 2^64. */
  lemma {:induction false} TotalsAreSums(cs: seq<CompressedBlock>)
    ensures TotalsOf(cs).uncompressed == SourceBytes(cs) % U64_LIMIT
    ensures TotalsOf(cs).compressed == |Payload(cs)| % U64_LIMIT
    decreases |cs|
  {
    if cs != [] {
      var init, last := cs[..|cs| - 1], cs[|cs| - 1];
      TotalsAreSums(init);
      ModSum(SourceBytes(init), last.uncompressed, U64_LIMIT);
      ModSum(|Payload(init)|, |last.bytes|, U64_LIMIT);
    }
  }

  lemma ReadLength(job: Job, f: nat, bs: seq<FileBlock>, i: nat)
    requires job.blockBytes > 0 && f < |job.files| && ReadFrom(job, f, bs) && i < |bs|
    ensures |bs[i].data| == BlocksOf(job, f)[i].bytes
  {
    hide Tasks;
    assert BlockOf(job, f, i) == Ok(bs[i]);
  }

  lemma CodedLength(cs: seq<CompressedBlock>, bs: seq<FileBlock>, i: nat)
    requires CodedFrom(cs, bs) && i < |cs|
    ensures |cs| == |bs| && cs[i].uncompressed == |bs[i].data|
  {
  }

  lemma SourceStep(cs: seq<CompressedBlock>, n: nat)
    requires n < |cs|
    ensures SourceBytes(cs[..n + 1]) == SourceBytes(cs[..n]) + cs[n].uncompressed
  {
    assert cs[..n + 1][..n] == cs[..n];
  }

  lemma TaskStep(ts: seq<ReadTask>, n: nat)
    requires n < |ts|
    ensures TaskBytes(ts[..n + 1]) == TaskBytes(ts[..n]) + ts[n].bytes
  {
    assert ts[..n + 1][..n] == ts[..n];
  }

  lemma NoSources(cs: seq<CompressedBlock>, ts: seq<ReadTask>)
    ensures SourceBytes(cs[..0]) == 0 && TaskBytes(ts[..0]) == 0
  {
  }

  lemma {:induction false} SourcesOfReads(job: Job, f: nat, cs: seq<CompressedBlock>, bs: seq<FileBlock>, n: nat)
    requires job.blockBytes > 0 && f < |job.files| && CodedFrom(cs, bs)
    requires ReadFrom(job, f, bs) && |bs| == Count(job, f) && n <= |cs|
    ensures SourceBytes(cs[..n]) == TaskBytes(BlocksOf(job, f)[..n])
    decreases n
  {
    hide BlocksOf, SourceBytes, TaskBytes, ReadFrom, CodedFrom;
    var ts := BlocksOf(job, f);
    if n == 0 {
      NoSources(cs, ts);
    } else {
      var m: nat := n - 1;
      CodedLength(cs, bs, m);
      SourcesOfReads(job, f, cs, bs, m);
      ReadLength(job, f, bs, m);
      SourceStep(cs, m);
      TaskStep(ts, m);
    }
  }

  /** A prepared file is counted with the bytes of its blocks. */
  ghost predicate Prepares(job: Job, f: nat)
    requires job.blockBytes > 0 && f < |job.files|
  {
    FileResult(job, f).Ok? &&
    var p := FileResult(job, f).value;
    && p.entry == job.files[f].entry && |p.blocks| == Count(job, f)
    && p.uncompressed == SourceBytes(p.blocks) == TaskBytes(BlocksOf(job, f))
    && p.compressed == |Payload(p.blocks)| % U64_LIMIT
  }

  /** Never more than the scanned size, and exactly that when the block count does not overflow. */
  lemma CoveredExactly(job: Job, f: nat)
    requires job.blockBytes > 0 && f < |job.files|
    ensures var size, held := job.files[f].entry.sizeBytes, TaskBytes(BlocksOf(job, f));
            held <= size && (held == size <==> NoOverflow(size, job.blockBytes))
  {
    hide NoOverflow, TaskBytes, Tasks;
    BlocksCoverExactly(job.files[f].entry.sizeBytes, job.blockBytes);
  }

  lemma AssembledSums(entry: FileEntry, cs: seq<CompressedBlock>)
    ensures var p := Assembled(entry, cs);
            && p.entry == entry && p.blocks == cs
            && p.uncompressed == SourceBytes(cs) % U64_LIMIT && p.compressed == |Payload(cs)| % U64_LIMIT
  {
    TotalsAreSums(cs);
    hide TotalsOf, SourceBytes, Payload;
  }

  lemma SourcesOfFile(job: Job, f: nat, cs: seq<CompressedBlock>, bs: seq<FileBlock>)
    requires job.blockBytes > 0 && f < |job.files| && CodedFrom(cs, bs)
    requires ReadFrom(job, f, bs) && |bs| == Count(job, f)
    ensures |cs| == Count(job, f) && SourceBytes(cs) == TaskBytes(BlocksOf(job, f))
  {
    SourcesOfReads(job, f, cs, bs, |cs|);
    hide SourceBytes, TaskBytes, Tasks, ReadFrom;
    assert cs[..|cs|] == cs && BlocksOf(job, f)[..|bs|] == BlocksOf(job, f);
  }

  lemma SmallMod(x: nat, n: nat)
    requires x < n
    ensures x % n == x
  {
  }

  lemma FilePrepares(job: Job, f: nat)
    requires job.blockBytes > 0 && f < |job.files| && FileResult(job, f).Ok?
    ensures Prepares(job, f)
  {
    hide FileResult, NoOverflow, BlocksOf, SourceBytes, Payload, Assembled, ReadFrom, CodedFrom, FromGpu, FromCpu,
         TaskBytes;
    var p := FileResult(job, f).value;
    var bs := FileBlocks(job, f);
    AssembledSums(job.files[f].entry, p.blocks);
    SourcesOfFile(job, f, p.blocks, bs);
    CoveredExactly(job, f);
    SmallMod(SourceBytes(p.blocks), U64_LIMIT);
  }

  /** The counters after the first `k` files. */
  ghost function Tally(job: Job, k: nat, fs: seq<PreparedFile>): Stats
    requires job.blockBytes > 0 && k <= |job.files| && k <= |fs|
  {
    if k == 0 then Stats(0, 0, 0, 0, 0)
    else
      var s, blocks := Tally(job, k - 1, fs), fs[k - 1].blocks;
      Stats(k, s.inputBytes + SourceBytes(blocks), s.outputBytes + |Payload(blocks)| % U64_LIMIT,
            s.cpuBlocks + (if UsesGpu(job, k - 1) then 0 else Count(job, k - 1)),
            s.gpuBlocks + (if UsesGpu(job, k - 1) then Count(job, k - 1) else 0))
  }

  ghost function TotalBlocks(job: Job, k: nat): nat
    requires job.blockBytes > 0 && k <= |job.files|
  {
    if k == 0 then 0 else TotalBlocks(job, k - 1) + Count(job, k - 1)
  }

  function PayloadBytes(fs: seq<PreparedFile>): nat {
    if fs == [] then 0 else PayloadBytes(fs[..|fs| - 1]) + |Payload(fs[|fs| - 1].blocks)|
  }

  lemma {:induction false} TallyPrefix(job: Job, k: nat, a: seq<PreparedFile>, b: seq<PreparedFile>)
    requires job.blockBytes > 0 && k <= |job.files| && k <= |a| <= |b| && a == b[..|a|]
    ensures Tally(job, k, a) == Tally(job, k, b)
    decreases k
  {
    hide Count, Payload, SourceBytes;
    if k > 0 {
      TallyPrefix(job, k - 1, a, b);
    }
  }

  lemma {:induction false} StatsFollow(job: Job, k: nat, writer: seq<PreparedFile>, stats: Stats)
    requires job.blockBytes > 0 && k <= |job.files| && |writer| == k
    requires forall f :: 0 <= f < |job.files| && FileResult(job, f).Ok? ==> Prepares(job, f)
    requires stats == Tally(job, k, writer)
    ensures var (r, w) := SequentialFrom(job, k, writer, stats);
            r.Ok? ==> |w| == |job.files| && r.value == Tally(job, |w|, w)
    decreases |job.files| - k
  {
    hide FileResult, Count, Payload, SourceBytes, NoOverflow;
    if k < |job.files| && FileResult(job, k).Ok? {
      var p := FileResult(job, k).value;
      assert Prepares(job, k);
      TallyPrefix(job, k, writer, writer + [p]);
      StatsFollow(job, k + 1, writer + [p], AddFile(job, stats, p));
    }
  }

  lemma {:induction false} TallyCounts(job: Job, k: nat, fs: seq<PreparedFile>)
    requires job.blockBytes > 0 && k <= |job.files| && k <= |fs|
    ensures var s := Tally(job, k, fs); s.files == k && s.cpuBlocks + s.gpuBlocks == TotalBlocks(job, k)
    decreases k
  {
    hide Count, Payload, SourceBytes;
    if k > 0 {
      TallyCounts(job, k - 1, fs);
    }
  }

  lemma {:induction false} TallyInputs(job: Job, k: nat, fs: seq<PreparedFile>)
    requires job.blockBytes > 0 && k <= |job.files| && k <= |fs|
    requires forall f :: 0 <= f < k ==> SourceBytes(fs[f].blocks) == TaskBytes(BlocksOf(job, f))
    ensures var read, scanned := Tally(job, k, fs).inputBytes, SizesOf(job.files[..k]);
            && read <= scanned
            && (read == scanned
                <==> forall f :: 0 <= f < k ==> NoOverflow(job.files[f].entry.sizeBytes, job.blockBytes))
    decreases k
  {
    hide Count, Payload, SourceBytes, NoOverflow, BlocksOf, TaskBytes;
    if k > 0 {
      TallyInputs(job, k - 1, fs);
      CoveredExactly(job, k - 1);
      assert job.files[..k][..k - 1] == job.files[..k - 1];
    }
  }

  lemma {:induction false} TallyOutputs(job: Job, k: nat, fs: seq<PreparedFile>)
    requires job.blockBytes > 0 && k <= |job.files| && k <= |fs|
    requires forall f :: 0 <= f < k ==> |Payload(fs[f].blocks)| < U64_LIMIT
    ensures Tally(job, k, fs).outputBytes == PayloadBytes(fs[..k])
    decreases k
  {
    hide Count, Payload, SourceBytes;
    if k > 0 {
      TallyOutputs(job, k - 1, fs);
      SmallMod(|Payload(fs[k - 1].blocks)|, U64_LIMIT);
      assert fs[..k][..k - 1] == fs[..k - 1];
    }
  }

  /** Conservation, in every successful run of any job: each file is counted, the input bytes are the
      lengths of the blocks read, the output bytes the payload lengths, and each block is counted once, on
      the side its file was routed to. The input bytes reach the scanned total that progress events show
      exactly when no block count overflows. */
  lemma CountersConserved(job: Job, schedule: seq<Action>)
    requires ValidJob(job) && Run(job, schedule)
    requires Final(job, schedule).main.Done? && Final(job, schedule).main.result.Ok?
    ensures var t, n := Final(job, schedule), |job.files|;
            var s := t.main.result.value;
            && |t.writer| == n && s == Tally(job, n, t.writer)
            && (forall f :: 0 <= f < n
                            ==> FileResult(job, f) == Ok(t.writer[f]) && |t.writer[f].blocks| == Count(job, f))
            && s.files == n && s.cpuBlocks + s.gpuBlocks == TotalBlocks(job, n)
            && s.inputBytes <= SizesOf(job.files)
            && (s.inputBytes == SizesOf(job.files)
                <==> forall f :: 0 <= f < n ==> NoOverflow(job.files[f].entry.sizeBytes, job.blockBytes))
            && ((forall p :: p in t.writer ==> |Payload(p.blocks)| < U64_LIMIT)
                ==> s.outputBytes == PayloadBytes(t.writer))
  {
    hide Inv, Run, Final, FileResult, NoOverflow, Payload, BlocksOf, TaskBytes, SourceBytes, Tally, SizesOf,
         PayloadBytes;
    var n, w := |job.files|, Final(job, schedule).writer;
    CancellationSafety(job, schedule);
    forall f | 0 <= f < n && FileResult(job, f).Ok? ensures Prepares(job, f) {
      FilePrepares(job, f);
    }
    NothingTallied(job);
    StatsFollow(job, 0, [], Stats(0, 0, 0, 0, 0));
    forall f | 0 <= f < n
      ensures SourceBytes(w[f].blocks) == TaskBytes(BlocksOf(job, f)) && |w[f].blocks| == Count(job, f)
    {
      assert Prepares(job, f) && FileResult(job, f) == Ok(w[f]);
    }
    TallyCounts(job, n, w);
    TallyInputs(job, n, w);
    assert job.files[..n] == job.files && w[..n] == w;
    if forall p :: p in w ==> |Payload(p.blocks)| < U64_LIMIT {
      forall f | 0 <= f < n ensures |Payload(w[f].blocks)| < U64_LIMIT {
        assert w[f] in w;
      }
      TallyOutputs(job, n, w);
    }
  }

  lemma NothingTallied(job: Job)
    requires job.blockBytes > 0
    ensures Tally(job, 0, []) == Stats(0, 0, 0, 0, 0)
  {
  }

  lemma {:induction false} PayloadsInLocals(fs: seq<PreparedFile>)
    ensures PayloadBytes(fs) <= |ZipFormat.Locals(fs)|
    decreases |fs|
  {
    hide ZipFormat.LocalHeader, Payload;
    if fs != [] {
      PayloadsInLocals(fs[..|fs| - 1]);
    }
  }

  lemma PayloadsInArchive(fs: seq<PreparedFile>)
    ensures PayloadBytes(fs) <= |ZipFormat.Archive(fs)|
    ensures forall p :: p in fs ==> |Payload(p.blocks)| <= |ZipFormat.Archive(fs)|
  {
    hide ZipFormat.Archive, ZipFormat.Locals, Payload, PayloadBytes;
    PayloadsInLocals(fs);
    ZipRoundTrip.EntriesInRange(fs);
    forall p | p in fs ensures |Payload(p.blocks)| <= |ZipFormat.Archive(fs)| {
      var k :| 0 <= k < |fs| && fs[k] == p;
      PayloadInLocals(fs, k);
    }
  }

  /** A job that writes a ZIP archive never meets a payload of 2^64 bytes, so its output bytes are exact. */
  lemma ZipOutputCounted(job: Job, schedule: seq<Action>, capacity: nat)
    requires ValidJob(job) && Run(job, schedule) && ToZip(job, capacity) && capacity < U64_LIMIT
    requires Final(job, schedule).main.Done? && Final(job, schedule).main.result.Ok?
    ensures var t := Final(job, schedule); t.main.result.value.outputBytes == PayloadBytes(t.writer) <= capacity
  {
    hide Inv, Run, Final, FileResult, Payload, PayloadBytes, ZipFormat.Archive, ToZip, Tally, TotalBlocks, NoOverflow,
         SizesOf;
    ZipJobFits(job, schedule, capacity);
    PayloadsInArchive(Final(job, schedule).writer);
    CountersConserved(job, schedule);
  }
}
