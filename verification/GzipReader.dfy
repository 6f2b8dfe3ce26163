/** A gzip reader written from RFC 1952, and what it makes of the writer's output. */
module GzipReader {
  import opened Bytes
  import opened Common
  import opened Crc32Model
  import opened AsyncReader
  import opened Deflate
  import opened Assembler
  import opened Pipeline
  import PipelineSafety
  import PipelineRuns
  import opened EndToEnd
  import opened GzipWriter

  // ---- Sections 2.3 and 2.3.1 ---------------------------------------------------------------

  predicate Flag(flags: byte, bit: nat) {
    flags / Pow2(bit) % 2 == 1
  }

  /** Position after the zero byte that ends a name or comment. */
  function AfterZero(s: seq<byte>, pos: nat): Option<nat>
    decreases |s| - pos
  {
    if pos >= |s| then None else if s[pos] == 0 then Some(pos + 1) else AfterZero(s, pos + 1)
  }

  function AfterExtra(s: seq<byte>, flags: byte, pos: nat): Option<nat> {
    if !Flag(flags, 2) then Some(pos)
    else if pos + 2 > |s| then None
    else Some(pos + 2 + FromLE(s[pos..pos + 2]))
  }

  function AfterText(s: seq<byte>, flags: byte, bit: nat, pos: nat): Option<nat> {
    if Flag(flags, bit) then AfterZero(s, pos) else Some(pos)
  }

  /** The header checksum is the low half of the CRC-32 of everything before it. */
  function AfterHeaderCrc(s: seq<byte>, flags: byte, pos: nat): Option<nat> {
    if !Flag(flags, 1) then Some(pos)
    else if pos + 2 > |s| || FromLE(s[pos..pos + 2]) != Compute(s[..pos]) % U16_LIMIT then None
    else Some(pos + 2)
  }

  /** Modification time, extra flags, operating system, and where the compressed data starts. */
  datatype HeaderInfo = HeaderInfo(mtime: u32, extraFlags: byte, system: byte, start: nat)

  /** Section 2.3.1: the operating system is not known. */
  const UNKNOWN_SYSTEM: byte := 255

  function ReadHeader(s: seq<byte>): Option<HeaderInfo> {
    if |s| < 10 || s[0] != 0x1f || s[1] != 0x8b || s[2] != 8 || s[3] >= 32 then None
    else
      FromLEBound(s[4..8]);
      Pow256Values();
      var mtime: u32 := FromLE(s[4..8]);
      match AfterExtra(s, s[3], 10)
      case None => None
      case Some(a) =>
        match AfterText(s, s[3], 3, a)
        case None => None
        case Some(b) =>
          match AfterText(s, s[3], 4, b)
          case None => None
          case Some(c) =>
            match AfterHeaderCrc(s, s[3], c)
            case None => None
            case Some(d) => if d <= |s| then Some(HeaderInfo(mtime, s[8], s[9], d)) else None
  }

  datatype Decoded = Decoded(mtime: u32, data: seq<byte>, end: nat)

  /** One member: header, one deflate stream, and a trailer that must agree with the data. */
  function ReadMember(inflate: Inflater, s: seq<byte>): Option<Decoded> {
    match ReadHeader(s)
    case None => None
    case Some(header) =>
      var pos := header.start;
      match inflate(s[pos..])
      case None => None
      case Some((data, n)) =>
        var t := pos + n;
        if t + 8 > |s| || FromLE(s[t..t + 4]) != Compute(data) || FromLE(s[t + 4..t + 8]) != |data| % U32_LIMIT
        then None
        else Some(Decoded(header.mtime, data, t + 8))
  }

  // ---- Round trip ------------------------------------------------------------------------------

  /** What a reader sees of a modification time: itself in the range of the field, and 0 before 1970. */
  predicate TimeKept(unixTime: int, mtime: u32) {
    (0 <= unixTime < U32_LIMIT ==> mtime == unixTime) && (unixTime < 0 ==> mtime == 0)
  }

  lemma MtimeKept(unixTime: int)
    ensures TimeKept(unixTime, Mtime(unixTime))
  {
  }

  lemma HeaderBack(unixTime: int, rest: seq<byte>)
    ensures ReadHeader(Header(unixTime) + rest) == Some(HeaderInfo(Mtime(unixTime), 0, UNKNOWN_SYSTEM, 10))
  {
    hide LE, FromLE;
    var s := Header(unixTime) + rest;
    Pow256Values();
    LERoundTrip(4, Mtime(unixTime));
    assert s[4..8] == LE(4, Mtime(unixTime));
    assert s[3] == 0;
  }

  /** Framing: for any number of blocks, header, payload and trailer are found again. */
  lemma FramesBack(p: PreparedFile)
    ensures var s := Member(p);
            && |s| >= 18 && ReadHeader(s) == Some(HeaderInfo(Mtime(p.entry.unixTime), 0, UNKNOWN_SYSTEM, 10))
            && TimeKept(p.entry.unixTime, Mtime(p.entry.unixTime))
            && s[10..|s| - 8] == Payload(p.blocks)
            && FromLE(s[|s| - 8..|s| - 4]) == p.fileCrc32
            && FromLE(s[|s| - 4..]) == p.uncompressed % U32_LIMIT
  {
    hide LE, FromLE, ReadHeader, Header, Payload;
    MtimeKept(p.entry.unixTime);
    var s, payload := Member(p), Payload(p.blocks);
    var head, crc, size := Header(p.entry.unixTime), LE(4, p.fileCrc32), LE(4, p.uncompressed % U32_LIMIT);
    assert s == head + (payload + crc + size);
    HeaderBack(p.entry.unixTime, payload + crc + size);
    Pow256Values();
    LERoundTrip(4, p.fileCrc32);
    LERoundTrip(4, p.uncompressed % U32_LIMIT);
    assert s[|s| - 8..|s| - 4] == crc && s[|s| - 4..] == size;
  }

  /** A standard reader gets the file back, as a single member that ends with the output, exactly
      when the file fits one block: every block is a deflate stream of its own. */
  lemma SingleMemberExactly(job: Job, f: nat, cpu: Compressor, gpu: Compressor, inflate: Inflater)
    requires job.blockBytes > 0 && f < |job.files| && CodecsWrite(job, cpu, gpu) && FileResult(job, f).Ok?
    requires NoOverflow(job.files[f].entry.sizeBytes, job.blockBytes)
    requires SelfDelimiting(cpu, inflate) && SelfDelimiting(gpu, inflate)
    requires |Payload(FileResult(job, f).value.blocks)| < U64_LIMIT
    ensures var p, file := FileResult(job, f).value, job.files[f];
            var s := Member(p);
            && Readable(file)
            && (ReadMember(inflate, s) == Some(Decoded(Mtime(file.entry.unixTime), Scanned(file), |s|))
                <==> file.entry.sizeBytes <= job.blockBytes)
            && InflateAll(inflate, s[10..|s| - 8]) == Some(Scanned(file))
  {
    hide FileResult, Count, SelfDelimiting, Compute, InflateAll, CodecsWrite, Payload, ReadHeader, FromLE, LE,
         NoOverflow;
    var p, file := FileResult(job, f).value, job.files[f];
    var s := Member(p);
    FileRoundTrip(job, f, cpu, gpu, inflate);
    FramesBack(p);
    var n := FirstStream(job, f, cpu, gpu, inflate, Trailer(p.fileCrc32, p.uncompressed));
    assert s[10..] == Payload(p.blocks) + Trailer(p.fileCrc32, p.uncompressed);
    if file.entry.sizeBytes <= job.blockBytes {
      assert s[10 + n..10 + n + 4] == s[|s| - 8..|s| - 4] && s[10 + n + 4..10 + n + 8] == s[|s| - 4..];
    }
  }

  /** The first stream of a payload, followed by anything: it is all of the payload only when there
      is one block. */
  lemma FirstStream(job: Job, f: nat, cpu: Compressor, gpu: Compressor, inflate: Inflater, rest: seq<byte>)
    returns (n: nat)
    requires job.blockBytes > 0 && f < |job.files| && CodecsWrite(job, cpu, gpu) && FileResult(job, f).Ok?
    requires NoOverflow(job.files[f].entry.sizeBytes, job.blockBytes)
    requires SelfDelimiting(cpu, inflate) && SelfDelimiting(gpu, inflate)
    ensures var p, file := FileResult(job, f).value, job.files[f];
            && Readable(file) && inflate(Payload(p.blocks) + rest).Some?
               && inflate(Payload(p.blocks) + rest).value.1 == n
            && n <= |Payload(p.blocks)|
            && (n == |Payload(p.blocks)| <==> file.entry.sizeBytes <= job.blockBytes)
            && (file.entry.sizeBytes <= job.blockBytes ==> inflate(Payload(p.blocks) + rest).value.0 == Scanned(file))
  {
    hide FileResult, Count, Coded, CodecsWrite, Assembled, InflateAll;
    var p, file := FileResult(job, f).value, job.files[f];
    var bs := FileMeaning(job, f, cpu, gpu);
    var deflate := CodecFor(job, f, cpu, gpu);
    StreamsAreCompressed(deflate, p.blocks, bs);
    BlocksAreContent(job, f, bs);
    PayloadIsConcat(p.blocks);
    FirstBlock(job, f, bs);
    OneBlockExactly(job, f);
    hide SelfDelimiting, NoOverflow;
    FirstOfStreams(deflate, inflate, Sources(bs), rest);
    n := |deflate(bs[0].data)|;
  }

  lemma FirstOfStreams(deflate: Compressor, inflate: Inflater, parts: seq<seq<byte>>, rest: seq<byte>)
    requires SelfDelimiting(deflate, inflate) && parts != []
    ensures var payload, n := Concat(Compressed(deflate, parts)), |deflate(parts[0])|;
            && inflate(payload + rest) == Some((parts[0], n))
            && n <= |payload| && (n == |payload| <==> |parts| == 1)
  {
    hide Concat;
    var streams := Compressed(deflate, parts);
    var later := Concat(streams[1..]);
    ConcatCons(streams);
    assert Concat(streams) + rest == streams[0] + (later + rest);
    assert inflate(deflate(parts[0]) + (later + rest)) == Some((parts[0], |streams[0]|));
    if |parts| == 1 {
      NoStreams(streams[1..]);
    } else {
      ConcatCons(streams[1..]);
      assert |deflate(parts[1])| > 0 by {
        assert inflate(deflate(parts[1]) + []) == Some((parts[1], |deflate(parts[1])|));
      }
    }
  }

  lemma NoStreams(streams: seq<seq<byte>>)
    requires streams == []
    ensures Concat(streams) == []
  {
  }

  /** A file has one block exactly when it is no longer than a block. */
  lemma OneBlockExactly(job: Job, f: nat)
    requires job.blockBytes > 0 && f < |job.files| && NoOverflow(job.files[f].entry.sizeBytes, job.blockBytes)
    ensures Count(job, f) == 1 <==> job.files[f].entry.sizeBytes <= job.blockBytes
  {
    var total, b := job.files[f].entry.sizeBytes, job.blockBytes;
    if total > 0 {
      ExactCount(total, b);
      RoundUp(total, b);
      var q := Count(job, f);
      if q > 1 {
        MulAtLeast(q - 1, b);
      }
    }
  }

  // ---- Whole jobs ---------------------------------------------------------------------------------

  /** The job writes gzip to a device that accepts `capacity` bytes. */
  ghost predicate ToGzip(job: Job, capacity: nat) {
    && (forall w, p :: job.writeError(w, p)
                       == match WriteSpec(AfterCalls(capacity, w), capacity, p).1
                          case Pass => None
                          case Fail(e) => Some(e))
    && (forall w :: job.finishError(w) == if AfterCalls(capacity, w).failed then Some(FLUSH_FAILED.error) else None)
  }

  /** Under every schedule that nobody cancels, a gzip job with several readable inputs writes its
      first input and then fails with the format error. */
  lemma SecondInputRefused(job: Job, schedule: seq<Action>, capacity: nat)
    requires ValidJob(job) && PipelineRuns.Run(job, schedule) && RequestStop !in schedule
    requires PipelineRuns.Final(job, schedule).main.Done?
    requires ToGzip(job, capacity) && |job.files| >= 2 && FileResult(job, 0).Ok? && FileResult(job, 1).Ok?
    requires |Member(FileResult(job, 0).value)| <= capacity
    ensures var t := PipelineRuns.Final(job, schedule);
            && t.main.result == Err(ONE_FILE.error) && ONE_FILE.error.code == FormatError
            && t.writer == [FileResult(job, 0).value]
  {
    hide PipelineRuns.Run, PipelineRuns.Final, FileResult, AfterCalls, WriteSpec, AddFile, Member, PipelineSafety.Inv;
    PipelineRuns.ScheduleIndependence(job, schedule);
    var p0, p1 := FileResult(job, 0).value, FileResult(job, 1).value;
    FirstAccepted(capacity, p0, p1);
    assert job.writeError([], p0) == None;
    assert job.writeError([p0], p1) == Some(ONE_FILE.error);
    var stats := Stats(0, 0, 0, 0, 0);
    assert SequentialFrom(job, 0, [], stats) == SequentialFrom(job, 1, [p0], AddFile(job, stats, p0)) by {
      assert [] + [p0] == [p0];
    }
  }

  lemma FirstAccepted(capacity: nat, p0: PreparedFile, p1: PreparedFile)
    requires |Member(p0)| <= capacity
    ensures WriteSpec(AfterCalls(capacity, []), capacity, p0).1 == Pass
    ensures WriteSpec(AfterCalls(capacity, [p0]), capacity, p1).1 == ONE_FILE
  {
    hide Member;
    AtMostOneMember(capacity, [p0, p1]);
    assert [p0, p1][..1] == [p0];
  }

  lemma OneMemberOutcome(job: Job, capacity: nat, p: PreparedFile)
    requires ToGzip(job, capacity)
    ensures job.writeError([], p).None? <==> |Member(p)| <= capacity
    ensures |Member(p)| <= capacity ==> job.finishError([p]).None? && AfterCalls(capacity, [p]).sink == Member(p)
  {
    hide Member;
    AtMostOneMember(capacity, [p]);
    assert AfterCalls(capacity, []) == Stream([], false, false);
  }

  lemma OneInputSequential(job: Job, capacity: nat)
    requires job.blockBytes > 0 && ToGzip(job, capacity) && |job.files| == 1
    ensures var (r, w) := Sequential(job);
            && (r.Ok? <==> FileResult(job, 0).Ok? && |Member(FileResult(job, 0).value)| <= capacity)
            && (r.Ok? ==> w == [FileResult(job, 0).value]
                          && AfterCalls(capacity, w).sink == Member(FileResult(job, 0).value))
  {
    hide FileResult, ToGzip, AddFile, Member, AfterCalls;
    if FileResult(job, 0).Ok? {
      var p := FileResult(job, 0).value;
      OneMemberOutcome(job, capacity, p);
      var stats := Stats(0, 0, 0, 0, 0);
      assert SequentialFrom(job, 1, [p], AddFile(job, stats, p))
             == match job.finishError([p]) case Some(e) => (Err(e), [p]) case None => (Ok(AddFile(job, stats, p)), [p]);
      assert [] + [p] == [p];
    }
  }

  /** Under every schedule, an uncancelled gzip job with one input succeeds exactly when the input can be
      prepared and its member fits the device. */
  lemma OneInputSucceedsExactly(job: Job, schedule: seq<Action>, capacity: nat)
    requires ValidJob(job) && PipelineRuns.Run(job, schedule) && RequestStop !in schedule
    requires PipelineRuns.Final(job, schedule).main.Done? && ToGzip(job, capacity) && |job.files| == 1
    ensures PipelineRuns.Final(job, schedule).main.result.Ok?
            <==> FileResult(job, 0).Ok? && |Member(FileResult(job, 0).value)| <= capacity
  {
    hide PipelineRuns.Run, PipelineRuns.Final, PipelineSafety.Inv, FileResult, Member, Sequential, ToGzip;
    PipelineRuns.ScheduleIndependence(job, schedule);
    OneInputSequential(job, capacity);
  }

  /** Whenever such a job succeeds, cancelled or not, its output is exactly the member of its input, and a
      standard reader returns the input exactly when it fits one block. */
  lemma GzipJobRoundTrip(job: Job, schedule: seq<Action>, cpu: Compressor, gpu: Compressor, inflate: Inflater,
                         capacity: nat)
    requires ValidJob(job) && PipelineRuns.Run(job, schedule) && CodecsWrite(job, cpu, gpu)
    requires SelfDelimiting(cpu, inflate) && SelfDelimiting(gpu, inflate)
    requires ToGzip(job, capacity) && capacity < U64_LIMIT
    requires |job.files| == 1 && NoOverflow(job.files[0].entry.sizeBytes, job.blockBytes)
    requires PipelineRuns.Final(job, schedule).main.Done? && PipelineRuns.Final(job, schedule).main.result.Ok?
    ensures var file, out := job.files[0], AfterCalls(capacity, PipelineRuns.Final(job, schedule).writer).sink;
            && FileResult(job, 0).Ok? && out == Member(FileResult(job, 0).value) && Readable(file)
            && TimeKept(file.entry.unixTime, Mtime(file.entry.unixTime))
            && (ReadMember(inflate, out) == Some(Decoded(Mtime(file.entry.unixTime), Scanned(file), |out|))
                <==> file.entry.sizeBytes <= job.blockBytes)
  {
    PipelineRuns.CancellationSafety(job, schedule);
    OneInputSequential(job, capacity);
    MemberHoldsPayload(FileResult(job, 0).value);
    MtimeKept(job.files[0].entry.unixTime);
    hide PipelineRuns.Run, PipelineRuns.Final, PipelineSafety.Inv, FileResult, Member, Sequential, ToGzip, AfterCalls,
         SelfDelimiting, CodecsWrite, NoOverflow, ReadMember, Payload, InflateAll;
    SingleMemberExactly(job, 0, cpu, gpu, inflate);
  }

  lemma MemberHoldsPayload(p: PreparedFile)
    ensures |Payload(p.blocks)| <= |Member(p)|
  {
    hide Payload;
  }
}
