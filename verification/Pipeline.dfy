/**
 A compression job as a concurrent protocol. The main thread queues block reads on the I/O
 pool and one task per file on the CPU pool, then drains the file futures in input order
 into the writer. Each atomic action of a thread is one step; a schedule is any sequence
 of enabled steps.
 */
module Pipeline {
  import opened Bytes
  import opened Common
  import opened AsyncReader
  import opened Assembler
  import opened SizeRouter

  datatype InputFile = InputFile(entry: FileEntry, content: Option<seq<byte>>)

  /** Counters reported at the end of a job; `inputBytes` and `outputBytes` are also the
      processed and output bytes of the last progress event. */
  datatype Stats = Stats(files: nat, inputBytes: nat, outputBytes: nat, cpuBlocks: nat, gpuBlocks: nat)

  /** The inputs of a job. Codecs are functions of the data; the writer fails as a function
      of the entries it accepted before. */
  datatype Job = Job(
    files: seq<InputFile>,
    blockBytes: u64,
    router: SizeRouter,
    allocate: nat -> Option<Error>,    // the error of a read buffer of that size, if it cannot be had
    cpuCompress: seq<byte> -> Result<seq<byte>>,
    gpuCompress: seq<seq<byte>> -> Result<seq<seq<byte>>>,
    writeError: (seq<PreparedFile>, PreparedFile) -> Option<Error>,
    finishError: seq<PreparedFile> -> Option<Error>,
    ioWorkers: nat,
    cpuWorkers: nat)

  ghost predicate ValidJob(job: Job) {
    && job.blockBytes > 0 && job.ioWorkers > 0 && job.cpuWorkers > 0
    && forall xs :: job.gpuCompress(xs).Ok? ==> |job.gpuCompress(xs).value| == |xs|
  }

  const NO_INPUTS := Error(InvalidArgument, "no input files")
  const CANCELLED := Error(Cancelled, "cancelled")
  const BAD_BATCH := Error(Internal, "compress_batch size mismatch")

  predicate IsCancelled<T>(r: Result<T>) {
    r.Err? && r.error.code == Cancelled
  }

  function BlocksOf(job: Job, f: nat): seq<ReadTask>
    requires job.blockBytes > 0 && f < |job.files|
  {
    Tasks(job.files[f].entry.sizeBytes, job.blockBytes)
  }

  function Count(job: Job, f: nat): nat
    requires job.blockBytes > 0 && f < |job.files|
  {
    |BlocksOf(job, f)|
  }

  /** `PinnedBuffer::allocate`: an empty buffer always succeeds. */
  function Buffer(job: Job, bytes: nat): Option<Error> {
    if bytes == 0 then None else job.allocate(bytes)
  }

  function BlockOf(job: Job, f: nat, b: nat): Result<FileBlock>
    requires job.blockBytes > 0 && f < |job.files| && b < Count(job, f)
  {
    var t := BlocksOf(job, f)[b];
    match Buffer(job, t.bytes)
    case Some(e) => Err(e)
    case None => ReadBlock(job.files[f].content, t)
  }

  predicate UsesGpu(job: Job, f: nat)
    requires f < |job.files|
  {
    job.router.Route(job.files[f].entry.sizeBytes) == Gpu
  }

  /** The batch outputs paired back with the blocks they came from. */
  function Gathered(drained: seq<FileBlock>, streams: seq<seq<byte>>): (cs: seq<CompressedBlock>)
    requires |drained| == |streams|
    ensures |cs| == |drained|
  {
    seq(|drained|, i requires 0 <= i < |drained| => CompressBlock(drained[i], streams[i]))
  }

  function GpuResult(job: Job, f: nat, drained: seq<FileBlock>): Result<PreparedFile>
    requires f < |job.files|
  {
    match job.gpuCompress(Sources(drained))
    case Err(e) => Err(e)
    case Ok(streams) =>
      if |streams| != |drained| then Err(BAD_BATCH)
      else Ok(Assembled(job.files[f].entry, Gathered(drained, streams)))
  }

  function AddFile(job: Job, stats: Stats, p: PreparedFile): Stats {
    var gpu := job.router.Route(p.entry.sizeBytes) == Gpu;
    Stats(stats.files + 1, stats.inputBytes + p.uncompressed, stats.outputBytes + p.compressed,
          stats.cpuBlocks + (if gpu then 0 else |p.blocks|), stats.gpuBlocks + (if gpu then |p.blocks| else 0))
  }

  // ---- The sequential program -----------------------------------------------------------

  function CpuFrom(job: Job, f: nat, out: seq<CompressedBlock>): Result<PreparedFile>
    requires job.blockBytes > 0 && f < |job.files| && |out| <= Count(job, f)
    decreases Count(job, f) - |out|
  {
    if |out| == Count(job, f) then Ok(Assembled(job.files[f].entry, out))
    else
      match BlockOf(job, f, |out|)
      case Err(e) => Err(e)
      case Ok(b) =>
        match job.cpuCompress(b.data)
        case Err(e) => Err(e)
        case Ok(stream) => CpuFrom(job, f, out + [CompressBlock(b, stream)])
  }

  function GpuFrom(job: Job, f: nat, drained: seq<FileBlock>): Result<PreparedFile>
    requires job.blockBytes > 0 && f < |job.files| && |drained| <= Count(job, f)
    decreases Count(job, f) - |drained|
  {
    if |drained| == Count(job, f) then GpuResult(job, f, drained)
    else
      match BlockOf(job, f, |drained|)
      case Err(e) => Err(e)
      case Ok(b) => GpuFrom(job, f, drained + [b])
  }

  /** Read, compress and assemble one file. */
  function FileResult(job: Job, f: nat): Result<PreparedFile>
    requires job.blockBytes > 0 && f < |job.files|
  {
    if UsesGpu(job, f) then GpuFrom(job, f, []) else CpuFrom(job, f, [])
  }

  /** Write the files from `k` on, one after the other. */
  function SequentialFrom(job: Job, k: nat, writer: seq<PreparedFile>, stats: Stats): (Result<Stats>, seq<PreparedFile>)
    requires job.blockBytes > 0 && k <= |job.files|
    decreases |job.files| - k
  {
    if k == |job.files| then
      match job.finishError(writer)
      case Some(e) => (Err(e), writer)
      case None => (Ok(stats), writer)
    else
      match FileResult(job, k)
      case Err(e) => (Err(e), writer)
      case Ok(p) =>
        match job.writeError(writer, p)
        case Some(e) => (Err(e), writer)
        case None => SequentialFrom(job, k + 1, writer + [p], AddFile(job, stats, p))
  }

  function Sequential(job: Job): (Result<Stats>, seq<PreparedFile>)
    requires job.blockBytes > 0
  {
    if job.files == [] then (Err(NO_INPUTS), []) else SequentialFrom(job, 0, [], Stats(0, 0, 0, 0, 0))
  }

  // ---- States ------------------------------------------------------------------------------

  datatype MainPc =
    | CheckSubmit | SubmitBlock(next: nat) | SubmitTask
    | CheckDrain | AwaitFile | Finishing | Done(result: Result<Stats>)

  datatype IoWorker = IoIdle | IoTaken(file: nat, block: nat) | IoReading(file: nat, block: nat)

  datatype CpuWorker =
    | CpuIdle
    | CpuCheck(file: nat, out: seq<CompressedBlock>) | CpuAwait(file: nat, out: seq<CompressedBlock>)
    | GpuCheck(file: nat, drained: seq<FileBlock>) | GpuAwait(file: nat, drained: seq<FileBlock>)
    | GpuLock(file: nat, drained: seq<FileBlock>) | GpuBatch(file: nat, drained: seq<FileBlock>)

  datatype State = State(
    main: MainPc,
    submitted: nat,                            // files whose task is queued
    drained: nat,                              // files handed to the writer
    stop: bool,
    ioQueue: seq<(nat, nat)>,                  // (file, block)
    io: seq<IoWorker>,
    blockReady: map<(nat, nat), Result<FileBlock>>,
    cpuQueue: seq<nat>,
    cpu: seq<CpuWorker>,
    fileReady: map<nat, Result<PreparedFile>>,
    gpuOwner: Option<nat>,                     // the worker inside the GPU mutex
    writer: seq<PreparedFile>,                 // entries accepted so far
    stats: Stats)

  datatype Action = Main | Io(w: nat) | Cpu(w: nat) | RequestStop

  function Init(job: Job): State {
    State(if job.files == [] then Done(Err(NO_INPUTS)) else CheckSubmit, 0, 0, false,
          [], seq(job.ioWorkers, _ => IoIdle), map[], [], seq(job.cpuWorkers, _ => CpuIdle), map[],
          None, [], Stats(0, 0, 0, 0, 0))
  }

  // ---- Steps -------------------------------------------------------------------------------

  predicate MainEnabled(s: State) {
    match s.main
    case AwaitFile => s.drained in s.fileReady
    case Done(_) => false
    case _ => true
  }

  predicate IoEnabled(s: State, w: nat) {
    w < |s.io| && (s.io[w].IoIdle? ==> s.ioQueue != [])
  }

  predicate CpuEnabled(s: State, w: nat) {
    && w < |s.cpu|
    && match s.cpu[w]
       case CpuIdle => s.cpuQueue != []
       case CpuAwait(f, out) => (f, |out|) in s.blockReady
       case GpuAwait(f, drained) => (f, |drained|) in s.blockReady
       case GpuLock(_, _) => s.gpuOwner.None?
       case _ => true
  }

  predicate Enabled(s: State, a: Action) {
    match a
    case Main => MainEnabled(s)
    case Io(w) => IoEnabled(s, w)
    case Cpu(w) => CpuEnabled(s, w)
    case RequestStop => !s.stop
  }

  /** The indices a state carries stay inside the job. */
  ghost predicate MainInRange(job: Job, main: MainPc, submitted: nat, drained: nat)
    requires job.blockBytes > 0
  {
    && submitted <= |job.files| && drained <= |job.files|
    && (main.SubmitBlock? ==> submitted < |job.files| && main.next <= Count(job, submitted))
    && (main.SubmitTask? ==> submitted < |job.files|)
    && (main.AwaitFile? ==> drained < |job.files|)
  }

  ghost predicate BlockInRange(job: Job, f: nat, b: nat)
    requires job.blockBytes > 0
  {
    f < |job.files| && b < Count(job, f)
  }

  ghost predicate IoInRange(job: Job, queue: seq<(nat, nat)>, io: seq<IoWorker>)
    requires job.blockBytes > 0
  {
    && (forall q :: q in queue ==> BlockInRange(job, q.0, q.1))
    && (forall w :: 0 <= w < |io| && !io[w].IoIdle? ==> BlockInRange(job, io[w].file, io[w].block))
  }

  ghost predicate WorkerInRange(job: Job, c: CpuWorker)
    requires job.blockBytes > 0
  {
    match c
    case CpuIdle => true
    case CpuCheck(f, out) => f < |job.files| && |out| <= Count(job, f)
    case CpuAwait(f, out) => f < |job.files| && |out| < Count(job, f)
    case GpuCheck(f, drained) => f < |job.files| && |drained| <= Count(job, f)
    case GpuAwait(f, drained) => f < |job.files| && |drained| < Count(job, f)
    case GpuLock(f, drained) => f < |job.files| && |drained| == Count(job, f)
    case GpuBatch(f, drained) => f < |job.files| && |drained| == Count(job, f)
  }

  ghost predicate CpuInRange(job: Job, queue: seq<nat>, cpu: seq<CpuWorker>)
    requires job.blockBytes > 0
  {
    && (forall f :: f in queue ==> f < |job.files|)
    && (forall w :: 0 <= w < |cpu| ==> WorkerInRange(job, cpu[w]))
  }

  ghost predicate InRange(job: Job, s: State) {
    && job.blockBytes > 0
    && MainInRange(job, s.main, s.submitted, s.drained)
    && IoInRange(job, s.ioQueue, s.io)
    && CpuInRange(job, s.cpuQueue, s.cpu)
  }

  ghost function MainStep(job: Job, s: State): State
    requires InRange(job, s) && MainEnabled(s)
  {
    match s.main
    case CheckSubmit =>
      if s.submitted == |job.files| then s.(main := CheckDrain)
      else if s.stop then s.(main := Done(Err(CANCELLED)))
      else s.(main := SubmitBlock(0))
    case SubmitBlock(j) =>
      if j == Count(job, s.submitted) then s.(main := SubmitTask)
      else s.(main := SubmitBlock(j + 1), ioQueue := s.ioQueue + [(s.submitted, j)])
    case SubmitTask =>
      s.(main := CheckSubmit, cpuQueue := s.cpuQueue + [s.submitted], submitted := s.submitted + 1)
    case CheckDrain =>
      if s.drained == |job.files| then s.(main := Finishing)
      else if s.stop then s.(main := Done(Err(CANCELLED)))
      else s.(main := AwaitFile)
    case AwaitFile => DrainStep(job, s, s.fileReady[s.drained])
    case Finishing => FinishStep(job, s)
  }

  /** The writer takes the next file, or the job ends with the file's or the writer's error. */
  ghost function DrainStep(job: Job, s: State, r: Result<PreparedFile>): (t: State)
    ensures t == s.(main := t.main, drained := t.drained, writer := t.writer, stats := t.stats)
  {
    match r
    case Err(e) => s.(main := Done(Err(e)))
    case Ok(p) =>
      match job.writeError(s.writer, p)
      case Some(e) => s.(main := Done(Err(e)))
      case None =>
        s.(main := CheckDrain, drained := s.drained + 1, writer := s.writer + [p], stats := AddFile(job, s.stats, p))
  }

  ghost function FinishStep(job: Job, s: State): (t: State)
    ensures t == s.(main := t.main)
  {
    match job.finishError(s.writer)
    case Some(e) => s.(main := Done(Err(e)))
    case None => s.(main := Done(Ok(s.stats)))
  }

  ghost function IoStep(job: Job, s: State, w: nat): State
    requires InRange(job, s) && IoEnabled(s, w)
  {
    match s.io[w]
    case IoIdle =>
      s.(io := s.io[w := IoTaken(s.ioQueue[0].0, s.ioQueue[0].1)], ioQueue := s.ioQueue[1..])
    case IoTaken(f, b) =>
      if s.stop then BlockDone(s, w, f, b, Err(CANCELLED)) else s.(io := s.io[w := IoReading(f, b)])
    case IoReading(f, b) => BlockDone(s, w, f, b, BlockOf(job, f, b))
  }

  ghost function BlockDone(s: State, w: nat, f: nat, b: nat, r: Result<FileBlock>): State
    requires w < |s.io|
  {
    s.(io := s.io[w := IoIdle], blockReady := s.blockReady[(f, b) := r])
  }

  /** What a busy worker does next: go on with its file, or deliver the file's result. */
  datatype Move = Become(worker: CpuWorker) | Deliver(result: Result<PreparedFile>)

  predicate CanMove(c: CpuWorker, blockReady: map<(nat, nat), Result<FileBlock>>) {
    && !c.CpuIdle?
    && (c.CpuAwait? ==> (c.file, |c.out|) in blockReady)
    && (c.GpuAwait? ==> (c.file, |c.drained|) in blockReady)
  }

  ghost function MoveOf(job: Job, c: CpuWorker, stop: bool, blockReady: map<(nat, nat), Result<FileBlock>>): Move
    requires job.blockBytes > 0 && WorkerInRange(job, c) && CanMove(c, blockReady)
  {
    match c
    case CpuCheck(f, out) =>
      if |out| == Count(job, f) then Deliver(Ok(Assembled(job.files[f].entry, out)))
      else if stop then Deliver(Err(CANCELLED))
      else Become(CpuAwait(f, out))
    case CpuAwait(f, out) =>
      (match blockReady[(f, |out|)]
       case Err(e) => Deliver(Err(e))
       case Ok(b) =>
         match job.cpuCompress(b.data)
         case Err(e) => Deliver(Err(e))
         case Ok(stream) => Become(CpuCheck(f, out + [CompressBlock(b, stream)])))
    case GpuCheck(f, drained) =>
      if |drained| == Count(job, f) then Become(GpuLock(f, drained))
      else if stop then Deliver(Err(CANCELLED))
      else Become(GpuAwait(f, drained))
    case GpuAwait(f, drained) =>
      (match blockReady[(f, |drained|)]
       case Err(e) => Deliver(Err(e))
       case Ok(b) => Become(GpuCheck(f, drained + [b])))
    case GpuLock(f, drained) => Become(GpuBatch(f, drained))
    case GpuBatch(f, drained) => Deliver(GpuResult(job, f, drained))
  }

  ghost function CpuStep(job: Job, s: State, w: nat): State
    requires InRange(job, s) && CpuEnabled(s, w)
  {
    var c := s.cpu[w];
    if c.CpuIdle? then
      var f := s.cpuQueue[0];
      assert f in s.cpuQueue;
      s.(cpu := s.cpu[w := if UsesGpu(job, f) then GpuCheck(f, []) else CpuCheck(f, [])], cpuQueue := s.cpuQueue[1..])
    else
      var owner := if c.GpuLock? then Some(w) else if c.GpuBatch? then None else s.gpuOwner;
      match MoveOf(job, c, s.stop, s.blockReady)
      case Become(c') => s.(cpu := s.cpu[w := c'], gpuOwner := owner)
      case Deliver(r) => s.(cpu := s.cpu[w := CpuIdle], gpuOwner := owner, fileReady := s.fileReady[c.file := r])
  }

  ghost function Apply(job: Job, s: State, a: Action): State
    requires InRange(job, s) && Enabled(s, a)
  {
    match a
    case Main => MainStep(job, s)
    case Io(w) => IoStep(job, s, w)
    case Cpu(w) => CpuStep(job, s, w)
    case RequestStop => s.(stop := true)
  }
}
