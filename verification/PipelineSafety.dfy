/** Invariants of every run, for every schedule and any moment of cancellation. */
module PipelineSafety {
  import opened Common
  import opened AsyncReader
  import opened SizeRouter
  import opened Pipeline

  // ---- What the invariant says ----------------------------------------------------------

  /** A result is the one the sequential program computes, or a cancellation after a stop. */
  ghost predicate Faithful<T(!new)>(stop: bool, actual: Result<T>, ideal: Result<T>) {
    actual == ideal || (stop && IsCancelled(actual))
  }

  ghost predicate Shape(job: Job, s: State) {
    && ValidJob(job) && InRange(job, s)
    && |s.io| == job.ioWorkers && |s.cpu| == job.cpuWorkers
    && (s.main.CheckSubmit? || s.main.SubmitBlock? || s.main.SubmitTask? ==> s.drained == 0)
    && (s.main.CheckDrain? || s.main.AwaitFile? || s.main.Finishing? ==> s.submitted == |job.files|)
    && (s.main.Finishing? ==> s.drained == |job.files|)
    && (job.files == [] ==> s.main.Done?)
  }

  /** The reads of these blocks have been queued. */
  ghost predicate Issued(job: Job, main: MainPc, submitted: nat, f: nat, b: nat)
    requires job.blockBytes > 0
  {
    && BlockInRange(job, f, b)
    && (f < submitted || (f == submitted && (main.SubmitTask? || (main.SubmitBlock? && b < main.next))))
  }

  ghost predicate IoHolds(c: IoWorker, f: nat, b: nat) {
    !c.IoIdle? && c.file == f && c.block == b
  }

  ghost predicate BlockTracked(queue: seq<(nat, nat)>, io: seq<IoWorker>, ready: map<(nat, nat), Result<FileBlock>>,
                               f: nat, b: nat) {
    (f, b) in ready || (f, b) in queue || exists w :: 0 <= w < |io| && IoHolds(io[w], f, b)
  }

  /** No queued read is ever lost. */
  ghost predicate BlocksTracked(job: Job, main: MainPc, submitted: nat, queue: seq<(nat, nat)>, io: seq<IoWorker>,
                                ready: map<(nat, nat), Result<FileBlock>>)
    requires job.blockBytes > 0
  {
    forall f: nat, b: nat :: Issued(job, main, submitted, f, b) ==> BlockTracked(queue, io, ready, f, b)
  }

  ghost predicate BlocksRight(job: Job, stop: bool, ready: map<(nat, nat), Result<FileBlock>>)
    requires job.blockBytes > 0
  {
    forall k :: k in ready ==> BlockInRange(job, k.0, k.1) && Faithful(stop, ready[k], BlockOf(job, k.0, k.1))
  }

  ghost predicate CpuHolds(c: CpuWorker, f: nat) {
    !c.CpuIdle? && c.file == f
  }

  ghost predicate FileTracked(queue: seq<nat>, cpu: seq<CpuWorker>, ready: map<nat, Result<PreparedFile>>, f: nat) {
    f in ready || f in queue || exists w :: 0 <= w < |cpu| && CpuHolds(cpu[w], f)
  }

  /** No queued task is ever lost. */
  ghost predicate FilesTracked(submitted: nat, queue: seq<nat>, cpu: seq<CpuWorker>,
                               ready: map<nat, Result<PreparedFile>>) {
    forall f: nat :: f < submitted ==> FileTracked(queue, cpu, ready, f)
  }

  /** Tasks exist only for files whose reads are all queued before them. */
  ghost predicate TasksSubmitted(submitted: nat, queue: seq<nat>, cpu: seq<CpuWorker>) {
    && (forall f :: f in queue ==> f < submitted)
    && (forall w :: 0 <= w < |cpu| && !cpu[w].CpuIdle? ==> cpu[w].file < submitted)
  }

  ghost predicate FilesRight(job: Job, stop: bool, ready: map<nat, Result<PreparedFile>>)
    requires job.blockBytes > 0
  {
    forall f :: f in ready ==> f < |job.files| && Faithful(stop, ready[f], FileResult(job, f))
  }

  /** What a worker has so far continues to the result of its file. */
  ghost predicate WorkerRight(job: Job, c: CpuWorker)
    requires job.blockBytes > 0 && WorkerInRange(job, c)
  {
    match c
    case CpuIdle => true
    case CpuCheck(f, out) => CpuFrom(job, f, out) == FileResult(job, f)
    case CpuAwait(f, out) => CpuFrom(job, f, out) == FileResult(job, f)
    case GpuCheck(f, drained) => GpuFrom(job, f, drained) == FileResult(job, f)
    case GpuAwait(f, drained) => GpuFrom(job, f, drained) == FileResult(job, f)
    case GpuLock(f, drained) => GpuFrom(job, f, drained) == FileResult(job, f)
    case GpuBatch(f, drained) => GpuFrom(job, f, drained) == FileResult(job, f)
  }

  ghost predicate WorkersRight(job: Job, cpu: seq<CpuWorker>)
    requires job.blockBytes > 0 && CpuInRange(job, [], cpu)
  {
    forall w :: 0 <= w < |cpu| ==> WorkerRight(job, cpu[w])
  }

  /** Mutual exclusion on the GPU codec: the owner is the one worker inside the batch. */
  ghost predicate MutexRight(owner: Option<nat>, cpu: seq<CpuWorker>) {
    && (owner.Some? ==> owner.value < |cpu| && cpu[owner.value].GpuBatch?)
    && (forall w :: 0 <= w < |cpu| && cpu[w].GpuBatch? ==> owner == Some(w))
  }

  /** The writer holds exactly the results of the first files. */
  ghost predicate WriterRight(job: Job, drained: nat, writer: seq<PreparedFile>)
    requires job.blockBytes > 0
  {
    && |writer| == drained <= |job.files|
    && forall k :: 0 <= k < |writer| ==> FileResult(job, k) == Ok(writer[k])
  }

  /** Continuing sequentially from here gives what the sequential program gives. */
  ghost predicate MainRight(job: Job, main: MainPc, drained: nat, stop: bool, writer: seq<PreparedFile>, stats: Stats)
    requires job.blockBytes > 0 && drained <= |job.files|
  {
    match main
    case Done(r) => (r, writer) == Sequential(job) || (stop && IsCancelled(r))
    case _ => SequentialFrom(job, drained, writer, stats) == Sequential(job)
  }

  ghost predicate Inv(job: Job, s: State) {
    && Shape(job, s) && BlocksTracked(job, s.main, s.submitted, s.ioQueue, s.io, s.blockReady)
    && BlocksRight(job, s.stop, s.blockReady)
    && FilesTracked(s.submitted, s.cpuQueue, s.cpu, s.fileReady) && TasksSubmitted(s.submitted, s.cpuQueue, s.cpu)
    && FilesRight(job, s.stop, s.fileReady) && WorkersRight(job, s.cpu)
    && MutexRight(s.gpuOwner, s.cpu) && WriterRight(job, s.drained, s.writer)
    && MainRight(job, s.main, s.drained, s.stop, s.writer, s.stats)
  }

  // ---- The invariant holds initially and is kept by every step -----------------------------------

  lemma InitInv(job: Job)
    requires ValidJob(job)
    ensures Inv(job, Init(job))
  {
  }

  // Steps of the main thread.

  lemma MainKeepsShape(job: Job, s: State)
    requires Shape(job, s) && MainEnabled(s)
    ensures Shape(job, MainStep(job, s))
  {
    hide Count, WorkerInRange, AddFile;
    if s.main.SubmitBlock? && s.main.next != Count(job, s.submitted) {
      var queue := s.ioQueue + [(s.submitted, s.main.next)];
      assert forall q :: q in queue ==> q in s.ioQueue || q == (s.submitted, s.main.next);
    }
  }

  lemma MainKeepsBlocksTracked(job: Job, s: State)
    requires InRange(job, s) && MainEnabled(s) && BlocksTracked(job, s.main, s.submitted, s.ioQueue, s.io, s.blockReady)
    ensures var t := MainStep(job, s); BlocksTracked(job, t.main, t.submitted, t.ioQueue, t.io, t.blockReady)
  {
    hide Count, MainInRange, IoInRange, CpuInRange, AddFile;
    var t := MainStep(job, s);
    forall f: nat, b: nat | Issued(job, t.main, t.submitted, f, b)
      ensures BlockTracked(t.ioQueue, t.io, t.blockReady, f, b)
    {
      if Issued(job, s.main, s.submitted, f, b) {
        assert BlockTracked(s.ioQueue, s.io, s.blockReady, f, b);
      } else {
        assert t.ioQueue[|t.ioQueue| - 1] == (f, b);
      }
    }
  }

  lemma MainFrame(job: Job, s: State)
    requires InRange(job, s) && MainEnabled(s)
    ensures var t := MainStep(job, s);
            && t.stop == s.stop && t.io == s.io && t.cpu == s.cpu && t.gpuOwner == s.gpuOwner
            && t.blockReady == s.blockReady && t.fileReady == s.fileReady
            && (if s.main.SubmitTask? then t.cpuQueue == s.cpuQueue + [s.submitted] && t.submitted == s.submitted + 1
                else t.cpuQueue == s.cpuQueue && t.submitted == s.submitted)
  {
    hide WorkerInRange, Count, MainInRange, IoInRange, CpuInRange, DrainStep, FinishStep;
    match s.main
    case CheckSubmit =>
    case SubmitBlock(_) =>
    case SubmitTask =>
    case CheckDrain =>
    case AwaitFile =>
    case Finishing =>
  }

  lemma MainKeepsFilesTracked(job: Job, s: State)
    requires InRange(job, s) && MainEnabled(s)
    requires FilesTracked(s.submitted, s.cpuQueue, s.cpu, s.fileReady) && TasksSubmitted(s.submitted, s.cpuQueue, s.cpu)
    ensures var t := MainStep(job, s);
            FilesTracked(t.submitted, t.cpuQueue, t.cpu, t.fileReady) && TasksSubmitted(t.submitted, t.cpuQueue, t.cpu)
  {
    hide Count, MainInRange, IoInRange, CpuInRange, MainStep;
    MainFrame(job, s);
    var t := MainStep(job, s);
    forall f: nat | f < t.submitted ensures FileTracked(t.cpuQueue, t.cpu, t.fileReady, f) {
      if f < s.submitted {
        assert FileTracked(s.cpuQueue, s.cpu, s.fileReady, f);
      } else {
        assert t.cpuQueue[|t.cpuQueue| - 1] == f;
      }
    }
  }

  lemma DrainKeepsResults(job: Job, s: State, r: Result<PreparedFile>)
    requires ValidJob(job) && s.drained < |job.files| && Faithful(s.stop, r, FileResult(job, s.drained))
    requires job.files != [] && s.main.AwaitFile?
    requires WriterRight(job, s.drained, s.writer) && MainRight(job, s.main, s.drained, s.stop, s.writer, s.stats)
    ensures var t := DrainStep(job, s, r);
            && t.drained <= |job.files| && WriterRight(job, t.drained, t.writer)
            && MainRight(job, t.main, t.drained, t.stop, t.writer, t.stats)
  {
    hide FileResult, AddFile, Sequential;
  }

  lemma FinishKeepsResults(job: Job, s: State)
    requires ValidJob(job) && s.drained == |job.files| && s.main.Finishing?
    requires MainRight(job, s.main, s.drained, s.stop, s.writer, s.stats)
    ensures var t := FinishStep(job, s);
            t.drained == s.drained && t.writer == s.writer
            && MainRight(job, t.main, t.drained, t.stop, t.writer, t.stats)
  {
    hide FileResult, AddFile, Sequential;
  }

  lemma MainKeepsResults(job: Job, s: State)
    requires Shape(job, s) && MainEnabled(s)
    requires FilesRight(job, s.stop, s.fileReady) && WriterRight(job, s.drained, s.writer)
    requires MainRight(job, s.main, s.drained, s.stop, s.writer, s.stats)
    ensures var t := MainStep(job, s);
            && t.drained <= |job.files| && WriterRight(job, t.drained, t.writer)
            && MainRight(job, t.main, t.drained, t.stop, t.writer, t.stats)
  {
    hide FileResult, Count, CpuInRange, IoInRange, Sequential, SequentialFrom, DrainStep, FinishStep;
    if s.main.AwaitFile? {
      DrainKeepsResults(job, s, s.fileReady[s.drained]);
    } else if s.main.Finishing? {
      FinishKeepsResults(job, s);
    }
  }

  lemma MainKeepsInv(job: Job, s: State)
    requires Inv(job, s) && MainEnabled(s)
    ensures Inv(job, MainStep(job, s))
  {
    hide BlocksTracked, FilesTracked, BlocksRight, FilesRight, WorkersRight, MutexRight, TasksSubmitted, WriterRight,
         MainRight, ValidJob, MainInRange, IoInRange, MainStep;
    MainKeepsShape(job, s);
    MainFrame(job, s);
    MainKeepsBlocksTracked(job, s);
    MainKeepsFilesTracked(job, s);
    MainKeepsResults(job, s);
  }

  // Steps of the I/O workers.

  lemma IoKeepsRange(job: Job, s: State, w: nat)
    requires InRange(job, s) && IoEnabled(s, w)
    ensures var t := IoStep(job, s, w); IoInRange(job, t.ioQueue, t.io)
  {
    hide BlockOf, BlockInRange, CpuInRange, MainInRange;
    if s.io[w].IoIdle? {
      assert s.ioQueue[0] in s.ioQueue;
    }
  }

  lemma IoKeepsTracked(job: Job, s: State, w: nat, f: nat, b: nat)
    requires InRange(job, s) && IoEnabled(s, w) && BlockTracked(s.ioQueue, s.io, s.blockReady, f, b)
    ensures var t := IoStep(job, s, w); BlockTracked(t.ioQueue, t.io, t.blockReady, f, b)
  {
    hide InRange, BlockOf;
    var t := IoStep(job, s, w);
    if (f, b) in s.blockReady {
    } else if (f, b) in s.ioQueue {
      var i :| 0 <= i < |s.ioQueue| && s.ioQueue[i] == (f, b);
      if s.io[w].IoIdle? {
        if i == 0 {
          assert IoHolds(t.io[w], f, b);
        } else {
          assert t.ioQueue[i - 1] == (f, b);
        }
      }
    } else {
      var v :| 0 <= v < |s.io| && IoHolds(s.io[v], f, b);
      if v != w {
        assert IoHolds(t.io[v], f, b);
      } else if t.io[w].IoReading? {
        assert IoHolds(t.io[w], f, b);
      }
    }
  }

  lemma IoKeepsBlocksRight(job: Job, s: State, w: nat)
    requires InRange(job, s) && IoEnabled(s, w) && BlocksRight(job, s.stop, s.blockReady)
    ensures BlocksRight(job, s.stop, IoStep(job, s, w).blockReady)
  {
    hide BlockOf, BlockInRange, CpuInRange, MainInRange;
  }

  lemma IoKeepsBlocksTracked(job: Job, s: State, w: nat)
    requires InRange(job, s) && IoEnabled(s, w)
    requires BlocksTracked(job, s.main, s.submitted, s.ioQueue, s.io, s.blockReady)
    ensures var t := IoStep(job, s, w); BlocksTracked(job, s.main, s.submitted, t.ioQueue, t.io, t.blockReady)
  {
    hide IoStep, BlockTracked, Issued, MainInRange, IoInRange, CpuInRange;
    forall f: nat, b: nat | Issued(job, s.main, s.submitted, f, b)
      ensures var t := IoStep(job, s, w); BlockTracked(t.ioQueue, t.io, t.blockReady, f, b)
    {
      IoKeepsTracked(job, s, w, f, b);
    }
  }

  lemma IoFrame(job: Job, s: State, w: nat)
    requires InRange(job, s) && IoEnabled(s, w)
    ensures var t := IoStep(job, s, w);
            && t == s.(io := t.io, ioQueue := t.ioQueue, blockReady := t.blockReady) && |t.io| == |s.io|
  {
    hide BlockOf, MainInRange, IoInRange, CpuInRange;
  }

  lemma IoKeepsInv(job: Job, s: State, w: nat)
    requires Inv(job, s) && IoEnabled(s, w)
    ensures Inv(job, IoStep(job, s, w))
  {
    hide BlocksTracked, FilesTracked, BlocksRight, FilesRight, WorkersRight, MutexRight, TasksSubmitted, WriterRight,
         MainRight, ValidJob, MainInRange, IoInRange, IoStep, IoEnabled;
    IoFrame(job, s, w);
    IoKeepsRange(job, s, w);
    IoKeepsBlocksRight(job, s, w);
    IoKeepsBlocksTracked(job, s, w);
  }

  // Steps of the CPU workers.

  /** A busy worker goes on towards the result of its file, or delivers a faithful result. */
  lemma MoveIsRight(job: Job, c: CpuWorker, stop: bool, ready: map<(nat, nat), Result<FileBlock>>)
    requires ValidJob(job) && WorkerInRange(job, c) && CanMove(c, ready)
    requires WorkerRight(job, c) && BlocksRight(job, stop, ready)
    ensures match MoveOf(job, c, stop, ready)
            case Become(c') =>
              && !c'.CpuIdle? && c'.file == c.file && (c'.GpuBatch? <==> c.GpuLock?)
              && WorkerInRange(job, c') && WorkerRight(job, c')
            case Deliver(r) => !c.GpuLock? && Faithful(stop, r, FileResult(job, c.file))
  {
    hide Count, FileResult, GpuResult, BlockOf;
    if c.CpuAwait? {
      assert Faithful(stop, ready[(c.file, |c.out|)], BlockOf(job, c.file, |c.out|));
    }
    if c.GpuAwait? {
      assert Faithful(stop, ready[(c.file, |c.drained|)], BlockOf(job, c.file, |c.drained|));
    }
  }

  lemma CpuKeepsTracked(job: Job, s: State, w: nat, f: nat)
    requires InRange(job, s) && CpuEnabled(s, w) && FileTracked(s.cpuQueue, s.cpu, s.fileReady, f)
    requires !s.cpu[w].CpuIdle? ==>
               match MoveOf(job, s.cpu[w], s.stop, s.blockReady)
               case Become(c') => CpuHolds(c', s.cpu[w].file)
               case Deliver(r) => true
    ensures var t := CpuStep(job, s, w); FileTracked(t.cpuQueue, t.cpu, t.fileReady, f)
  {
    hide InRange, MoveOf, UsesGpu;
    var t := CpuStep(job, s, w);
    if f in s.fileReady {
    } else if f in s.cpuQueue {
      var i :| 0 <= i < |s.cpuQueue| && s.cpuQueue[i] == f;
      if s.cpu[w].CpuIdle? {
        if i == 0 {
          assert CpuHolds(t.cpu[w], f);
        } else {
          assert t.cpuQueue[i - 1] == f;
        }
      }
    } else {
      var v :| 0 <= v < |s.cpu| && CpuHolds(s.cpu[v], f);
      if v != w {
        assert CpuHolds(t.cpu[v], f);
      } else if !t.cpu[w].CpuIdle? {
        assert CpuHolds(t.cpu[w], f);
      }
    }
  }

  lemma CpuKeepsInv(job: Job, s: State, w: nat)
    requires Inv(job, s) && CpuEnabled(s, w)
    ensures Inv(job, CpuStep(job, s, w))
  {
    var c, t := s.cpu[w], CpuStep(job, s, w);
    if c.CpuIdle? {
      TakeKeepsInv(job, s, w);
    } else {
      assert WorkerInRange(job, c) && WorkerRight(job, c);
      MoveIsRight(job, c, s.stop, s.blockReady);
      MoveKeepsInv(job, s, w);
    }
  }

  lemma TakeKeepsInv(job: Job, s: State, w: nat)
    requires Inv(job, s) && CpuEnabled(s, w) && s.cpu[w].CpuIdle?
    ensures Inv(job, CpuStep(job, s, w))
  {
    hide BlocksTracked, BlocksRight, FilesRight, WriterRight, MainRight, MainInRange, IoInRange, FileTracked,
         ValidJob, Count;
    var t := CpuStep(job, s, w);
    assert s.cpuQueue[0] in s.cpuQueue;
    assert forall f :: f in t.cpuQueue ==> f in s.cpuQueue;
    forall f: nat | f < t.submitted ensures FileTracked(t.cpuQueue, t.cpu, t.fileReady, f) {
      CpuKeepsTracked(job, s, w, f);
    }
  }

  lemma MoveKeepsInv(job: Job, s: State, w: nat)
    requires Inv(job, s) && CpuEnabled(s, w) && !s.cpu[w].CpuIdle?
    requires match MoveOf(job, s.cpu[w], s.stop, s.blockReady)
             case Become(c') =>
               && !c'.CpuIdle? && c'.file == s.cpu[w].file && (c'.GpuBatch? <==> s.cpu[w].GpuLock?)
               && WorkerInRange(job, c') && WorkerRight(job, c')
             case Deliver(r) => !s.cpu[w].GpuLock? && Faithful(s.stop, r, FileResult(job, s.cpu[w].file))
    ensures Inv(job, CpuStep(job, s, w))
  {
    hide BlocksTracked, BlocksRight, WriterRight, MainRight, MainInRange, IoInRange, FileTracked, ValidJob, Count,
         MoveOf, CpuFrom, GpuFrom, FileResult;
    var t := CpuStep(job, s, w);
    assert WorkerInRange(job, s.cpu[w]);
    forall f: nat | f < t.submitted ensures FileTracked(t.cpuQueue, t.cpu, t.fileReady, f) {
      CpuKeepsTracked(job, s, w, f);
    }
  }

  lemma StepKeepsInv(job: Job, s: State, a: Action)
    requires Inv(job, s) && Enabled(s, a)
    ensures Inv(job, Apply(job, s, a))
  {
    hide Inv, MainStep, IoStep, CpuStep, MainEnabled, IoEnabled, CpuEnabled;
    match a
    case Main => MainKeepsInv(job, s);
    case Io(w) => IoKeepsInv(job, s, w);
    case Cpu(w) => CpuKeepsInv(job, s, w);
    case RequestStop => StopKeepsInv(job, s);
  }

  lemma StopKeepsInv(job: Job, s: State)
    requires Inv(job, s)
    ensures Inv(job, s.(stop := true))
  {
    hide FileResult, BlockOf, Sequential, SequentialFrom, Count, Issued, BlockTracked, FileTracked;
  }
}
