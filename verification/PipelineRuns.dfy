/** What holds of every run: independence of the schedule, cancellation, progress, termination. */
module PipelineRuns {
  import opened Common
  import opened AsyncReader
  import opened SizeRouter
  import opened Pipeline
  import opened PipelineSafety

  /** Every step of the schedule is enabled when its turn comes. */
  ghost predicate Legal(job: Job, s: State, schedule: seq<Action>)
    requires ValidJob(job) && Inv(job, s)
    decreases |schedule|
  {
    schedule == [] ||
    (Enabled(s, schedule[0])
     && (StepKeepsInv(job, s, schedule[0]); Legal(job, Apply(job, s, schedule[0]), schedule[1..])))
  }

  ghost function After(job: Job, s: State, schedule: seq<Action>): (t: State)
    requires ValidJob(job) && Inv(job, s) && Legal(job, s, schedule)
    ensures Inv(job, t)
    decreases |schedule|
  {
    if schedule == [] then s
    else
      StepKeepsInv(job, s, schedule[0]);
      After(job, Apply(job, s, schedule[0]), schedule[1..])
  }

  /** A schedule of the whole job, from its initial state. */
  ghost predicate Run(job: Job, schedule: seq<Action>)
    requires ValidJob(job)
  {
    InitInv(job);
    Legal(job, Init(job), schedule)
  }

  ghost function Final(job: Job, schedule: seq<Action>): (t: State)
    requires ValidJob(job) && Run(job, schedule)
    ensures Inv(job, t)
  {
    InitInv(job);
    After(job, Init(job), schedule)
  }

  // ---- Schedule independence and cancellation ------------------------------------------------

  lemma {:induction false} StopOnlyOnRequest(job: Job, s: State, schedule: seq<Action>)
    requires ValidJob(job) && Inv(job, s) && Legal(job, s, schedule) && RequestStop !in schedule
    ensures After(job, s, schedule).stop == s.stop
    decreases |schedule|
  {
    hide BlocksTracked, FilesTracked, BlocksRight, FilesRight, WorkersRight, MutexRight, TasksSubmitted, WriterRight,
         MainRight, MainInRange, IoInRange, CpuInRange, ValidJob, Enabled, Apply;
    if schedule != [] {
      StepKeepsInv(job, s, schedule[0]);
      StepKeepsStop(job, s, schedule[0]);
      StopOnlyOnRequest(job, Apply(job, s, schedule[0]), schedule[1..]);
    }
  }

  lemma StepKeepsStop(job: Job, s: State, a: Action)
    requires Inv(job, s) && Enabled(s, a) && a != RequestStop
    ensures Apply(job, s, a).stop == s.stop
  {
    hide BlocksTracked, FilesTracked, BlocksRight, FilesRight, WorkersRight, MutexRight, TasksSubmitted, WriterRight,
         MainRight, MainStep, IoStep, MoveOf, UsesGpu;
    match a
    case Main => MainFrame(job, s);
    case Io(w) => IoFrame(job, s, w);
    case Cpu(w) =>
  }

  /** Whatever the interleaving, a job nobody cancels ends with the result, the counters and
      the written entries of the sequential program. */
  lemma ScheduleIndependence(job: Job, schedule: seq<Action>)
    requires ValidJob(job) && Run(job, schedule) && RequestStop !in schedule
    requires Final(job, schedule).main.Done?
    ensures var t := Final(job, schedule); (t.main.result, t.writer) == Sequential(job)
  {
    InitInv(job);
    StopOnlyOnRequest(job, Init(job), schedule);
  }

  /** Two complete runs of the same job cannot be told apart by their outputs. */
  lemma Deterministic(job: Job, first: seq<Action>, second: seq<Action>)
    requires ValidJob(job) && Run(job, first) && Run(job, second)
    requires RequestStop !in first && RequestStop !in second
    requires Final(job, first).main.Done? && Final(job, second).main.Done?
    ensures Final(job, first).main == Final(job, second).main
    ensures Final(job, first).writer == Final(job, second).writer
  {
    ScheduleIndependence(job, first);
    ScheduleIndependence(job, second);
  }

  /** A stop request at any moment: at every point of the run the writer holds whole entries of
      the first files, in order; success means all of them, exactly as without a stop; and a
      failure is the sequential one or a cancellation. */
  lemma CancellationSafety(job: Job, schedule: seq<Action>)
    requires ValidJob(job) && Run(job, schedule)
    ensures var t := Final(job, schedule);
            && |t.writer| <= |job.files|
            && (forall k :: 0 <= k < |t.writer| ==> FileResult(job, k) == Ok(t.writer[k]))
            && (t.main.Done? && t.main.result.Ok? ==>
                 (t.main.result, t.writer) == Sequential(job) && |t.writer| == |job.files|)
            && (t.main.Done? && t.main.result.Err? ==>
                 (t.main.result, t.writer) == Sequential(job) || (t.stop && t.main.result.error.code == Cancelled))
  {
    var t := Final(job, schedule);
    if t.main.Done? && t.main.result.Ok? && job.files != [] {
      SuccessWritesAll(job, 0, [], Stats(0, 0, 0, 0, 0));
    }
  }

  lemma {:induction false} SuccessWritesAll(job: Job, k: nat, writer: seq<PreparedFile>, stats: Stats)
    requires job.blockBytes > 0 && k <= |job.files| && |writer| == k
    ensures var r := SequentialFrom(job, k, writer, stats); r.0.Ok? ==> |r.1| == |job.files|
    decreases |job.files| - k
  {
    hide FileResult, AddFile;
    if k < |job.files| && FileResult(job, k).Ok? {
      var p := FileResult(job, k).value;
      SuccessWritesAll(job, k + 1, writer + [p], AddFile(job, stats, p));
    }
  }

  /** Entries are accepted in order up to the first file that fails to prepare or to be written, whose
      error is the job's; only after all of them is the end tried. */
  ghost predicate StopsAtFirstFailure(job: Job, r: Result<Stats>, w: seq<PreparedFile>)
    requires job.blockBytes > 0
  {
    && |w| <= |job.files|
    && (forall j :: 0 <= j < |w| ==> FileResult(job, j) == Ok(w[j]) && job.writeError(w[..j], w[j]).None?)
    && (if |w| == |job.files| then
          (if job.finishError(w).Some? then r == Err(job.finishError(w).value) else r.Ok?)
        else if FileResult(job, |w|).Err? then r == Err(FileResult(job, |w|).error)
        else job.writeError(w, FileResult(job, |w|).value).Some?
             && r == Err(job.writeError(w, FileResult(job, |w|).value).value))
  }

  /** What the sequential program means. */
  lemma {:induction false} SequentialMeaning(job: Job, k: nat, writer: seq<PreparedFile>, stats: Stats)
    requires job.blockBytes > 0 && k <= |job.files| && |writer| == k
    requires forall j :: 0 <= j < k
                         ==> FileResult(job, j) == Ok(writer[j]) && job.writeError(writer[..j], writer[j]).None?
    ensures var (r, w) := SequentialFrom(job, k, writer, stats); StopsAtFirstFailure(job, r, w)
    decreases |job.files| - k
  {
    hide FileResult, AddFile;
    if k < |job.files| && FileResult(job, k).Ok? {
      var p := FileResult(job, k).value;
      if job.writeError(writer, p).None? {
        var next := writer + [p];
        forall j | 0 <= j < k + 1
          ensures FileResult(job, j) == Ok(next[j]) && job.writeError(next[..j], next[j]).None?
        {
          assert next[..j] == writer[..j];
          assert writer[..k] == writer;
        }
        SequentialMeaning(job, k + 1, next, AddFile(job, stats, p));
      }
    }
  }

  // ---- No deadlock -------------------------------------------------------------------------------

  /** Nothing but a stop request can happen. */
  ghost predicate Stuck(s: State) {
    forall a: Action :: Enabled(s, a) ==> a == RequestStop
  }

  /** Everything ran to completion: the job has its result and no work is queued or held. */
  ghost predicate Quiet(s: State) {
    && s.main.Done?
    && s.ioQueue == [] && (forall w :: 0 <= w < |s.io| ==> s.io[w].IoIdle?)
    && s.cpuQueue == [] && (forall w :: 0 <= w < |s.cpu| ==> s.cpu[w].CpuIdle?)
  }

  lemma StuckIo(job: Job, s: State)
    requires Inv(job, s) && Stuck(s)
    ensures s.ioQueue == [] && forall w :: 0 <= w < |s.io| ==> s.io[w].IoIdle?
    ensures forall f: nat, b: nat :: Issued(job, s.main, s.submitted, f, b) ==> (f, b) in s.blockReady
  {
    hide BlocksRight, FilesRight, WorkersRight, WriterRight, MainRight, FilesTracked, TasksSubmitted, MutexRight,
         MainEnabled, CpuEnabled, Issued, CpuInRange, MainInRange, IoInRange;
    forall w | 0 <= w < |s.io| ensures s.io[w].IoIdle? && s.ioQueue == [] {
      assert !Enabled(s, Action.Io(w));
    }
    assert 0 < |s.io|;
    assert s.io[0].IoIdle?;
    forall f: nat, b: nat | Issued(job, s.main, s.submitted, f, b) ensures (f, b) in s.blockReady {
      assert BlockTracked(s.ioQueue, s.io, s.blockReady, f, b);
    }
  }

  /** The holder of the GPU mutex never waits for anything. */
  lemma OwnerCanMove(s: State)
    requires MutexRight(s.gpuOwner, s.cpu)
    ensures s.gpuOwner.Some? ==> Enabled(s, Action.Cpu(s.gpuOwner.value))
  {
  }

  /** A busy worker waits only for reads that were queued before its task, or for the mutex. */
  lemma BusyCanMove(job: Job, s: State, w: nat)
    requires Inv(job, s) && w < |s.cpu| && !s.cpu[w].CpuIdle? && s.gpuOwner.None?
    requires forall f: nat, b: nat :: Issued(job, s.main, s.submitted, f, b) ==> (f, b) in s.blockReady
    ensures Enabled(s, Action.Cpu(w))
  {
    hide BlocksRight, FilesRight, WorkersRight, WriterRight, MainRight, BlocksTracked, FilesTracked, MutexRight,
         MainInRange, IoInRange, Count;
    var c := s.cpu[w];
    assert WorkerInRange(job, c);
    if c.CpuAwait? {
      assert Issued(job, s.main, s.submitted, c.file, |c.out|);
    }
    if c.GpuAwait? {
      assert Issued(job, s.main, s.submitted, c.file, |c.drained|);
    }
  }

  lemma StuckCpu(job: Job, s: State)
    requires Inv(job, s) && Stuck(s)
    requires forall f: nat, b: nat :: Issued(job, s.main, s.submitted, f, b) ==> (f, b) in s.blockReady
    ensures s.cpuQueue == [] && forall w :: 0 <= w < |s.cpu| ==> s.cpu[w].CpuIdle?
    ensures forall f: nat :: f < s.submitted ==> f in s.fileReady
  {
    hide BlocksRight, FilesRight, WorkersRight, WriterRight, MainRight, BlocksTracked, MainEnabled, IoEnabled,
         MainInRange, IoInRange, CpuInRange, Issued, TasksSubmitted, MutexRight;
    OwnerCanMove(s);
    forall w | 0 <= w < |s.cpu| ensures s.cpu[w].CpuIdle? && s.cpuQueue == [] {
      assert !Enabled(s, Action.Cpu(w));
      if !s.cpu[w].CpuIdle? {
        BusyCanMove(job, s, w);
      }
    }
    assert 0 < |s.cpu|;
    assert s.cpu[0].CpuIdle?;
    forall f: nat | f < s.submitted ensures f in s.fileReady {
      assert FileTracked(s.cpuQueue, s.cpu, s.fileReady, f);
    }
  }

  lemma StuckIsQuiet(job: Job, s: State)
    requires Inv(job, s) && Stuck(s)
    ensures Quiet(s)
  {
    StuckIo(job, s);
    StuckCpu(job, s);
    assert !Enabled(s, Main);
  }

  /** No deadlock: a reachable state in which no thread can move is one where the job has its
      result and both pools have run everything they accepted. */
  lemma NoDeadlock(job: Job, schedule: seq<Action>)
    requires ValidJob(job) && Run(job, schedule)
    ensures var t := Final(job, schedule); Stuck(t) ==> Quiet(t)
  {
    if Stuck(Final(job, schedule)) {
      StuckIsQuiet(job, Final(job, schedule));
    }
  }

  // ---- Termination --------------------------------------------------------------------------------

  /** Steps a queued task can still take: two per block, and a few for the GPU lock. */
  function TaskCost(job: Job, f: nat): nat
    requires job.blockBytes > 0
  {
    if f < |job.files| then 2 * Count(job, f) + 5 else 0
  }

  function SubmitCost(job: Job, k: nat): nat
    requires job.blockBytes > 0
    decreases |job.files| - k
  {
    if k < |job.files| then 4 * Count(job, k) + TaskCost(job, k) + 4 + SubmitCost(job, k + 1) else 0
  }

  ghost function MainCost(job: Job, main: MainPc, submitted: nat, drained: nat): nat
    requires job.blockBytes > 0 && MainInRange(job, main, submitted, drained)
  {
    var left := |job.files| - drained;
    match main
    case CheckSubmit => SubmitCost(job, submitted) + 2 * left + 4
    case SubmitBlock(j) =>
      4 * (Count(job, submitted) - j) + TaskCost(job, submitted) + 3 + SubmitCost(job, submitted + 1) + 2 * left + 4
    case SubmitTask => TaskCost(job, submitted) + 2 + SubmitCost(job, submitted + 1) + 2 * left + 4
    case CheckDrain => 2 * left + 3
    case AwaitFile => 2 * left + 2
    case Finishing => 1
    case Done(_) => 0
  }

  function IoCost(io: seq<IoWorker>): nat {
    if io == [] then 0
    else
      IoCost(io[..|io| - 1])
      + match io[|io| - 1] case IoIdle => 0 case IoTaken(_, _) => 2 case IoReading(_, _) => 1
  }

  function QueueCost(job: Job, queue: seq<nat>): nat
    requires job.blockBytes > 0
  {
    if queue == [] then 0 else QueueCost(job, queue[..|queue| - 1]) + TaskCost(job, queue[|queue| - 1])
  }

  ghost function WorkerCost(job: Job, c: CpuWorker): nat
    requires job.blockBytes > 0 && WorkerInRange(job, c)
  {
    match c
    case CpuIdle => 0
    case CpuCheck(f, out) => 2 * (Count(job, f) - |out|) + 4
    case CpuAwait(f, out) => 2 * (Count(job, f) - |out|) + 3
    case GpuCheck(f, drained) => 2 * (Count(job, f) - |drained|) + 4
    case GpuAwait(f, drained) => 2 * (Count(job, f) - |drained|) + 3
    case GpuLock(_, _) => 2
    case GpuBatch(_, _) => 1
  }

  ghost function CpuCost(job: Job, cpu: seq<CpuWorker>): nat
    requires job.blockBytes > 0 && forall w :: 0 <= w < |cpu| ==> WorkerInRange(job, cpu[w])
  {
    if cpu == [] then 0 else CpuCost(job, cpu[..|cpu| - 1]) + WorkerCost(job, cpu[|cpu| - 1])
  }

  /** An upper bound on the steps a state can still take. */
  ghost function Measure(job: Job, s: State): nat
    requires InRange(job, s)
  {
    MainCost(job, s.main, s.submitted, s.drained) + 3 * |s.ioQueue| + IoCost(s.io)
    + QueueCost(job, s.cpuQueue) + CpuCost(job, s.cpu) + (if s.stop then 0 else 1)
  }

  lemma {:induction false} IoCostUpdate(io: seq<IoWorker>, w: nat, c: IoWorker)
    requires w < |io|
    ensures IoCost(io[w := c]) + IoCost([io[w]]) == IoCost(io) + IoCost([c])
    decreases |io|
  {
    var n := |io| - 1;
    if w < n {
      IoCostUpdate(io[..n], w, c);
      assert io[w := c][..n] == io[..n][w := c];
    } else {
      assert io[w := c][..n] == io[..n];
      assert [c][..0] == [] && [io[w]][..0] == [];
    }
  }

  lemma {:induction false} CpuCostUpdate(job: Job, cpu: seq<CpuWorker>, w: nat, c: CpuWorker)
    requires job.blockBytes > 0 && w < |cpu| && WorkerInRange(job, c)
    requires forall v :: 0 <= v < |cpu| ==> WorkerInRange(job, cpu[v])
    ensures CpuCost(job, cpu[w := c]) + WorkerCost(job, cpu[w]) == CpuCost(job, cpu) + WorkerCost(job, c)
    decreases |cpu|
  {
    hide WorkerCost, WorkerInRange;
    var n := |cpu| - 1;
    if w < n {
      CpuCostUpdate(job, cpu[..n], w, c);
      assert cpu[w := c][..n] == cpu[..n][w := c];
    } else {
      assert cpu[w := c][..n] == cpu[..n];
    }
  }

  lemma {:induction false} QueueCostTail(job: Job, queue: seq<nat>)
    requires job.blockBytes > 0 && queue != []
    ensures QueueCost(job, queue) == TaskCost(job, queue[0]) + QueueCost(job, queue[1..])
    decreases |queue|
  {
    hide TaskCost;
    var n := |queue| - 1;
    if n > 0 {
      QueueCostTail(job, queue[..n]);
      assert queue[..n][1..] == queue[1..][..n - 1];
    } else {
      assert queue[..0] == [] && queue[1..] == [];
    }
  }

  lemma DrainCases(job: Job, s: State, r: Result<PreparedFile>)
    ensures var t := DrainStep(job, s, r);
            t.main.Done? || (t.main == CheckDrain && t.drained == s.drained + 1)
    ensures FinishStep(job, s).main.Done?
  {
  }

  lemma SubmitCostStep(job: Job, k: nat)
    requires job.blockBytes > 0 && k < |job.files|
    ensures SubmitCost(job, k) == 4 * Count(job, k) + TaskCost(job, k) + 4 + SubmitCost(job, k + 1)
  {
  }

  /** The measure falls by the main thread's own part, net of what it queues. */
  lemma MainCostDecreases(job: Job, s: State)
    requires Shape(job, s) && MainEnabled(s) && InRange(job, MainStep(job, s))
    ensures var t := MainStep(job, s);
            MainCost(job, t.main, t.submitted, t.drained) + 3 * |t.ioQueue|
            + (if s.main.SubmitTask? then TaskCost(job, s.submitted) else 0)
            < MainCost(job, s.main, s.submitted, s.drained) + 3 * |s.ioQueue|
  {
    hide WorkerInRange, Count, TaskCost, IoInRange, CpuInRange, DrainStep, FinishStep, SubmitCost;
    match s.main
    case CheckSubmit =>
      if s.submitted < |job.files| {
        SubmitCostStep(job, s.submitted);
      }
    case SubmitBlock(_) =>
    case SubmitTask =>
    case CheckDrain =>
    case AwaitFile => DrainCases(job, s, s.fileReady[s.drained]);
    case Finishing => DrainCases(job, s, Err(CANCELLED));
  }

  lemma MainDecreases(job: Job, s: State)
    requires Shape(job, s) && MainEnabled(s) && InRange(job, MainStep(job, s))
    ensures Measure(job, MainStep(job, s)) < Measure(job, s)
  {
    MainCostDecreases(job, s);
    MainFrame(job, s);
    hide MainStep, WorkerInRange, Count, TaskCost, CpuCost, IoCost, MainInRange, IoInRange, MainCost, QueueCost;
    if s.main.SubmitTask? {
      QueueCostSnoc(job, s.cpuQueue, s.submitted);
    }
  }

  lemma QueueCostSnoc(job: Job, queue: seq<nat>, f: nat)
    requires job.blockBytes > 0
    ensures QueueCost(job, queue + [f]) == QueueCost(job, queue) + TaskCost(job, f)
  {
    assert (queue + [f])[..|queue|] == queue;
  }

  lemma IoDecreases(job: Job, s: State, w: nat)
    requires InRange(job, s) && IoEnabled(s, w) && InRange(job, IoStep(job, s, w))
    ensures Measure(job, IoStep(job, s, w)) < Measure(job, s)
  {
    hide MainInRange, IoInRange, CpuInRange, Count, MainCost, QueueCost, CpuCost, BlockOf;
    IoCostUpdate(s.io, w, IoStep(job, s, w).io[w]);
  }

  lemma MoveDecreases(job: Job, c: CpuWorker, stop: bool, ready: map<(nat, nat), Result<FileBlock>>)
    requires job.blockBytes > 0 && WorkerInRange(job, c) && CanMove(c, ready)
    ensures WorkerCost(job, c) > 0
    ensures MoveOf(job, c, stop, ready).Become? ==>
              var c' := MoveOf(job, c, stop, ready).worker;
              WorkerInRange(job, c') && WorkerCost(job, c') < WorkerCost(job, c)
  {
    hide Count, GpuResult;
  }

  lemma CpuDecreases(job: Job, s: State, w: nat)
    requires InRange(job, s) && CpuEnabled(s, w) && InRange(job, CpuStep(job, s, w))
    ensures Measure(job, CpuStep(job, s, w)) < Measure(job, s)
  {
    hide MainInRange, IoInRange, MainCost, IoCost, MoveOf, CpuCost, QueueCost, Count;
    var t := CpuStep(job, s, w);
    var before, c := s.cpu[w], t.cpu[w];
    assert WorkerInRange(job, before) && WorkerInRange(job, c) && t.cpu == s.cpu[w := c];
    CpuCostUpdate(job, s.cpu, w, c);
    if before.CpuIdle? {
      QueueCostTail(job, s.cpuQueue);
      assert s.cpuQueue[0] in s.cpuQueue;
    } else {
      MoveDecreases(job, before, s.stop, s.blockReady);
    }
  }

  /** Every step uses up some of the measure. */
  lemma StepDecreases(job: Job, s: State, a: Action)
    requires Inv(job, s) && Enabled(s, a)
    ensures Inv(job, Apply(job, s, a)) && Measure(job, Apply(job, s, a)) < Measure(job, s)
  {
    hide BlocksTracked, FilesTracked, BlocksRight, FilesRight, WorkersRight, MutexRight, TasksSubmitted, WriterRight,
         MainRight, MainStep, IoStep, CpuStep, MainEnabled, IoEnabled, CpuEnabled, MainInRange, IoInRange, CpuInRange;
    StepKeepsInv(job, s, a);
    match a
    case Main => MainDecreases(job, s);
    case Io(w) => IoDecreases(job, s, w);
    case Cpu(w) => CpuDecreases(job, s, w);
    case RequestStop =>
  }

  lemma {:induction false} LegalIsShort(job: Job, s: State, schedule: seq<Action>)
    requires ValidJob(job) && Inv(job, s) && Legal(job, s, schedule)
    ensures |schedule| + Measure(job, After(job, s, schedule)) <= Measure(job, s)
    decreases |schedule|
  {
    hide BlocksTracked, FilesTracked, BlocksRight, FilesRight, WorkersRight, MutexRight, TasksSubmitted, WriterRight,
         MainRight, MainInRange, IoInRange, CpuInRange, ValidJob, Enabled, Apply, Measure;
    if schedule != [] {
      StepDecreases(job, s, schedule[0]);
      LegalIsShort(job, Apply(job, s, schedule[0]), schedule[1..]);
    }
  }

  /** Every run is finite: its length is bounded by the measure of the initial state. */
  lemma Termination(job: Job, schedule: seq<Action>)
    requires ValidJob(job) && Run(job, schedule)
    ensures (InitInv(job); |schedule| <= Measure(job, Init(job)))
  {
    hide Measure;
    InitInv(job);
    LegalIsShort(job, Init(job), schedule);
  }

  lemma {:induction false} CanComplete(job: Job, s: State) returns (schedule: seq<Action>)
    requires ValidJob(job) && Inv(job, s)
    ensures Legal(job, s, schedule) && RequestStop !in schedule && Quiet(After(job, s, schedule))
    decreases Measure(job, s)
  {
    hide BlocksTracked, FilesTracked, BlocksRight, FilesRight, WorkersRight, MutexRight, TasksSubmitted, WriterRight,
         MainRight, MainInRange, IoInRange, CpuInRange, ValidJob, Enabled, Apply, Quiet, Measure;
    schedule := [];
    if Stuck(s) {
      StuckIsQuiet(job, s);
    } else {
      var a :| Enabled(s, a) && a != RequestStop;
      StepKeepsInv(job, s, a);
      StepDecreases(job, s, a);
      var rest := CanComplete(job, Apply(job, s, a));
      schedule := [a] + rest;
      assert schedule[1..] == rest;
    }
  }

  lemma {:induction false} LegalAppend(job: Job, s: State, first: seq<Action>, second: seq<Action>)
    requires ValidJob(job) && Inv(job, s) && Legal(job, s, first) && Legal(job, After(job, s, first), second)
    ensures Legal(job, s, first + second) && After(job, s, first + second) == After(job, After(job, s, first), second)
    decreases |first|
  {
    hide BlocksTracked, FilesTracked, BlocksRight, FilesRight, WorkersRight, MutexRight, TasksSubmitted, WriterRight,
         MainRight, MainInRange, IoInRange, CpuInRange, ValidJob, Enabled, Apply;
    if first == [] {
      assert first + second == second;
    } else {
      StepKeepsInv(job, s, first[0]);
      LegalAppend(job, Apply(job, s, first[0]), first[1..], second);
      assert (first + second)[1..] == first[1..] + second;
    }
  }

  /** Whatever has happened so far, the threads can bring the job to its result and both pools to rest
      without any further request. */
  lemma EveryRunCompletes(job: Job, schedule: seq<Action>) returns (more: seq<Action>)
    requires ValidJob(job) && Run(job, schedule)
    ensures Run(job, schedule + more) && RequestStop !in more && Quiet(Final(job, schedule + more))
  {
    hide Inv, Legal, After, Quiet;
    InitInv(job);
    more := CanComplete(job, Final(job, schedule));
    LegalAppend(job, Init(job), schedule, more);
  }
}
