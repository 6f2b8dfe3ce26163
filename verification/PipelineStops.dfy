/** What a stop request does, from any point of any run on. */
module PipelineStops {
  import opened Common
  import opened AsyncReader
  import opened SizeRouter
  import opened Assembler
  import opened Pipeline
  import opened PipelineSafety
  import opened PipelineRuns
  import opened PipelineOrder

  // ---- The main thread -----------------------------------------------------------------------

  /** The main thread will look at the stop flag before another file is awaited. */
  predicate CheckAhead(job: Job, s: State) {
    match s.main
    case CheckSubmit => true
    case SubmitBlock(_) => true
    case SubmitTask => true
    case CheckDrain => s.drained < |job.files|
    case AwaitFile => s.drained + 1 < |job.files|
    case Finishing => false
    case Done(_) => false
  }

  /** A file whose reads are being queued gets its task. */
  function TaskInHand(s: State): nat {
    if s.main.SubmitBlock? || s.main.SubmitTask? then 1 else 0
  }

  /** What becomes of the file being awaited, and of the job: `r` is the file's result. */
  ghost predicate AwaitedOutcome(job: Job, s: State, r: Result<PreparedFile>, t: State)
    requires job.blockBytes > 0 && t.main.Done?
  {
    match r
    case Err(e) => t.main.result == Err(e) && t.writer == s.writer
    case Ok(p) =>
      match job.writeError(s.writer, p)
      case Some(e) => t.main.result == Err(e) && t.writer == s.writer
      case None =>
        if CheckAhead(job, s) then t.main.result == Err(CANCELLED) && t.writer == s.writer + [p]
        else (t.main.result, t.writer) == Sequential(job)
  }

  ghost predicate StoppedAs(job: Job, s: State, t: State)
    requires job.blockBytes > 0 && t.main.Done?
  {
    && t.submitted == s.submitted + TaskInHand(s)
    && match s.main
       case Done(r) => t.main == s.main && t.writer == s.writer
       case AwaitFile => s.drained in t.fileReady && AwaitedOutcome(job, s, t.fileReady[s.drained], t)
       case _ =>
         if CheckAhead(job, s) then t.main.result == Err(CANCELLED) && t.writer == s.writer
         else (t.main.result, t.writer) == Sequential(job)
  }

  lemma OthersLeaveMain(job: Job, s: State, a: Action)
    requires InRange(job, s) && Enabled(s, a) && !a.Main?
    ensures var t := Apply(job, s, a);
            && t.main == s.main && t.submitted == s.submitted && t.drained == s.drained
            && t.writer == s.writer && t.stats == s.stats && (s.stop ==> t.stop)
  {
    hide InRange, MoveOf, UsesGpu, IoStep;
    match a
    case Io(w) => IoFrame(job, s, w);
    case Cpu(w) =>
    case RequestStop =>
  }

  lemma StopAtDrain(job: Job, s: State, t: State)
    requires Inv(job, s) && s.main.AwaitFile? && MainEnabled(s) && s.stop && t.main.Done?
    requires s.drained in t.fileReady && t.fileReady[s.drained] == s.fileReady[s.drained]
    requires StoppedAs(job, MainStep(job, s), t)
    ensures StoppedAs(job, s, t)
  {
    hide Sequential, AddFile, BlocksTracked, FilesTracked, BlocksRight, FilesRight, WorkersRight, MutexRight,
         TasksSubmitted, WriterRight, MainRight, IoInRange, CpuInRange;
  }

  lemma StopAtFinish(job: Job, s: State, t: State)
    requires Inv(job, s) && s.main.Finishing? && s.stop && t.main.Done? && StoppedAs(job, MainStep(job, s), t)
    ensures StoppedAs(job, s, t)
  {
    hide AddFile, FileResult, BlocksTracked, FilesTracked, BlocksRight, FilesRight, WorkersRight, MutexRight,
         TasksSubmitted, IoInRange, CpuInRange;
  }

  lemma StopAtMain(job: Job, s: State, t: State)
    requires Inv(job, s) && MainEnabled(s) && s.stop && t.main.Done?
    requires ResultsKept(MainStep(job, s), t) && StoppedAs(job, MainStep(job, s), t)
    ensures StoppedAs(job, s, t)
  {
    hide Sequential, AddFile, BlocksTracked, FilesTracked, BlocksRight, FilesRight, WorkersRight, MutexRight,
         TasksSubmitted, WriterRight, MainRight, IoInRange, CpuInRange, DrainStep, FinishStep, Count;
    match s.main
    case CheckSubmit =>
    case SubmitBlock(_) =>
    case SubmitTask =>
    case CheckDrain =>
    case AwaitFile =>
      MainFrame(job, s);
      StopAtDrain(job, s, t);
    case Finishing => StopAtFinish(job, s, t);
  }

  lemma StopAtStep(job: Job, s: State, a: Action, t: State)
    requires Inv(job, s) && Enabled(s, a) && s.stop && t.main.Done? && InRange(job, s) && job.blockBytes > 0
    requires ResultsKept(Apply(job, s, a), t) && StoppedAs(job, Apply(job, s, a), t)
    ensures Apply(job, s, a).stop && StoppedAs(job, s, t)
  {
    hide Inv, InRange, IoStep, CpuStep, MainStep, MainEnabled, CpuEnabled, IoEnabled, StoppedAs, ResultsKept;
    if a.Main? {
      MainFrame(job, s);
      StopAtMain(job, s, t);
    } else {
      OthersLeaveMain(job, s, a);
      SameOutcome(job, s, Apply(job, s, a), t);
    }
  }

  lemma SameOutcome(job: Job, s: State, u: State, t: State)
    requires job.blockBytes > 0 && t.main.Done? && StoppedAs(job, u, t)
    requires u.main == s.main && u.submitted == s.submitted && u.drained == s.drained && u.writer == s.writer
    ensures StoppedAs(job, s, t)
  {
    hide Sequential;
  }

  /** Once a stop is requested, how the job ends is settled by where the main thread is and by what becomes
      of the file it is waiting for. */
  lemma {:induction false} StopSettles(job: Job, s: State, schedule: seq<Action>)
    requires ValidJob(job) && Inv(job, s) && InOrder(job, s) && s.stop && Legal(job, s, schedule)
    requires After(job, s, schedule).main.Done?
    ensures StoppedAs(job, s, After(job, s, schedule))
    decreases |schedule|
  {
    if schedule == [] {
      StoppedAlready(job, s);
    } else {
      var a := schedule[0];
      ShapeInRange(job, s);
      StepKeepsInv(job, s, a);
      StepKeepsOrder(job, s, a);
      hide Inv, InOrder, InRange, Apply, Enabled, StoppedAs;
      ResultsStay(job, Apply(job, s, a), schedule[1..]);
      StopKept(job, s, a);
      StopSettles(job, Apply(job, s, a), schedule[1..]);
      StopAtStep(job, s, a, After(job, s, schedule));
    }
  }

  lemma StoppedAlready(job: Job, s: State)
    requires job.blockBytes > 0 && s.main.Done?
    ensures StoppedAs(job, s, s)
  {
    hide Sequential;
  }

  /** Nothing takes back a stop request, a written entry or a queued task. */
  lemma StopKept(job: Job, s: State, a: Action)
    requires Inv(job, s) && Enabled(s, a) && InRange(job, s)
    ensures var t := Apply(job, s, a);
            (s.stop ==> t.stop) && s.writer <= t.writer && s.submitted <= t.submitted
  {
    hide Inv, InRange, IoStep, CpuStep, MainEnabled, CpuEnabled, IoEnabled;
    if a.Main? {
      MainFrame(job, s);
      MainOnlyWrites(job, s);
    } else {
      OthersLeaveMain(job, s, a);
    }
  }

  lemma MainOnlyWrites(job: Job, s: State)
    requires InRange(job, s) && MainEnabled(s)
    ensures s.writer <= MainStep(job, s).writer
  {
    hide IoInRange, CpuInRange, Count;
  }

  lemma {:induction false} OnlyGrows(job: Job, s: State, schedule: seq<Action>)
    requires ValidJob(job) && Inv(job, s) && Legal(job, s, schedule)
    ensures var t := After(job, s, schedule);
            (s.stop ==> t.stop) && s.writer <= t.writer && s.submitted <= t.submitted
    decreases |schedule|
  {
    if schedule != [] {
      ShapeInRange(job, s);
      StepKeepsInv(job, s, schedule[0]);
      hide Inv, InRange, Apply, Enabled;
      StopKept(job, s, schedule[0]);
      OnlyGrows(job, Apply(job, s, schedule[0]), schedule[1..]);
    }
  }

  /** A stop is heeded: from any reachable state with a check still ahead, no continuation ends in success,
      at most the file being awaited is still written, and at most the file in hand is still submitted;
      if no file is awaited, the job can only end as cancelled. */
  lemma StopIsHeeded(job: Job, before: seq<Action>, later: seq<Action>)
    requires ValidJob(job) && Run(job, before) && Final(job, before).stop && CheckAhead(job, Final(job, before))
    requires Legal(job, Final(job, before), later)
    ensures var s, t := Final(job, before), After(job, Final(job, before), later);
            && (t.main.Done? ==> t.main.result.Err?)
            && (t.main.Done? && !s.main.AwaitFile? ==> t.main.result == Err(CANCELLED))
            && s.writer <= t.writer && |t.writer| <= |s.writer| + (if s.main.AwaitFile? then 1 else 0)
            && s.submitted <= t.submitted <= s.submitted + TaskInHand(s)
  {
    var s, t := Final(job, before), After(job, Final(job, before), later);
    hide Run, Final, Inv, InOrder, CheckAhead, StoppedAs, Legal, After, TaskInHand, Quiet;
    StartedInOrder(job, before);
    OnlyGrows(job, s, later);
    var rest := CanComplete(job, t);
    OnlyGrows(job, t, rest);
    LegalAppend(job, s, later, rest);
    EndsDone(After(job, t, rest));
    StopSettles(job, s, later + rest);
    StoppedWithin(job, s, After(job, t, rest));
    if t.main.Done? {
      StopSettles(job, s, later);
      StoppedWithin(job, s, t);
    }
  }

  lemma EndsDone(s: State)
    requires Quiet(s)
    ensures s.main.Done?
  {
  }

  lemma StoppedWithin(job: Job, s: State, t: State)
    requires job.blockBytes > 0 && t.main.Done? && CheckAhead(job, s) && StoppedAs(job, s, t)
    ensures t.main.result.Err? && (!s.main.AwaitFile? ==> t.main.result == Err(CANCELLED))
    ensures |t.writer| <= |s.writer| + (if s.main.AwaitFile? then 1 else 0)
    ensures t.submitted == s.submitted + TaskInHand(s)
  {
    hide Sequential;
  }

  /** Once its last check is behind it a job that awaits no file can no longer be cancelled: it ends as the
      sequential program does. */
  lemma TooLateToStop(job: Job, before: seq<Action>, later: seq<Action>)
    requires ValidJob(job) && Run(job, before) && Final(job, before).stop && !CheckAhead(job, Final(job, before))
    requires !Final(job, before).main.AwaitFile? && Legal(job, Final(job, before), later)
    requires !Final(job, before).main.Done? && After(job, Final(job, before), later).main.Done?
    ensures var t := After(job, Final(job, before), later); (t.main.result, t.writer) == Sequential(job)
  {
    hide Run, Final, Inv, InOrder, Legal, After, Sequential;
    StartedInOrder(job, before);
    StopSettles(job, Final(job, before), later);
  }

  /** A job with inputs that is stopped before its first step ends as cancelled with nothing queued, read,
      prepared or written. */
  lemma StoppedBeforeStart(job: Job, later: seq<Action>)
    requires ValidJob(job) && job.files != [] && Run(job, [RequestStop] + later)
    requires Final(job, [RequestStop] + later).main.Done?
    ensures var t := Final(job, [RequestStop] + later);
            && t.main.result == Err(CANCELLED) && t.writer == []
            && t.submitted == 0 && t.ioQueue == [] && t.cpuQueue == [] && t.blockReady == map[] && t.fileReady == map[]
  {
    var schedule := [RequestStop] + later;
    var s := Init(job);
    assert schedule[0] == RequestStop && schedule[1..] == later;
    InitInv(job);
    InitInOrder(job);
    ShapeInRange(job, s);
    StepKeepsInv(job, s, RequestStop);
    StepKeepsOrder(job, s, RequestStop);
    StartedInOrder(job, schedule);
    StopSettles(job, Apply(job, s, RequestStop), later);
    NothingIssued(job, Final(job, schedule));
  }

  lemma NothingIssued(job: Job, t: State)
    requires job.blockBytes > 0 && InOrder(job, t) && t.submitted == 0 && t.main.Done?
    ensures t.ioQueue == [] && t.cpuQueue == [] && t.blockReady == map[] && t.fileReady == map[]
  {
    hide Orderly, BlockInRange;
    NoElements(t.ioQueue);
    NoElements(t.cpuQueue);
  }

  lemma NoElements<T>(xs: seq<T>)
    ensures (forall x :: x !in xs) ==> xs == []
  {
    if xs != [] {
      assert xs[0] in xs;
    }
  }

  // ---- The I/O pool --------------------------------------------------------------------------

  /** Some worker is past its check and reads this block. */
  predicate BeingRead(s: State, f: nat, b: nat) {
    exists w :: 0 <= w < |s.io| && s.io[w] == IoReading(f, b)
  }

  lemma ReadDelivered(job: Job, s: State, w: nat, f: nat, b: nat)
    requires InRange(job, s) && IoEnabled(s, w) && Orderly(ReadWork(s)) && s.stop
    requires (f, b) !in s.blockReady && (f, b) in IoStep(job, s, w).blockReady
    ensures BlockInRange(job, f, b)
    ensures IoStep(job, s, w).blockReady[(f, b)] == if BeingRead(s, f, b) then BlockOf(job, f, b) else Err(CANCELLED)
  {
    hide BlockOf, MainInRange, CpuInRange, BlockInRange;
    assert ReadWork(s).held[w] == Some((f, b));
    if BeingRead(s, f, b) {
      var v :| 0 <= v < |s.io| && s.io[v] == IoReading(f, b);
      assert ReadWork(s).held[v] == Some((f, b));
    }
  }

  lemma StillBeingRead(job: Job, s: State, w: nat, f: nat, b: nat)
    requires InRange(job, s) && IoEnabled(s, w) && s.stop && (f, b) !in IoStep(job, s, w).blockReady
    ensures BeingRead(IoStep(job, s, w), f, b) <==> BeingRead(s, f, b)
  {
    hide BlockOf, MainInRange, CpuInRange, IoInRange;
    var t := IoStep(job, s, w);
    if BeingRead(s, f, b) {
      var v :| 0 <= v < |s.io| && s.io[v] == IoReading(f, b);
      assert t.io[v] == IoReading(f, b);
    }
    if BeingRead(t, f, b) {
      var v :| 0 <= v < |t.io| && t.io[v] == IoReading(f, b);
      assert s.io[v] == IoReading(f, b);
    }
  }

  lemma ReadsAtStep(job: Job, s: State, a: Action, f: nat, b: nat)
    requires Inv(job, s) && InRange(job, s) && InOrder(job, s) && Enabled(s, a) && s.stop && (f, b) !in s.blockReady
    ensures var u := Apply(job, s, a);
            if (f, b) in u.blockReady then
              BlockInRange(job, f, b)
              && u.blockReady[(f, b)] == if BeingRead(s, f, b) then BlockOf(job, f, b) else Err(CANCELLED)
            else BeingRead(u, f, b) <==> BeingRead(s, f, b)
  {
    hide Inv, InRange, MainStep, IoStep, CpuStep, MainEnabled, CpuEnabled, IoEnabled, BlockOf, Orderly, BlockInRange;
    match a
    case Main => MainFrame(job, s);
    case Io(w) =>
      if (f, b) in IoStep(job, s, w).blockReady {
        ReadDelivered(job, s, w, f, b);
      } else {
        StillBeingRead(job, s, w, f, b);
      }
    case Cpu(w) => CpuFrame(job, s, w);
    case RequestStop =>
  }

  /** After a stop only the reads already under way are carried out; every other block that is answered is
      answered as cancelled. */
  lemma {:induction false} ReadsAfterStop(job: Job, s: State, schedule: seq<Action>, f: nat, b: nat)
    requires ValidJob(job) && Inv(job, s) && InOrder(job, s) && s.stop && Legal(job, s, schedule)
    requires (f, b) !in s.blockReady && (f, b) in After(job, s, schedule).blockReady
    ensures BlockInRange(job, f, b)
    ensures After(job, s, schedule).blockReady[(f, b)]
            == if BeingRead(s, f, b) then BlockOf(job, f, b) else Err(CANCELLED)
    decreases |schedule|
  {
    var a := schedule[0];
    ShapeInRange(job, s);
    StepKeepsInv(job, s, a);
    StepKeepsOrder(job, s, a);
    hide Inv, InOrder, InRange, Apply, Enabled, BeingRead, BlockOf, BlockInRange;
    ReadsAtStep(job, s, a, f, b);
    var u := Apply(job, s, a);
    StopKept(job, s, a);
    if (f, b) in u.blockReady {
      ResultsStay(job, u, schedule[1..]);
    } else {
      ReadsAfterStop(job, u, schedule[1..], f, b);
    }
  }

  // ---- The CPU pool --------------------------------------------------------------------------

  /** The worker has no check ahead, and the block it waits for, if any, is really read by `t`. */
  ghost predicate PastChecks(job: Job, c: CpuWorker, t: State)
    requires job.blockBytes > 0 && WorkerInRange(job, c)
  {
    match c
    case CpuIdle => false
    case CpuCheck(f, out) => |out| == Count(job, f)
    case CpuAwait(f, out) => |out| + 1 == Count(job, f) && WasRead(job, t, f, |out|)
    case GpuCheck(f, drained) => |drained| == Count(job, f)
    case GpuAwait(f, drained) => |drained| + 1 == Count(job, f) && WasRead(job, t, f, |drained|)
    case GpuLock(_, _) => true
    case GpuBatch(_, _) => true
  }

  ghost predicate WasRead(job: Job, t: State, f: nat, b: nat)
    requires job.blockBytes > 0 && BlockInRange(job, f, b)
  {
    (f, b) in t.blockReady && t.blockReady[(f, b)] == BlockOf(job, f, b)
  }

  /** The task of file `f` has no check ahead of it. */
  ghost predicate Finishes(job: Job, s: State, t: State, f: nat)
    requires InRange(job, s) && f < |job.files|
  {
    Count(job, f) == 0 || exists w :: 0 <= w < |s.cpu| && CpuHolds(s.cpu[w], f) && PastChecks(job, s.cpu[w], t)
  }

  /** One move of a stopped worker: it stays on its side of its last check, or delivers. */
  lemma MoveAfterStop(job: Job, c: CpuWorker, s: State, t: State)
    requires ValidJob(job) && WorkerInRange(job, c) && CanMove(c, s.blockReady)
    requires WorkerRight(job, c) && BlocksRight(job, s.stop, s.blockReady) && s.stop && ResultsKept(s, t)
    ensures match MoveOf(job, c, true, s.blockReady)
            case Become(c') =>
              WorkerInRange(job, c') && c'.file == c.file && !c'.CpuIdle?
              && (PastChecks(job, c', t) <==> PastChecks(job, c, t))
            case Deliver(r) =>
              r.Ok? <==> FileResult(job, c.file).Ok? && PastChecks(job, c, t)
    ensures Count(job, c.file) == 0 ==> PastChecks(job, c, t)
  {
    hide GpuResult, BlockOf, Count, FileResult;
    MoveIsRight(job, c, true, s.blockReady);
    if c.CpuAwait? {
      assert Faithful(s.stop, s.blockReady[(c.file, |c.out|)], BlockOf(job, c.file, |c.out|));
    }
    if c.GpuAwait? {
      assert Faithful(s.stop, s.blockReady[(c.file, |c.drained|)], BlockOf(job, c.file, |c.drained|));
    }
  }

  lemma OneHolder(s: State, v: nat, w: nat, f: nat)
    requires Orderly(TaskWork(s)) && v < |s.cpu| && w < |s.cpu| && CpuHolds(s.cpu[v], f) && CpuHolds(s.cpu[w], f)
    ensures v == w
  {
    assert TaskWork(s).held[v] == TaskWork(s).held[w] == Some((f, 0));
  }

  /** The one worker on file `f` decides. */
  lemma HolderFinishes(job: Job, s: State, t: State, w: nat, f: nat)
    requires InRange(job, s) && f < |job.files| && w < |s.cpu| && CpuHolds(s.cpu[w], f)
    requires Orderly(TaskWork(s)) && (Count(job, f) == 0 ==> PastChecks(job, s.cpu[w], t))
    ensures Finishes(job, s, t, f) <==> PastChecks(job, s.cpu[w], t)
  {
    hide Orderly, PastChecks, WorkerInRange, MainInRange, IoInRange, Count;
    if Count(job, f) != 0 && Finishes(job, s, t, f) {
      var v :| 0 <= v < |s.cpu| && CpuHolds(s.cpu[v], f) && PastChecks(job, s.cpu[v], t);
      OneHolder(s, v, w, f);
    }
  }

  /** Only the worker that moves can change how its file ends. */
  lemma OthersFinish(job: Job, s: State, u: State, t: State, w: nat, f: nat)
    requires InRange(job, s) && InRange(job, u) && f < |job.files|
    requires w < |s.cpu| == |u.cpu| && u.cpu == s.cpu[w := u.cpu[w]]
    requires Count(job, f) != 0 ==>
               (CpuHolds(s.cpu[w], f) && PastChecks(job, s.cpu[w], t)
                <==> CpuHolds(u.cpu[w], f) && PastChecks(job, u.cpu[w], t))
    ensures Finishes(job, u, t, f) <==> Finishes(job, s, t, f)
  {
    hide PastChecks, WorkerInRange, MainInRange, IoInRange, Count, CpuHolds;
    if Count(job, f) != 0 {
      if Finishes(job, s, t, f) {
        var v :| 0 <= v < |s.cpu| && CpuHolds(s.cpu[v], f) && PastChecks(job, s.cpu[v], t);
        assert CpuHolds(u.cpu[v], f) && PastChecks(job, u.cpu[v], t);
      }
      if Finishes(job, u, t, f) {
        var v :| 0 <= v < |u.cpu| && CpuHolds(u.cpu[v], f) && PastChecks(job, u.cpu[v], t);
        assert CpuHolds(s.cpu[v], f) && PastChecks(job, s.cpu[v], t);
      }
    }
  }

  lemma TakenTask(job: Job, s: State, w: nat, t: State)
    requires InRange(job, s) && CpuEnabled(s, w) && s.cpu[w].CpuIdle?
    requires InRange(job, CpuStep(job, s, w))
    ensures var u := CpuStep(job, s, w);
            && u.cpu == s.cpu[w := u.cpu[w]] && !u.cpu[w].CpuIdle? && u.fileReady == s.fileReady
            && (PastChecks(job, u.cpu[w], t) <==> Count(job, u.cpu[w].file) == 0)
  {
    hide Count, MainInRange, IoInRange;
    assert WorkerInRange(job, CpuStep(job, s, w).cpu[w]);
  }

  /** What a step of a busy worker does, in terms of its move. */
  lemma MovedTask(job: Job, s: State, w: nat)
    requires InRange(job, s) && CpuEnabled(s, w) && !s.cpu[w].CpuIdle?
    ensures CanMove(s.cpu[w], s.blockReady) && WorkerInRange(job, s.cpu[w])
    ensures var u := CpuStep(job, s, w);
            && u.cpu == s.cpu[w := u.cpu[w]]
            && match MoveOf(job, s.cpu[w], s.stop, s.blockReady)
               case Become(c') => u.cpu[w] == c' && u.fileReady == s.fileReady
               case Deliver(r) => u.cpu[w].CpuIdle? && u.fileReady == s.fileReady[s.cpu[w].file := r]
  {
    hide MoveOf, MainInRange, IoInRange, Count;
  }

  lemma FilesAtCpuStep(job: Job, s: State, w: nat, f: nat, t: State)
    requires Inv(job, s) && InRange(job, s) && InOrder(job, s) && CpuEnabled(s, w) && s.stop
    requires f < |job.files| && f !in s.fileReady
    requires InRange(job, CpuStep(job, s, w)) && ResultsKept(s, t)
    ensures var u := CpuStep(job, s, w);
            if f in u.fileReady then u.fileReady[f].Ok? <==> FileResult(job, f).Ok? && Finishes(job, s, t, f)
            else Finishes(job, u, t, f) <==> Finishes(job, s, t, f)
  {
    var c, u := s.cpu[w], CpuStep(job, s, w);
    if c.CpuIdle? {
      TakenTask(job, s, w, t);
      hide Inv, InRange, InOrder, CpuStep, PastChecks, Finishes, Count, FileResult;
      OthersFinish(job, s, u, t, w, f);
    } else {
      MovedTask(job, s, w);
      WorkerIsRight(job, s, w);
      hide Inv, InRange, InOrder, CpuStep, PastChecks, Finishes, Count, FileResult, MoveOf, WorkerRight, BlocksRight,
           CanMove;
      MoveAfterStop(job, c, s, t);
      TasksOrderly(job, s);
      hide ResultsKept;
      if f in u.fileReady {
        HolderFinishes(job, s, t, w, f);
      } else {
        OthersFinish(job, s, u, t, w, f);
      }
    }
  }

  lemma TasksOrderly(job: Job, s: State)
    requires job.blockBytes > 0 && InOrder(job, s)
    ensures Orderly(TaskWork(s))
  {
    hide Orderly;
  }

  lemma WorkerIsRight(job: Job, s: State, w: nat)
    requires Inv(job, s) && w < |s.cpu|
    ensures WorkerInRange(job, s.cpu[w]) && WorkerRight(job, s.cpu[w]) && BlocksRight(job, s.stop, s.blockReady)
    ensures ValidJob(job)
  {
    hide WorkerRight, BlocksRight;
  }

  lemma FilesAtStep(job: Job, s: State, a: Action, f: nat, t: State)
    requires Inv(job, s) && InRange(job, s) && InOrder(job, s) && Enabled(s, a) && s.stop
    requires f < |job.files| && f !in s.fileReady && InRange(job, Apply(job, s, a)) && ResultsKept(s, t)
    ensures var u := Apply(job, s, a);
            if f in u.fileReady then u.fileReady[f].Ok? <==> FileResult(job, f).Ok? && Finishes(job, s, t, f)
            else Finishes(job, u, t, f) <==> Finishes(job, s, t, f)
  {
    hide Inv, InRange, InOrder, MainStep, IoStep, CpuStep, MainEnabled, CpuEnabled, IoEnabled, FileResult, PastChecks;
    match a
    case Main => MainFrame(job, s);
    case Io(w) => IoFrame(job, s, w);
    case Cpu(w) => FilesAtCpuStep(job, s, w, f, t);
    case RequestStop =>
  }

  /** After a stop only the files whose task is past its last check are still prepared: a file delivered
      later is prepared exactly when it would be without the stop and its task has no check ahead. */
  lemma {:induction false} FilesAfterStop(job: Job, s: State, schedule: seq<Action>, f: nat)
    requires ValidJob(job) && Inv(job, s) && InOrder(job, s) && s.stop && Legal(job, s, schedule)
    requires f < |job.files| && f !in s.fileReady && f in After(job, s, schedule).fileReady
    ensures InRange(job, s)
    ensures After(job, s, schedule).fileReady[f].Ok?
            <==> FileResult(job, f).Ok? && Finishes(job, s, After(job, s, schedule), f)
    decreases |schedule|
  {
    var a, t := schedule[0], After(job, s, schedule);
    ShapeInRange(job, s);
    StepKeepsInv(job, s, a);
    StepKeepsOrder(job, s, a);
    ResultsStay(job, s, schedule);
    ShapeInRange(job, Apply(job, s, a));
    hide Inv, InOrder, InRange, Apply, Enabled, FileResult, Finishes;
    var u := Apply(job, s, a);
    FilesAtStep(job, s, a, f, t);
    StopKept(job, s, a);
    if f in u.fileReady {
      ResultsStay(job, u, schedule[1..]);
    } else {
      FilesAfterStop(job, u, schedule[1..], f);
    }
  }

  // ---- Jobs without inputs -----------------------------------------------------------------------

  lemma {:induction false} DoneIsFinal(job: Job, s: State, schedule: seq<Action>)
    requires ValidJob(job) && Inv(job, s) && Legal(job, s, schedule) && s.main.Done?
    ensures var t := After(job, s, schedule); t.main == s.main && t.writer == s.writer && t.submitted == s.submitted
    decreases |schedule|
  {
    if schedule != [] {
      ShapeInRange(job, s);
      StepKeepsInv(job, s, schedule[0]);
      assert !schedule[0].Main?;
      OthersLeaveMain(job, s, schedule[0]);
      hide Inv, InRange, Apply, Enabled;
      DoneIsFinal(job, Apply(job, s, schedule[0]), schedule[1..]);
    }
  }

  /** A job without inputs is refused, whatever happens, and queues, reads and writes nothing. */
  lemma NoInputsRefused(job: Job, schedule: seq<Action>)
    requires ValidJob(job) && job.files == [] && Run(job, schedule)
    ensures var t := Final(job, schedule);
            && t.main == Done(Err(Error(InvalidArgument, "no input files"))) && t.writer == []
            && t.ioQueue == [] && t.cpuQueue == [] && t.blockReady == map[] && t.fileReady == map[]
  {
    InitInv(job);
    DoneIsFinal(job, Init(job), schedule);
    StartedInOrder(job, schedule);
    NothingIssued(job, Final(job, schedule));
  }
}
