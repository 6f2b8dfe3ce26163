/** Each read and each file task is started in order, done by one worker, and done once. */
module PipelineOrder {
  import opened Common
  import opened AsyncReader
  import opened SizeRouter
  import opened Pipeline
  import opened PipelineSafety
  import opened PipelineRuns

  // ---- One pool ----------------------------------------------------------------------------

  /** A block read is (file, block); a file task is (file, 0). */
  type Key = (nat, nat)

  predicate Before(x: Key, y: Key) {
    x.0 < y.0 || (x.0 == y.0 && x.1 < y.1)
  }

  /** The work of a pool: what is queued, what each worker holds, and what has its result. */
  datatype Work = Work(queue: seq<Key>, held: seq<Option<Key>>, ready: set<Key>)

  /** Work leaves the queue in order, no two workers hold the same, and what has a result is neither
      queued nor held. */
  ghost predicate Orderly(p: Work) {
    && (forall i, j :: 0 <= i < j < |p.queue| ==> Before(p.queue[i], p.queue[j]))
    && (forall x, y :: x in p.ready && y in p.queue ==> Before(x, y))
    && (forall w, y :: 0 <= w < |p.held| && p.held[w].Some? && y in p.queue ==> Before(p.held[w].value, y))
    && (forall v, w :: 0 <= v < w < |p.held| && p.held[v].Some? ==> p.held[v] != p.held[w])
    && (forall w :: 0 <= w < |p.held| && p.held[w].Some? ==> p.held[w].value !in p.ready)
  }

  ghost predicate AllBefore(p: Work, k: Key) {
    && (forall x :: x in p.queue ==> Before(x, k))
    && (forall w :: 0 <= w < |p.held| && p.held[w].Some? ==> Before(p.held[w].value, k))
    && (forall x :: x in p.ready ==> Before(x, k))
  }

  lemma QueueKeepsOrder(p: Work, k: Key)
    requires Orderly(p) && AllBefore(p, k)
    ensures Orderly(p.(queue := p.queue + [k]))
  {
  }

  lemma TakeKeepsOrder(p: Work, w: nat)
    requires Orderly(p) && w < |p.held| && p.held[w].None? && p.queue != []
    ensures Orderly(p.(queue := p.queue[1..], held := p.held[w := Some(p.queue[0])]))
  {
    var rest := p.queue[1..];
    assert forall y :: y in rest ==> y in p.queue && Before(p.queue[0], y) && y != p.queue[0];
    assert p.queue[0] in p.queue;
    assert forall x :: x in p.ready ==> x != p.queue[0];
  }

  lemma DeliverKeepsOrder(p: Work, w: nat)
    requires Orderly(p) && w < |p.held| && p.held[w].Some?
    ensures Orderly(p.(held := p.held[w := None], ready := p.ready + {p.held[w].value}))
  {
  }

  /** Worker `w` starts the oldest work, delivers what it holds, or goes on with it. */
  ghost predicate Moves(p: Work, q: Work, w: nat) {
    && w < |p.held|
    && (p == q
        || (p.held[w].None? && p.queue != []
            && q == p.(queue := p.queue[1..], held := p.held[w := Some(p.queue[0])]))
        || (p.held[w].Some? && q == p.(held := p.held[w := None], ready := p.ready + {p.held[w].value})))
  }

  lemma MovesKeepOrder(p: Work, q: Work, w: nat)
    requires Orderly(p) && Moves(p, q, w)
    ensures Orderly(q)
  {
    hide Orderly;
    if p.held[w].None? && p.queue != [] {
      TakeKeepsOrder(p, w);
    }
    if p.held[w].Some? {
      DeliverKeepsOrder(p, w);
    }
  }

  // ---- The two pools of a job ------------------------------------------------------------------

  function ReadHeld(c: IoWorker): Option<Key> {
    if c.IoIdle? then None else Some((c.file, c.block))
  }

  function TaskHeld(c: CpuWorker): Option<Key> {
    if c.CpuIdle? then None else Some((c.file, 0))
  }

  function ReadWork(s: State): (p: Work)
    ensures |p.held| == |s.io| && forall w :: 0 <= w < |s.io| ==> p.held[w] == ReadHeld(s.io[w])
    ensures p.queue == s.ioQueue && forall k :: k in p.ready <==> k in s.blockReady
  {
    Work(s.ioQueue, seq(|s.io|, w requires 0 <= w < |s.io| => ReadHeld(s.io[w])), s.blockReady.Keys)
  }

  function TaskWork(s: State): (p: Work)
    ensures |p.held| == |s.cpu| && forall w :: 0 <= w < |s.cpu| ==> p.held[w] == TaskHeld(s.cpu[w])
    ensures |p.queue| == |s.cpuQueue| && forall i :: 0 <= i < |p.queue| ==> p.queue[i] == (s.cpuQueue[i], 0)
    ensures forall k :: k in p.queue <==> k.1 == 0 && k.0 in s.cpuQueue
    ensures forall k :: k in p.ready <==> k.1 == 0 && k.0 in s.fileReady
  {
    Work(seq(|s.cpuQueue|, i requires 0 <= i < |s.cpuQueue| => (s.cpuQueue[i], 0)),
         seq(|s.cpu|, w requires 0 <= w < |s.cpu| => TaskHeld(s.cpu[w])), set f | f in s.fileReady :: (f, 0))
  }

  /** Only what has been issued is queued, held or done. */
  ghost predicate ReadsIssued(job: Job, s: State)
    requires job.blockBytes > 0
  {
    && (forall k :: k in s.ioQueue ==> Issued(job, s.main, s.submitted, k.0, k.1))
    && (forall w :: 0 <= w < |s.io| && !s.io[w].IoIdle? ==>
          Issued(job, s.main, s.submitted, s.io[w].file, s.io[w].block))
    && (forall k :: k in s.blockReady ==> Issued(job, s.main, s.submitted, k.0, k.1))
  }

  ghost predicate TasksIssued(s: State) {
    && TasksSubmitted(s.submitted, s.cpuQueue, s.cpu)
    && (forall f :: f in s.fileReady ==> f < s.submitted)
  }

  ghost predicate InOrder(job: Job, s: State)
    requires job.blockBytes > 0
  {
    Orderly(ReadWork(s)) && Orderly(TaskWork(s)) && ReadsIssued(job, s) && TasksIssued(s)
  }

  lemma InitInOrder(job: Job)
    requires ValidJob(job)
    ensures InOrder(job, Init(job))
  {
  }

  // ---- Steps -----------------------------------------------------------------------------------

  lemma IssuedStays(job: Job, s: State, f: nat, b: nat)
    requires InRange(job, s) && MainEnabled(s) && Issued(job, s.main, s.submitted, f, b)
    requires s.main.CheckDrain? || s.main.AwaitFile? || s.main.Finishing? ==> s.submitted == |job.files|
    ensures var t := MainStep(job, s); Issued(job, t.main, t.submitted, f, b)
  {
    hide Count, IoInRange, CpuInRange, DrainStep, FinishStep;
    MainFrame(job, s);
    match s.main
    case CheckSubmit =>
    case SubmitBlock(_) =>
    case SubmitTask =>
    case CheckDrain =>
    case AwaitFile =>
    case Finishing =>
  }

  lemma SameWork(p: Work, q: Work)
    requires p.queue == q.queue && p.held == q.held && forall k :: k in p.ready <==> k in q.ready
    ensures p == q
  {
  }

  /** What the main thread queues comes after everything it queued before. */
  lemma MainQueuesNext(job: Job, s: State)
    requires InRange(job, s) && MainEnabled(s) && ReadsIssued(job, s) && TasksIssued(s)
    ensures var t := MainStep(job, s);
            && t.io == s.io && t.cpu == s.cpu && t.blockReady == s.blockReady && t.fileReady == s.fileReady
            && (t.ioQueue == s.ioQueue
                || exists k :: AllBefore(ReadWork(s), k) && t.ioQueue == s.ioQueue + [k]
                               && Issued(job, t.main, t.submitted, k.0, k.1))
            && (t.cpuQueue == s.cpuQueue
                || (AllBefore(TaskWork(s), (s.submitted, 0)) && t.cpuQueue == s.cpuQueue + [s.submitted]
                    && t.submitted == s.submitted + 1))
            && s.submitted <= t.submitted
  {
    hide Count, IoInRange, CpuInRange, DrainStep, FinishStep, ReadWork, TaskWork;
    MainFrame(job, s);
    match s.main
    case CheckSubmit =>
    case SubmitBlock(j) =>
      if j != Count(job, s.submitted) {
        ReadComesLast(job, s, j);
      }
    case SubmitTask => TaskComesLast(s);
    case CheckDrain =>
    case AwaitFile =>
    case Finishing =>
  }

  lemma ReadComesLast(job: Job, s: State, j: nat)
    requires job.blockBytes > 0 && ReadsIssued(job, s) && s.main == SubmitBlock(j)
    ensures AllBefore(ReadWork(s), (s.submitted, j))
  {
    hide BlockInRange;
  }

  lemma TaskComesLast(s: State)
    requires TasksIssued(s)
    ensures AllBefore(TaskWork(s), (s.submitted, 0))
  {
  }

  lemma MainKeepsOrder(job: Job, s: State)
    requires Inv(job, s) && MainEnabled(s) && InOrder(job, s)
    ensures InOrder(job, MainStep(job, s))
  {
    MainQueuesNext(job, s);
    MainKeepsIssued(job, s);
    hide MainStep, Inv, InRange, AllBefore, Orderly, ReadsIssued, TasksIssued;
    ReadsKeepOrder(s, MainStep(job, s));
    TasksKeepOrder(s, MainStep(job, s));
  }

  lemma ReadsKeepOrder(s: State, t: State)
    requires Orderly(ReadWork(s)) && t.io == s.io && t.blockReady == s.blockReady
    requires t.ioQueue == s.ioQueue || exists k :: AllBefore(ReadWork(s), k) && t.ioQueue == s.ioQueue + [k]
    ensures Orderly(ReadWork(t))
  {
    hide AllBefore, Orderly;
    if t.ioQueue != s.ioQueue {
      var k :| AllBefore(ReadWork(s), k) && t.ioQueue == s.ioQueue + [k];
      QueueKeepsOrder(ReadWork(s), k);
      SameWork(ReadWork(t), ReadWork(s).(queue := s.ioQueue + [k]));
    } else {
      SameWork(ReadWork(t), ReadWork(s));
    }
  }

  lemma TasksKeepOrder(s: State, t: State)
    requires Orderly(TaskWork(s)) && t.cpu == s.cpu && t.fileReady == s.fileReady
    requires t.cpuQueue == s.cpuQueue
             || (AllBefore(TaskWork(s), (s.submitted, 0)) && t.cpuQueue == s.cpuQueue + [s.submitted])
    ensures Orderly(TaskWork(t))
  {
    hide AllBefore, Orderly;
    if t.cpuQueue != s.cpuQueue {
      QueueKeepsOrder(TaskWork(s), (s.submitted, 0));
      SameWork(TaskWork(t), TaskWork(s).(queue := TaskWork(s).queue + [(s.submitted, 0)]));
    } else {
      SameWork(TaskWork(t), TaskWork(s));
    }
  }

  lemma MainKeepsIssued(job: Job, s: State)
    requires Inv(job, s) && MainEnabled(s) && InOrder(job, s)
    ensures ReadsIssued(job, MainStep(job, s)) && TasksIssued(MainStep(job, s))
  {
    var t := MainStep(job, s);
    MainKeepsInv(job, s);
    MainQueuesNext(job, s);
    forall f: nat, b: nat | Issued(job, s.main, s.submitted, f, b)
      ensures Issued(job, t.main, t.submitted, f, b)
    {
      IssuedStays(job, s, f, b);
    }
    hide MainStep, Orderly, Issued, AllBefore, InRange, WriterRight, MainRight, FilesRight, BlocksRight, WorkersRight,
         BlocksTracked, FilesTracked, MutexRight;
  }

  lemma IoMoves(job: Job, s: State, w: nat)
    requires InRange(job, s) && IoEnabled(s, w)
    ensures Moves(ReadWork(s), ReadWork(IoStep(job, s, w)), w)
  {
    hide InRange, BlockOf;
    var p, t := ReadWork(s), IoStep(job, s, w);
    match s.io[w]
    case IoIdle => SameWork(ReadWork(t), p.(queue := p.queue[1..], held := p.held[w := Some(p.queue[0])]));
    case IoTaken(f, b) =>
      if s.stop {
        SameWork(ReadWork(t), p.(held := p.held[w := None], ready := p.ready + {(f, b)}));
      } else {
        SameWork(ReadWork(t), p);
      }
    case IoReading(f, b) => SameWork(ReadWork(t), p.(held := p.held[w := None], ready := p.ready + {(f, b)}));
  }

  lemma IoKeepsIssued(job: Job, s: State, w: nat)
    requires InRange(job, s) && IoEnabled(s, w) && ReadsIssued(job, s)
    ensures ReadsIssued(job, IoStep(job, s, w))
  {
    hide InRange, BlockOf, Issued;
    if s.io[w].IoIdle? {
      assert s.ioQueue[0] in s.ioQueue;
    }
  }

  lemma IoKeepsOrder(job: Job, s: State, w: nat)
    requires InRange(job, s) && IoEnabled(s, w) && InOrder(job, s)
    ensures InOrder(job, IoStep(job, s, w))
  {
    IoFrame(job, s, w);
    IoMoves(job, s, w);
    IoKeepsIssued(job, s, w);
    MovesKeepOrder(ReadWork(s), ReadWork(IoStep(job, s, w)), w);
    SameWork(TaskWork(IoStep(job, s, w)), TaskWork(s));
    hide IoStep, InRange, Orderly, Issued, Moves;
  }

  lemma CpuFrame(job: Job, s: State, w: nat)
    requires Inv(job, s) && CpuEnabled(s, w)
    ensures var t := CpuStep(job, s, w);
            && t == s.(cpu := t.cpu, cpuQueue := t.cpuQueue, gpuOwner := t.gpuOwner, fileReady := t.fileReady)
            && |t.cpu| == |s.cpu| && t.cpu == s.cpu[w := t.cpu[w]]
            && (if s.cpu[w].CpuIdle? then
                  t.cpuQueue == s.cpuQueue[1..] && TaskHeld(t.cpu[w]) == Some((s.cpuQueue[0], 0))
                  && t.fileReady == s.fileReady
                else
                  t.cpuQueue == s.cpuQueue
                  && (if t.cpu[w].CpuIdle? then t.fileReady.Keys == s.fileReady.Keys + {s.cpu[w].file}
                      else t.fileReady == s.fileReady && t.cpu[w].file == s.cpu[w].file))
  {
    hide BlocksTracked, FilesTracked, BlocksRight, FilesRight, WorkersRight, MutexRight, TasksSubmitted, WriterRight,
         MainRight, ValidJob, MainInRange, IoInRange, GpuResult;
    assert !s.cpu[w].CpuIdle? ==> WorkerInRange(job, s.cpu[w]);
    hide Count;
  }

  lemma CpuMoves(job: Job, s: State, w: nat)
    requires Inv(job, s) && CpuEnabled(s, w)
    ensures Moves(TaskWork(s), TaskWork(CpuStep(job, s, w)), w)
  {
    CpuFrame(job, s, w);
    hide Inv, CpuStep, Moves;
    WorkMoves(s, CpuStep(job, s, w), w);
  }

  lemma WorkMoves(s: State, t: State, w: nat)
    requires w < |s.cpu| == |t.cpu| && t.cpu == s.cpu[w := t.cpu[w]]
    requires if s.cpu[w].CpuIdle? then
               s.cpuQueue != [] && t.cpuQueue == s.cpuQueue[1..]
               && TaskHeld(t.cpu[w]) == Some((s.cpuQueue[0], 0)) && t.fileReady == s.fileReady
             else
               t.cpuQueue == s.cpuQueue
               && (if t.cpu[w].CpuIdle? then t.fileReady.Keys == s.fileReady.Keys + {s.cpu[w].file}
                   else t.fileReady == s.fileReady && t.cpu[w].file == s.cpu[w].file)
    ensures Moves(TaskWork(s), TaskWork(t), w)
  {
    var p := TaskWork(s);
    if s.cpu[w].CpuIdle? {
      SameWork(TaskWork(t), p.(queue := p.queue[1..], held := p.held[w := Some(p.queue[0])]));
    } else if t.cpu[w].CpuIdle? {
      SameWork(TaskWork(t), p.(held := p.held[w := None], ready := p.ready + {p.held[w].value}));
    } else {
      SameWork(TaskWork(t), p);
    }
  }

  lemma CpuKeepsIssued(job: Job, s: State, w: nat)
    requires Inv(job, s) && CpuEnabled(s, w) && TasksIssued(s)
    ensures TasksIssued(CpuStep(job, s, w))
  {
    CpuFrame(job, s, w);
    CpuKeepsInv(job, s, w);
    hide CpuStep, InRange, WriterRight, MainRight, FilesRight, BlocksRight, WorkersRight,
         BlocksTracked, FilesTracked, MutexRight;
  }

  lemma CpuKeepsOrder(job: Job, s: State, w: nat)
    requires Inv(job, s) && CpuEnabled(s, w) && InOrder(job, s)
    ensures InOrder(job, CpuStep(job, s, w))
  {
    CpuFrame(job, s, w);
    CpuMoves(job, s, w);
    CpuKeepsIssued(job, s, w);
    MovesKeepOrder(TaskWork(s), TaskWork(CpuStep(job, s, w)), w);
    SameWork(ReadWork(CpuStep(job, s, w)), ReadWork(s));
    hide CpuStep, Inv, InRange, Orderly, Issued, Moves;
  }

  lemma ShapeInRange(job: Job, s: State)
    requires Inv(job, s)
    ensures InRange(job, s)
  {
  }

  lemma StepKeepsOrder(job: Job, s: State, a: Action)
    requires Inv(job, s) && Enabled(s, a) && InOrder(job, s)
    ensures InOrder(job, Apply(job, s, a))
  {
    ShapeInRange(job, s);
    hide Inv, MainStep, IoStep, CpuStep, MainEnabled, IoEnabled, CpuEnabled, Orderly, Issued, InRange;
    match a
    case Main => MainKeepsOrder(job, s);
    case Io(w) => IoKeepsOrder(job, s, w);
    case Cpu(w) => CpuKeepsOrder(job, s, w);
    case RequestStop =>
      SameWork(ReadWork(Apply(job, s, a)), ReadWork(s));
      SameWork(TaskWork(Apply(job, s, a)), TaskWork(s));
  }

  // ---- Results are final --------------------------------------------------------------------------

  /** Every result of `s` is still there in `t`, unchanged. */
  ghost predicate ResultsKept(s: State, t: State) {
    && (forall k :: k in s.blockReady ==> k in t.blockReady && t.blockReady[k] == s.blockReady[k])
    && (forall f :: f in s.fileReady ==> f in t.fileReady && t.fileReady[f] == s.fileReady[f])
  }

  lemma IoKeepsResults(job: Job, s: State, w: nat)
    requires InRange(job, s) && IoEnabled(s, w) && Orderly(ReadWork(s))
    ensures ResultsKept(s, IoStep(job, s, w))
  {
    hide InRange, BlockOf;
    assert ReadWork(s).held[w] == ReadHeld(s.io[w]);
  }

  lemma CpuKeepsResults(job: Job, s: State, w: nat)
    requires InRange(job, s) && CpuEnabled(s, w) && Orderly(TaskWork(s))
    ensures ResultsKept(s, CpuStep(job, s, w))
  {
    hide InRange, MoveOf, UsesGpu;
    assert TaskWork(s).held[w] == TaskHeld(s.cpu[w]);
  }

  lemma StepKeepsResults(job: Job, s: State, a: Action)
    requires Inv(job, s) && Enabled(s, a) && InOrder(job, s)
    ensures ResultsKept(s, Apply(job, s, a))
  {
    ShapeInRange(job, s);
    hide Inv, MainStep, IoStep, CpuStep, MainEnabled, IoEnabled, CpuEnabled, Orderly, InRange, ReadsIssued, TasksIssued;
    match a
    case Main => MainFrame(job, s);
    case Io(w) => IoKeepsResults(job, s, w);
    case Cpu(w) => CpuKeepsResults(job, s, w);
    case RequestStop =>
  }

  /** Whatever happens later, no result changes: nothing is read or prepared twice. */
  lemma {:induction false} ResultsStay(job: Job, s: State, schedule: seq<Action>)
    requires ValidJob(job) && Inv(job, s) && InOrder(job, s) && Legal(job, s, schedule)
    ensures InOrder(job, After(job, s, schedule)) && ResultsKept(s, After(job, s, schedule))
    decreases |schedule|
  {
    hide Inv, InOrder, Enabled, Apply, InRange;
    if schedule != [] {
      ShapeInRange(job, s);
      StepKeepsInv(job, s, schedule[0]);
      StepKeepsOrder(job, s, schedule[0]);
      StepKeepsResults(job, s, schedule[0]);
      ResultsStay(job, Apply(job, s, schedule[0]), schedule[1..]);
    }
  }

  /** At every point of every run: reads and tasks have been started in file and block order, each by one
      worker, and none that has its result is started again. */
  lemma StartedInOrder(job: Job, schedule: seq<Action>)
    requires ValidJob(job) && Run(job, schedule)
    ensures Orderly(ReadWork(Final(job, schedule))) && Orderly(TaskWork(Final(job, schedule)))
    ensures InOrder(job, Final(job, schedule))
  {
    InitInv(job);
    InitInOrder(job);
    hide Inv, Legal, After;
    ResultsStay(job, Init(job), schedule);
  }
}
