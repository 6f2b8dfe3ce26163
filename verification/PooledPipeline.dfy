/**
 The job on pools whose idle workers sleep: a worker that finds its queue empty goes to sleep, and only a
 notification, sent some time after the task was queued, or a spurious wakeup lets it look again. Every
 run is still a run of the job as modelled without sleep, and nothing is lost by sleeping.
 */
module PooledPipeline {
  import opened Common
  import opened Counting
  import opened Pipeline
  import opened PipelineSafety
  import opened PipelineRuns

  // ---- One pool ----------------------------------------------------------------------------

  /** A busy worker counts as awake. */
  datatype Mode = Awake | Asleep | Woken

  datatype Pool = Pool(modes: seq<Mode>, pending: nat)

  function Sleepers(modes: seq<Mode>): nat { CountIf(modes, (m: Mode) => m.Asleep?) }
  function WokenUp(modes: seq<Mode>): nat { CountIf(modes, (m: Mode) => m.Woken?) }

  /** Busy workers are awake, and a worker sleeps only if every queued task has a notification on its way
      or a woken worker. */
  ghost predicate PoolInv(p: Pool, idle: seq<bool>, queued: nat) {
    && |p.modes| == |idle|
    && (forall w :: 0 <= w < |idle| && !idle[w] ==> p.modes[w] == Awake)
    && (Sleepers(p.modes) > 0 ==> queued <= p.pending + WokenUp(p.modes))
  }

  function Queued(p: Pool, more: bool): Pool {
    if more then p.(pending := p.pending + 1) else p
  }

  function Moved(p: Pool, w: nat, m: Mode): Pool
    requires w < |p.modes|
  {
    p.(modes := p.modes[w := m])
  }

  predicate CanNotify(p: Pool, target: Option<nat>) {
    && p.pending > 0
    && match target
       case Some(w) => w < |p.modes| && p.modes[w].Asleep?
       case None => Asleep !in p.modes
  }

  function Notified(p: Pool, target: Option<nat>): Pool
    requires CanNotify(p, target)
  {
    var q := p.(pending := p.pending - 1);
    match target
    case Some(w) => Moved(q, w, Woken)
    case None => q
  }

  lemma ModeCounts(modes: seq<Mode>, w: nat, m: Mode)
    requires w < |modes|
    ensures Sleepers(modes[w := m]) + (if modes[w].Asleep? then 1 else 0)
            == Sleepers(modes) + (if m.Asleep? then 1 else 0)
    ensures WokenUp(modes[w := m]) + (if modes[w].Woken? then 1 else 0) == WokenUp(modes) + (if m.Woken? then 1 else 0)
  {
    CountUpdate(modes, w, m, (m: Mode) => m.Asleep?);
    CountUpdate(modes, w, m, (m: Mode) => m.Woken?);
  }

  lemma SleepersSome(modes: seq<Mode>)
    ensures Sleepers(modes) > 0 <==> Asleep in modes
    ensures WokenUp(modes) > 0 <==> Woken in modes
  {
    CountSome(modes, (m: Mode) => m.Asleep?);
    CountSome(modes, (m: Mode) => m.Woken?);
  }

  /** An idle worker that is not asleep takes a task. */
  lemma TakeKeepsPool(p: Pool, idle: seq<bool>, queued: nat, w: nat)
    requires PoolInv(p, idle, queued) && w < |idle| && idle[w] && !p.modes[w].Asleep? && queued > 0
    ensures PoolInv(Moved(p, w, Awake), idle[w := false], queued - 1)
  {
    hide Sleepers, WokenUp;
    ModeCounts(p.modes, w, Awake);
  }

  /** An idle worker that finds nothing goes to sleep. */
  lemma SleepKeepsPool(p: Pool, idle: seq<bool>, w: nat)
    requires PoolInv(p, idle, 0) && w < |idle| && idle[w]
    ensures PoolInv(Moved(p, w, Asleep), idle, 0)
  {
    hide Sleepers, WokenUp;
  }

  lemma NotifyKeepsPool(p: Pool, idle: seq<bool>, queued: nat, target: Option<nat>)
    requires PoolInv(p, idle, queued) && CanNotify(p, target)
    ensures PoolInv(Notified(p, target), idle, queued)
  {
    SleepersSome(p.modes);
    hide Sleepers, WokenUp;
    match target
    case Some(w) => ModeCounts(p.modes, w, Woken);
    case None =>
  }

  lemma WakeKeepsPool(p: Pool, idle: seq<bool>, queued: nat, w: nat)
    requires PoolInv(p, idle, queued) && w < |idle| && p.modes[w].Asleep?
    ensures PoolInv(Moved(p, w, Woken), idle, queued)
  {
    hide Sleepers, WokenUp;
    ModeCounts(p.modes, w, Woken);
  }

  // ---- The job on two pools ----------------------------------------------------------------------

  datatype Pooled = Pooled(s: State, io: Pool, cpu: Pool)

  datatype PooledAction =
    | Step(a: Action)
    | SleepIo(w: nat) | NotifyIo(target: Option<nat>) | SpuriousIo(w: nat)
    | SleepCpu(w: nat) | NotifyCpu(target: Option<nat>) | SpuriousCpu(w: nat)

  function IdleIo(s: State): (idle: seq<bool>)
    ensures |idle| == |s.io| && forall w :: 0 <= w < |idle| ==> idle[w] == s.io[w].IoIdle?
  {
    seq(|s.io|, w requires 0 <= w < |s.io| => s.io[w].IoIdle?)
  }

  function IdleCpu(s: State): (idle: seq<bool>)
    ensures |idle| == |s.cpu| && forall w :: 0 <= w < |idle| ==> idle[w] == s.cpu[w].CpuIdle?
  {
    seq(|s.cpu|, w requires 0 <= w < |s.cpu| => s.cpu[w].CpuIdle?)
  }

  ghost predicate PooledInv(job: Job, p: Pooled) {
    Inv(job, p.s) && PoolInv(p.io, IdleIo(p.s), |p.s.ioQueue|) && PoolInv(p.cpu, IdleCpu(p.s), |p.s.cpuQueue|)
  }

  predicate Sized(p: Pooled) {
    |p.io.modes| == |p.s.io| && |p.cpu.modes| == |p.s.cpu|
  }

  /** A sleeping worker takes no step; a worker sleeps only when its queue is empty. */
  predicate CanAct(p: Pooled, a: PooledAction)
    requires Sized(p)
  {
    match a
    case Step(a) =>
      && Enabled(p.s, a)
      && (a.Io? ==> !p.io.modes[a.w].Asleep?)
      && (a.Cpu? ==> !p.cpu.modes[a.w].Asleep?)
    case SleepIo(w) => w < |p.s.io| && p.s.io[w].IoIdle? && !p.io.modes[w].Asleep? && p.s.ioQueue == []
    case SleepCpu(w) => w < |p.s.cpu| && p.s.cpu[w].CpuIdle? && !p.cpu.modes[w].Asleep? && p.s.cpuQueue == []
    case NotifyIo(target) => CanNotify(p.io, target)
    case NotifyCpu(target) => CanNotify(p.cpu, target)
    case SpuriousIo(w) => w < |p.s.io| && p.io.modes[w].Asleep?
    case SpuriousCpu(w) => w < |p.s.cpu| && p.cpu.modes[w].Asleep?
  }

  /** Queueing a task leaves a notification to be sent; taking one ends the worker's wait. */
  ghost function StepOn(p: Pooled, a: Action, t: State): Pooled
    requires Sized(p) && Enabled(p.s, a)
  {
    Pooled(t,
           if a.Io? then Moved(p.io, a.w, Awake) else Queued(p.io, |t.ioQueue| > |p.s.ioQueue|),
           if a.Cpu? then Moved(p.cpu, a.w, Awake) else Queued(p.cpu, |t.cpuQueue| > |p.s.cpuQueue|))
  }

  ghost function Act(job: Job, p: Pooled, a: PooledAction): Pooled
    requires InRange(job, p.s) && Sized(p) && CanAct(p, a)
  {
    match a
    case Step(a) => StepOn(p, a, Apply(job, p.s, a))
    case SleepIo(w) => p.(io := Moved(p.io, w, Asleep))
    case SleepCpu(w) => p.(cpu := Moved(p.cpu, w, Asleep))
    case NotifyIo(target) => p.(io := Notified(p.io, target))
    case NotifyCpu(target) => p.(cpu := Notified(p.cpu, target))
    case SpuriousIo(w) => p.(io := Moved(p.io, w, Woken))
    case SpuriousCpu(w) => p.(cpu := Moved(p.cpu, w, Woken))
  }

  // ---- The invariant ----------------------------------------------------------------------------------

  /** What each kind of step does to the queues and to who is idle. */
  lemma MainQueues(job: Job, s: State)
    requires InRange(job, s) && MainEnabled(s)
    ensures var t := MainStep(job, s);
            && t.io == s.io && t.cpu == s.cpu
            && |s.ioQueue| <= |t.ioQueue| <= |s.ioQueue| + 1 && |s.cpuQueue| <= |t.cpuQueue| <= |s.cpuQueue| + 1
            && (|t.ioQueue| == |s.ioQueue| || |t.cpuQueue| == |s.cpuQueue|)
  {
    hide WorkerInRange, Count, MainInRange, IoInRange, CpuInRange, DrainStep, FinishStep;
    match s.main
    case CheckSubmit =>
    case SubmitBlock(_) =>
    case SubmitTask =>
    case CheckDrain =>
    case AwaitFile =>
    case Finishing =>
  }

  lemma IoQueues(job: Job, s: State, w: nat)
    requires InRange(job, s) && IoEnabled(s, w)
    ensures var t := IoStep(job, s, w);
            && t.cpu == s.cpu && t.cpuQueue == s.cpuQueue && |t.io| == |s.io| && t.io == s.io[w := t.io[w]]
            && (if s.io[w].IoIdle? then !t.io[w].IoIdle? && |t.ioQueue| == |s.ioQueue| - 1 else t.ioQueue == s.ioQueue)
  {
    hide BlockOf, MainInRange, CpuInRange, IoInRange;
  }

  lemma CpuQueues(job: Job, s: State, w: nat)
    requires InRange(job, s) && CpuEnabled(s, w)
    ensures var t := CpuStep(job, s, w);
            && t.io == s.io && t.ioQueue == s.ioQueue && |t.cpu| == |s.cpu| && t.cpu == s.cpu[w := t.cpu[w]]
            && (if s.cpu[w].CpuIdle? then !t.cpu[w].CpuIdle? && |t.cpuQueue| == |s.cpuQueue| - 1
                else t.cpuQueue == s.cpuQueue)
  {
    hide MoveOf, MainInRange, IoInRange, Count;
  }

  lemma WorkerKeepsPool(p: Pool, idle: seq<bool>, idle': seq<bool>, queued: nat, queued': nat, w: nat)
    requires PoolInv(p, idle, queued) && w < |idle| == |idle'| && idle' == idle[w := idle'[w]] && !p.modes[w].Asleep?
    requires if idle[w] then !idle'[w] && queued' == queued - 1 else queued' == queued
    ensures PoolInv(Moved(p, w, Awake), idle', queued')
  {
    if idle[w] {
      TakeKeepsPool(p, idle, queued, w);
    } else {
      hide Sleepers, WokenUp;
      assert p.modes[w := Awake] == p.modes;
    }
  }

  lemma QueueKeepsPool(p: Pool, idle: seq<bool>, queued: nat, more: bool)
    requires PoolInv(p, idle, queued)
    ensures PoolInv(Queued(p, more), idle, if more then queued + 1 else queued)
  {
    hide Sleepers, WokenUp;
  }

  lemma MainKeepsPools(job: Job, p: Pooled)
    requires InRange(job, p.s) && MainEnabled(p.s)
    requires PoolInv(p.io, IdleIo(p.s), |p.s.ioQueue|) && PoolInv(p.cpu, IdleCpu(p.s), |p.s.cpuQueue|)
    ensures var t := MainStep(job, p.s);
            && PoolInv(Queued(p.io, |t.ioQueue| > |p.s.ioQueue|), IdleIo(t), |t.ioQueue|)
            && PoolInv(Queued(p.cpu, |t.cpuQueue| > |p.s.cpuQueue|), IdleCpu(t), |t.cpuQueue|)
  {
    var s, t := p.s, MainStep(job, p.s);
    hide PoolInv, MainStep, InRange, MainEnabled;
    MainQueues(job, s);
    assert IdleIo(t) == IdleIo(s) && IdleCpu(t) == IdleCpu(s);
    QueueKeepsPool(p.io, IdleIo(s), |s.ioQueue|, |t.ioQueue| > |s.ioQueue|);
    QueueKeepsPool(p.cpu, IdleCpu(s), |s.cpuQueue|, |t.cpuQueue| > |s.cpuQueue|);
  }

  lemma IoKeepsPools(job: Job, p: Pooled, w: nat)
    requires InRange(job, p.s) && IoEnabled(p.s, w) && Sized(p) && !p.io.modes[w].Asleep?
    requires PoolInv(p.io, IdleIo(p.s), |p.s.ioQueue|) && PoolInv(p.cpu, IdleCpu(p.s), |p.s.cpuQueue|)
    ensures var t := IoStep(job, p.s, w);
            && |t.cpuQueue| == |p.s.cpuQueue|
            && PoolInv(Moved(p.io, w, Awake), IdleIo(t), |t.ioQueue|) && PoolInv(p.cpu, IdleCpu(t), |t.cpuQueue|)
  {
    var s, t := p.s, IoStep(job, p.s, w);
    hide PoolInv, IoStep, InRange;
    IoQueues(job, s, w);
    assert IdleCpu(t) == IdleCpu(s) && IdleIo(t) == IdleIo(s)[w := IdleIo(t)[w]];
    WorkerKeepsPool(p.io, IdleIo(s), IdleIo(t), |s.ioQueue|, |t.ioQueue|, w);
  }

  lemma CpuKeepsPools(job: Job, p: Pooled, w: nat)
    requires InRange(job, p.s) && CpuEnabled(p.s, w) && Sized(p) && !p.cpu.modes[w].Asleep?
    requires PoolInv(p.io, IdleIo(p.s), |p.s.ioQueue|) && PoolInv(p.cpu, IdleCpu(p.s), |p.s.cpuQueue|)
    ensures var t := CpuStep(job, p.s, w);
            && |t.ioQueue| == |p.s.ioQueue|
            && PoolInv(p.io, IdleIo(t), |t.ioQueue|) && PoolInv(Moved(p.cpu, w, Awake), IdleCpu(t), |t.cpuQueue|)
  {
    var s, t := p.s, CpuStep(job, p.s, w);
    hide PoolInv, CpuStep, InRange;
    CpuQueues(job, s, w);
    assert IdleIo(t) == IdleIo(s) && IdleCpu(t) == IdleCpu(s)[w := IdleCpu(t)[w]];
    WorkerKeepsPool(p.cpu, IdleCpu(s), IdleCpu(t), |s.cpuQueue|, |t.cpuQueue|, w);
  }

  lemma StepKeepsPools(job: Job, p: Pooled, a: Action)
    requires PooledInv(job, p) && CanAct(p, Step(a))
    ensures PooledInv(job, StepOn(p, a, Apply(job, p.s, a)))
  {
    StepKeepsInv(job, p.s, a);
    InvInRange(job, p.s);
    hide Inv, PoolInv, MainStep, IoStep, CpuStep, InRange, MainEnabled, IoEnabled, CpuEnabled;
    match a
    case Main => MainKeepsPools(job, p);
    case Io(w) => IoKeepsPools(job, p, w);
    case Cpu(w) => CpuKeepsPools(job, p, w);
    case RequestStop =>
      var t := Apply(job, p.s, a);
      assert IdleIo(t) == IdleIo(p.s) && IdleCpu(t) == IdleCpu(p.s);
  }

  lemma InvInRange(job: Job, s: State)
    requires Inv(job, s)
    ensures InRange(job, s)
  {
  }

  lemma PooledFits(job: Job, p: Pooled)
    requires PooledInv(job, p)
    ensures InRange(job, p.s) && Sized(p)
  {
    InvInRange(job, p.s);
    hide Inv, InRange;
  }

  lemma ActKeepsInv(job: Job, p: Pooled, a: PooledAction)
    requires PooledInv(job, p) && CanAct(p, a)
    ensures (PooledFits(job, p); PooledInv(job, Act(job, p, a)))
  {
    PooledFits(job, p);
    if a.Step? {
      StepKeepsPools(job, p, a.a);
    } else {
      hide Inv, PoolInv, Apply, InRange;
      match a
      case SleepIo(w) => SleepKeepsPool(p.io, IdleIo(p.s), w);
      case SleepCpu(w) => SleepKeepsPool(p.cpu, IdleCpu(p.s), w);
      case NotifyIo(target) => NotifyKeepsPool(p.io, IdleIo(p.s), |p.s.ioQueue|, target);
      case NotifyCpu(target) => NotifyKeepsPool(p.cpu, IdleCpu(p.s), |p.s.cpuQueue|, target);
      case SpuriousIo(w) => WakeKeepsPool(p.io, IdleIo(p.s), |p.s.ioQueue|, w);
      case SpuriousCpu(w) => WakeKeepsPool(p.cpu, IdleCpu(p.s), |p.s.cpuQueue|, w);
    }
  }

  // ---- Runs --------------------------------------------------------------------------------------------

  function NewPool(workers: nat): Pool {
    Pool(seq(workers, _ => Awake), 0)
  }

  function InitPooled(job: Job): Pooled {
    Pooled(Init(job), NewPool(job.ioWorkers), NewPool(job.cpuWorkers))
  }

  lemma NewPoolInv(workers: nat, idle: seq<bool>)
    requires |idle| == workers
    ensures PoolInv(NewPool(workers), idle, 0)
  {
  }

  lemma InitPooledInv(job: Job)
    requires ValidJob(job)
    ensures PooledInv(job, InitPooled(job))
  {
    InitInv(job);
    NewPoolInv(job.ioWorkers, IdleIo(Init(job)));
    NewPoolInv(job.cpuWorkers, IdleCpu(Init(job)));
    hide Inv, PoolInv, NewPool;
  }

  ghost predicate PooledRun(job: Job, p: Pooled, actions: seq<PooledAction>)
    requires PooledInv(job, p)
    decreases |actions|
  {
    PooledFits(job, p);
    actions == [] ||
    (CanAct(p, actions[0])
     && (ActKeepsInv(job, p, actions[0]); PooledRun(job, Act(job, p, actions[0]), actions[1..])))
  }

  ghost function PooledAfter(job: Job, p: Pooled, actions: seq<PooledAction>): (q: Pooled)
    requires PooledInv(job, p) && PooledRun(job, p, actions)
    ensures PooledInv(job, q)
    decreases |actions|
  {
    PooledFits(job, p);
    if actions == [] then p
    else
      ActKeepsInv(job, p, actions[0]);
      PooledAfter(job, Act(job, p, actions[0]), actions[1..])
  }

  /** The steps of the job itself, without the sleeping and waking. */
  function Awaken(actions: seq<PooledAction>): seq<Action> {
    if actions == [] then []
    else (if actions[0].Step? then [actions[0].a] else []) + Awaken(actions[1..])
  }

  /** Sleeping adds no behaviour: every run on sleeping pools is a run of the job as modelled without them,
      so what is proved of all those runs holds here too. */
  lemma {:induction false} PooledRunIsRun(job: Job, p: Pooled, actions: seq<PooledAction>)
    requires ValidJob(job) && PooledInv(job, p) && PooledRun(job, p, actions)
    ensures Legal(job, p.s, Awaken(actions))
    ensures After(job, p.s, Awaken(actions)) == PooledAfter(job, p, actions).s
    decreases |actions|
  {
    hide Inv, PoolInv, Apply, Enabled, InRange;
    PooledFits(job, p);
    if actions != [] {
      var a, rest := actions[0], actions[1..];
      ActKeepsInv(job, p, a);
      PooledRunIsRun(job, Act(job, p, a), rest);
      if a.Step? {
        StepKeepsInv(job, p.s, a.a);
        assert Awaken(actions)[1..] == Awaken(rest);
      } else {
        assert Awaken(actions) == Awaken(rest);
      }
    }
  }

  // ---- No deadlock -------------------------------------------------------------------------------------------

  /** Nothing but a stop request or a spurious wakeup can happen. */
  ghost predicate PooledStuck(p: Pooled)
    requires Sized(p)
  {
    forall a: PooledAction :: CanAct(p, a) ==> a == Step(RequestStop) || a.SpuriousIo? || a.SpuriousCpu?
  }

  /** A notification that is due can be sent. */
  lemma SomeTarget(p: Pool) returns (target: Option<nat>)
    requires p.pending > 0
    ensures CanNotify(p, target)
  {
    target := None;
    if w: nat :| w < |p.modes| && p.modes[w].Asleep? {
      target := Some(w);
    }
  }

  lemma IoNotifier(p: Pooled) returns (a: PooledAction)
    requires Sized(p) && p.io.pending > 0
    ensures a.NotifyIo? && CanAct(p, a)
  {
    var target := SomeTarget(p.io);
    a := NotifyIo(target);
  }

  lemma CpuNotifier(p: Pooled) returns (a: PooledAction)
    requires Sized(p) && p.cpu.pending > 0
    ensures a.NotifyCpu? && CanAct(p, a)
  {
    var target := SomeTarget(p.cpu);
    a := NotifyCpu(target);
  }

  /** In a pool with no notification left, where every idle worker sleeps, nothing is queued unless every
      worker is busy. */
  lemma QuietPool(p: Pool, idle: seq<bool>, queued: nat)
    requires PoolInv(p, idle, queued) && p.pending == 0
    requires forall w :: 0 <= w < |idle| && idle[w] ==> p.modes[w].Asleep?
    ensures forall w :: 0 <= w < |idle| && idle[w] ==> queued == 0
  {
    SleepersSome(p.modes);
    hide Sleepers, WokenUp;
    if w :| 0 <= w < |idle| && idle[w] {
      assert p.modes[w] in p.modes;
    }
  }

  lemma StuckIoPool(p: Pooled)
    requires Sized(p) && PooledStuck(p)
    ensures p.io.pending == 0
    ensures forall w :: 0 <= w < |p.s.io| && p.s.io[w].IoIdle? ==> p.io.modes[w].Asleep?
  {
    if p.io.pending > 0 {
      var a := IoNotifier(p);
    }
    forall w: nat | w < |p.s.io| && p.s.io[w].IoIdle? ensures p.io.modes[w].Asleep? {
      assert !CanAct(p, SleepIo(w)) && !CanAct(p, Step(Action.Io(w)));
    }
  }

  lemma StuckCpuPool(p: Pooled)
    requires Sized(p) && PooledStuck(p)
    ensures p.cpu.pending == 0
    ensures forall w :: 0 <= w < |p.s.cpu| && p.s.cpu[w].CpuIdle? ==> p.cpu.modes[w].Asleep?
  {
    if p.cpu.pending > 0 {
      var a := CpuNotifier(p);
    }
    forall w: nat | w < |p.s.cpu| && p.s.cpu[w].CpuIdle? ensures p.cpu.modes[w].Asleep? {
      assert !CanAct(p, SleepCpu(w)) && !CanAct(p, Step(Action.Cpu(w)));
    }
  }

  /** If nothing can happen on the sleeping pools, nothing could happen without the sleep either. */
  lemma StuckIsStuck(job: Job, p: Pooled)
    requires PooledInv(job, p) && Sized(p) && PooledStuck(p)
    ensures Stuck(p.s)
  {
    hide Inv;
    StuckIoPool(p);
    StuckCpuPool(p);
    QuietPool(p.io, IdleIo(p.s), |p.s.ioQueue|);
    QuietPool(p.cpu, IdleCpu(p.s), |p.s.cpuQueue|);
    forall a: Action | Enabled(p.s, a)
      ensures a == RequestStop
    {
      assert CanAct(p, Step(a)) ==> a == RequestStop;
    }
  }

  ghost predicate PooledJobRun(job: Job, actions: seq<PooledAction>)
    requires ValidJob(job)
  {
    InitPooledInv(job);
    PooledRun(job, InitPooled(job), actions)
  }

  ghost function PooledFinal(job: Job, actions: seq<PooledAction>): (p: Pooled)
    requires ValidJob(job) && PooledJobRun(job, actions)
    ensures PooledInv(job, p) && Sized(p)
  {
    InitPooledInv(job);
    PooledAfter(job, InitPooled(job), actions)
  }

  /** No deadlock on sleeping pools: in every reachable state where nothing but a stop request or a spurious
      wakeup can happen, the job has its result, both queues are empty and all workers sleep. */
  lemma PooledNoDeadlock(job: Job, actions: seq<PooledAction>)
    requires ValidJob(job) && PooledJobRun(job, actions) && PooledStuck(PooledFinal(job, actions))
    ensures var p := PooledFinal(job, actions);
            && Quiet(p.s)
            && (forall w :: 0 <= w < |p.io.modes| ==> p.io.modes[w].Asleep?)
            && (forall w :: 0 <= w < |p.cpu.modes| ==> p.cpu.modes[w].Asleep?)
  {
    hide PooledJobRun, PooledFinal, Inv, Stuck, ValidJob;
    var p := PooledFinal(job, actions);
    StuckIsStuck(job, p);
    StuckIsQuiet(job, p.s);
    StuckIoPool(p);
    StuckCpuPool(p);
  }

  /** Runs on sleeping pools are runs of the job: the result, the written entries and all that is proved of
      them do not depend on who sleeps when. */
  lemma PooledFinalIsFinal(job: Job, actions: seq<PooledAction>)
    requires ValidJob(job) && PooledJobRun(job, actions)
    ensures Run(job, Awaken(actions)) && Final(job, Awaken(actions)) == PooledFinal(job, actions).s
  {
    InitPooledInv(job);
    PooledRunIsRun(job, InitPooled(job), actions);
    hide Inv, PooledRun, PooledAfter, Legal, After;
  }

  // ---- Termination -----------------------------------------------------------------------------------------------

  function AwakeOnes(modes: seq<Mode>): nat { CountIf(modes, (m: Mode) => !m.Asleep?) }

  function Energy(p: Pool): nat {
    2 * p.pending + AwakeOnes(p.modes)
  }

  lemma MoveEnergy(p: Pool, w: nat, m: Mode)
    requires w < |p.modes|
    ensures Energy(Moved(p, w, m)) + (if p.modes[w].Asleep? then 0 else 1) == Energy(p) + (if m.Asleep? then 0 else 1)
  {
    CountUpdate(p.modes, w, m, (m: Mode) => !m.Asleep?);
  }

  /** An upper bound on the steps still possible without spurious wakeups. */
  ghost function PooledMeasure(job: Job, p: Pooled): nat
    requires InRange(job, p.s)
  {
    3 * Measure(job, p.s) + Energy(p.io) + Energy(p.cpu)
  }

  lemma NotifyEnergy(p: Pool, target: Option<nat>)
    requires CanNotify(p, target)
    ensures Energy(Notified(p, target)) < Energy(p)
  {
    hide AwakeOnes;
    match target
    case Some(w) => MoveEnergy(p.(pending := p.pending - 1), w, Woken);
    case None =>
  }

  lemma StepEnergy(p: Pooled, a: Action, t: State)
    requires Sized(p) && CanAct(p, Step(a))
    requires a.Io? ==> t.cpuQueue == p.s.cpuQueue
    requires a.Cpu? ==> t.ioQueue == p.s.ioQueue
    requires |t.ioQueue| <= |p.s.ioQueue| || |t.cpuQueue| <= |p.s.cpuQueue|
    ensures var q := StepOn(p, a, t); Energy(q.io) + Energy(q.cpu) <= Energy(p.io) + Energy(p.cpu) + 2
  {
    hide AwakeOnes;
    if a.Io? {
      MoveEnergy(p.io, a.w, Awake);
    }
    if a.Cpu? {
      MoveEnergy(p.cpu, a.w, Awake);
    }
  }

  lemma StepQueues(job: Job, s: State, a: Action)
    requires InRange(job, s) && Enabled(s, a)
    ensures var t := Apply(job, s, a);
            && (a.Io? ==> t.cpuQueue == s.cpuQueue) && (a.Cpu? ==> t.ioQueue == s.ioQueue)
            && (|t.ioQueue| <= |s.ioQueue| || |t.cpuQueue| <= |s.cpuQueue|)
  {
    hide InRange, MainStep, IoStep, CpuStep, MainEnabled, IoEnabled, CpuEnabled;
    match a
    case Main => MainQueues(job, s);
    case Io(w) => IoQueues(job, s, w);
    case Cpu(w) => CpuQueues(job, s, w);
    case RequestStop =>
  }

  predicate Spurious(a: PooledAction) {
    a.SpuriousIo? || a.SpuriousCpu?
  }

  function SpuriousCount(actions: seq<PooledAction>): nat {
    if actions == [] then 0 else (if Spurious(actions[0]) then 1 else 0) + SpuriousCount(actions[1..])
  }

  lemma ActDecreases(job: Job, p: Pooled, a: PooledAction)
    requires PooledInv(job, p) && InRange(job, p.s) && Sized(p) && CanAct(p, a)
    ensures InRange(job, Act(job, p, a).s)
    ensures PooledMeasure(job, Act(job, p, a)) < PooledMeasure(job, p) + (if Spurious(a) then 2 else 0)
  {
    ActKeepsInv(job, p, a);
    PooledFits(job, Act(job, p, a));
    if a.Step? {
      StepDecreases(job, p.s, a.a);
      StepQueues(job, p.s, a.a);
      StepEnergy(p, a.a, Apply(job, p.s, a.a));
      hide Inv, PoolInv, Apply, Enabled, InRange, Energy, Measure, StepOn;
    } else {
      hide Inv, PoolInv, Apply, Enabled, InRange, Energy, Measure;
      match a
      case SleepIo(w) => MoveEnergy(p.io, w, Asleep);
      case SleepCpu(w) => MoveEnergy(p.cpu, w, Asleep);
      case NotifyIo(target) => NotifyEnergy(p.io, target);
      case NotifyCpu(target) => NotifyEnergy(p.cpu, target);
      case SpuriousIo(w) => MoveEnergy(p.io, w, Woken);
      case SpuriousCpu(w) => MoveEnergy(p.cpu, w, Woken);
    }
  }

  lemma {:induction false} PooledRunIsShort(job: Job, p: Pooled, actions: seq<PooledAction>)
    requires PooledInv(job, p) && PooledRun(job, p, actions)
    ensures InRange(job, p.s) && InRange(job, PooledAfter(job, p, actions).s)
    ensures |actions| + PooledMeasure(job, PooledAfter(job, p, actions))
            <= PooledMeasure(job, p) + 2 * SpuriousCount(actions)
    decreases |actions|
  {
    hide PooledInv, PooledMeasure, CanAct, Act, InRange, Spurious;
    PooledFits(job, p);
    if actions != [] {
      ActKeepsInv(job, p, actions[0]);
      ActDecreases(job, p, actions[0]);
      PooledRunIsShort(job, Act(job, p, actions[0]), actions[1..]);
    }
  }

  /** Only spurious wakeups can make a run on sleeping pools longer: without them every run is finite,
      sleeping and waking included, and each of them costs at most two steps. */
  lemma PooledTermination(job: Job, actions: seq<PooledAction>)
    requires ValidJob(job) && PooledJobRun(job, actions)
    ensures InRange(job, Init(job))
    ensures |actions| <= PooledMeasure(job, InitPooled(job)) + 2 * SpuriousCount(actions)
  {
    InitPooledInv(job);
    hide PooledInv, PooledMeasure;
    PooledRunIsShort(job, InitPooled(job), actions);
  }
}
