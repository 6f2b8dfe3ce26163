/**
 The FIFO thread pool. The class holds the bodies that run under the mutex; the step system
 interleaves workers, submitting clients, `stop` and the destructor, with notifications sent
 after the mutex is released.
 */
module ThreadPool {
  import opened Common
  import opened Counting

  // ---- Critical sections --------------------------------------------------------------

  /** What the mutex protects. */
  datatype Pool<T> = Pool(tasks: seq<T>, stopped: bool)

  datatype TakeOutcome<T> = TakeBlocked | TakeExit | TakeTask(task: T)

  /** `submit` under the lock; the flag is false when it throws. */
  function SubmitSection<T>(p: Pool<T>, task: T): (Pool<T>, bool) {
    if p.stopped then (p, false) else (p.(tasks := p.tasks + [task]), true)
  }

  /** One pass of a worker under the lock. */
  function TakeSection<T>(p: Pool<T>): (Pool<T>, TakeOutcome<T>) {
    if p.tasks != [] then (p.(tasks := p.tasks[1..]), TakeTask(p.tasks[0]))
    else if p.stopped then (p, TakeExit)
    else (p, TakeBlocked)
  }

  /** The constructor never starts fewer than one worker. */
  function PoolSize(workerCount: nat): (size: nat)
    ensures size > 0 && (workerCount > 0 ==> size == workerCount) && size <= workerCount + 1
  {
    if workerCount == 0 then 1 else workerCount
  }

  class ThreadPool<T> {
    const size: nat
    var tasks: seq<T>
    var stopped: bool

    constructor (workerCount: nat)
      ensures tasks == [] && !stopped
      ensures size == PoolSize(workerCount)
    {
      size := if workerCount == 0 then 1 else workerCount;
      tasks, stopped := [], false;
    }

    method Submit(task: T) returns (accepted: bool)
      modifies this
      ensures (Pool(tasks, stopped), accepted) == SubmitSection(Pool(old(tasks), old(stopped)), task)
      ensures accepted <==> !old(stopped)
      ensures tasks == if old(stopped) then old(tasks) else old(tasks) + [task]
    {
      if stopped {
        return false;
      }
      tasks := tasks + [task];
      accepted := true;
    }

    /** The locked part of the worker loop: wait predicate, then exit or dequeue. */
    method Take() returns (r: TakeOutcome<T>)
      modifies this
      ensures (Pool(tasks, stopped), r) == TakeSection(Pool(old(tasks), old(stopped)))
    {
      if !(stopped || tasks != []) {
        return TakeBlocked;
      }
      if tasks == [] {
        return TakeExit;
      }
      r := TakeTask(tasks[0]);
      tasks := tasks[1..];
    }

    method Stop()
      modifies this
      ensures stopped && tasks == old(tasks)
    {
      stopped := true;
    }
  }

  // ---- Threads and steps -------------------------------------------------------------------

  /** `Running(k)` holds the k-th task ever dequeued. */
  datatype Worker = Entering | Asleep | Woken | Running(k: nat) | Exited

  datatype Client = Outside | Notifying | Stopping | Destroying | Joining | Destroyed

  datatype State<T> = State(
    pool: Pool<T>,
    workers: seq<Worker>,
    clients: seq<Client>,
    accepted: seq<T>,     // submitted tasks that were not rejected
    started: seq<T>,      // dequeued tasks
    finished: seq<nat>)   // positions in `started` of the tasks that have run

  datatype Action<T> =
    | CallSubmit(c: nat, task: T) | CallStop(c: nat) | CallDestroy(c: nat)
    | NotifyOne(c: nat, target: Option<nat>) | NotifyAll(c: nat) | Join(c: nat)
    | Enter(w: nat) | Finish(w: nat) | Spurious(w: nat)

  /** Steps the pool takes without being called. */
  predicate Internal<T>(a: Action<T>) {
    !a.CallSubmit? && !a.CallStop? && !a.CallDestroy? && !a.Spurious?
  }

  ghost predicate Enabled<T>(s: State<T>, a: Action<T>) {
    match a
    case CallSubmit(c, _) => c < |s.clients| && s.clients[c].Outside?
    case CallStop(c) => c < |s.clients| && s.clients[c].Outside?
    case CallDestroy(c) => c < |s.clients| && s.clients[c].Outside?
    case NotifyOne(c, target) =>
      && c < |s.clients| && s.clients[c].Notifying?
      && (match target
          case Some(w) => w < |s.workers| && s.workers[w].Asleep?
          case None => Asleep !in s.workers)
    case NotifyAll(c) => c < |s.clients| && (s.clients[c].Stopping? || s.clients[c].Destroying?)
    case Join(c) => c < |s.clients| && s.clients[c].Joining?
                      && forall w :: 0 <= w < |s.workers| ==> s.workers[w].Exited?
    case Enter(w) => w < |s.workers| && (s.workers[w].Entering? || s.workers[w].Woken?)
    case Finish(w) => w < |s.workers| && s.workers[w].Running?
    case Spurious(w) => w < |s.workers| && s.workers[w].Asleep?
  }

  function WakeAll(workers: seq<Worker>): (ws: seq<Worker>)
    ensures |ws| == |workers|
    ensures forall w :: 0 <= w < |ws| ==> ws[w] == if workers[w].Asleep? then Woken else workers[w]
  {
    seq(|workers|, w requires 0 <= w < |workers| => if workers[w].Asleep? then Woken else workers[w])
  }

  ghost function EnterStep<T>(s: State<T>, w: nat): State<T>
    requires w < |s.workers|
  {
    var (pool, r) := TakeSection(s.pool);
    match r
    case TakeBlocked => s.(workers := s.workers[w := Asleep])
    case TakeExit => s.(workers := s.workers[w := Exited])
    case TakeTask(task) =>
      s.(pool := pool, workers := s.workers[w := Running(|s.started|)], started := s.started + [task])
  }

  ghost function Apply<T>(s: State<T>, a: Action<T>): State<T>
    requires Enabled(s, a)
  {
    match a
    case CallSubmit(c, task) =>
      var (pool, ok) := SubmitSection(s.pool, task);
      if ok then s.(pool := pool, accepted := s.accepted + [task], clients := s.clients[c := Notifying]) else s
    case CallStop(c) => s.(pool := s.pool.(stopped := true), clients := s.clients[c := Stopping])
    case CallDestroy(c) => s.(pool := s.pool.(stopped := true), clients := s.clients[c := Destroying])
    case NotifyOne(c, target) =>
      var t := s.(clients := s.clients[c := Outside]);
      (match target
       case Some(w) => t.(workers := s.workers[w := Woken])
       case None => t)
    case NotifyAll(c) =>
      s.(workers := WakeAll(s.workers),
         clients := s.clients[c := if s.clients[c].Destroying? then Joining else Outside])
    case Join(c) => s.(clients := s.clients[c := Destroyed])
    case Enter(w) => EnterStep(s, w)
    case Finish(w) => s.(workers := s.workers[w := Entering], finished := s.finished + [s.workers[w].k])
    case Spurious(w) => s.(workers := s.workers[w := Woken])
  }

  ghost predicate Run<T>(s: State<T>, actions: seq<Action<T>>)
    decreases |actions|
  {
    actions == [] || (Enabled(s, actions[0]) && Run(Apply(s, actions[0]), actions[1..]))
  }

  ghost function After<T>(s: State<T>, actions: seq<Action<T>>): State<T>
    requires Run(s, actions)
    decreases |actions|
  {
    if actions == [] then s else After(Apply(s, actions[0]), actions[1..])
  }

  function Init<T>(workers: nat, clients: nat): State<T> {
    State(Pool([], false), seq(PoolSize(workers), _ => Entering), seq(clients, _ => Outside), [], [], [])
  }

  // ---- Every task exactly once -------------------------------------------------------------------

  /** Tasks leave the queue in the order they were accepted. */
  ghost predicate InOrder<T>(s: State<T>) {
    s.accepted == s.started + s.pool.tasks
  }

  /** Every dequeued task has run once or is being run by one worker. */
  ghost predicate RunOnce(started: nat, workers: seq<Worker>, finished: seq<nat>) {
    && (forall w :: 0 <= w < |workers| && workers[w].Running? ==> workers[w].k < started && workers[w].k !in finished)
    && (forall v, w :: 0 <= v < w < |workers| && workers[v].Running? && workers[w].Running?
                       ==> workers[v].k != workers[w].k)
    && (forall i :: 0 <= i < |finished| ==> finished[i] < started)
    && (forall i, j :: 0 <= i < j < |finished| ==> finished[i] != finished[j])
    && (forall k: nat :: k < started ==> k in finished || Running(k) in workers)
  }

  /** Workers leave only a stopped and drained pool, and the destructor returns only after them. */
  ghost predicate LeaveLast<T>(s: State<T>) {
    && (Exited in s.workers ==> s.pool.stopped && s.pool.tasks == [])
    && (forall c :: c in s.clients && (c.Stopping? || c.Destroying? || c.Joining? || c.Destroyed?) ==> s.pool.stopped)
    && (Destroyed in s.clients ==> forall w :: 0 <= w < |s.workers| ==> s.workers[w].Exited?)
  }

  lemma StepInOrder<T>(s: State<T>, a: Action<T>)
    requires Enabled(s, a) && InOrder(s)
    ensures InOrder(Apply(s, a))
  {
    hide WakeAll;
    if a.Enter? && s.pool.tasks != [] {
      assert s.pool.tasks == [s.pool.tasks[0]] + s.pool.tasks[1..];
    }
  }

  /** A worker that was not running takes up the next dequeued task. */
  lemma StartOnce(n: nat, workers: seq<Worker>, finished: seq<nat>, w: nat)
    requires w < |workers| && !workers[w].Running? && RunOnce(n, workers, finished)
    ensures RunOnce(n + 1, workers[w := Running(n)], finished)
  {
    var ws := workers[w := Running(n)];
    forall k: nat | k < n + 1
      ensures k in finished || Running(k) in ws
    {
      if k == n {
        assert ws[w] == Running(k);
      } else if k !in finished {
        var v :| 0 <= v < |workers| && workers[v] == Running(k);
        assert ws[v] == Running(k);
      }
    }
  }

  lemma FinishOnce(n: nat, workers: seq<Worker>, finished: seq<nat>, w: nat)
    requires w < |workers| && workers[w].Running? && RunOnce(n, workers, finished)
    ensures RunOnce(n, workers[w := Entering], finished + [workers[w].k])
  {
    var ws, fs := workers[w := Entering], finished + [workers[w].k];
    forall k: nat | k < n
      ensures k in fs || Running(k) in ws
    {
      if k != workers[w].k && k !in finished {
        var v :| 0 <= v < |workers| && workers[v] == Running(k);
        assert ws[v] == Running(k);
      }
    }
  }

  /** Moving workers that are not running changes nothing. */
  lemma MoveOnce(n: nat, workers: seq<Worker>, ws: seq<Worker>, finished: seq<nat>)
    requires |ws| == |workers| && RunOnce(n, workers, finished)
    requires forall v :: 0 <= v < |ws| ==> workers[v] == ws[v] || (!workers[v].Running? && !ws[v].Running?)
    ensures RunOnce(n, ws, finished)
  {
    forall k: nat | k < n && k !in finished
      ensures Running(k) in ws
    {
      var v :| 0 <= v < |workers| && workers[v] == Running(k);
      assert ws[v] == Running(k);
    }
  }

  lemma StepRunOnce<T>(s: State<T>, a: Action<T>)
    requires Enabled(s, a) && RunOnce(|s.started|, s.workers, s.finished)
    ensures RunOnce(|Apply(s, a).started|, Apply(s, a).workers, Apply(s, a).finished)
  {
    hide RunOnce, WakeAll;
    var t := Apply(s, a);
    if a.Enter? && s.pool.tasks != [] {
      StartOnce(|s.started|, s.workers, s.finished, a.w);
    } else if a.Finish? {
      FinishOnce(|s.started|, s.workers, s.finished, a.w);
    } else {
      MoveOnce(|s.started|, s.workers, t.workers, s.finished);
    }
  }

  lemma StepLeaveLast<T>(s: State<T>, a: Action<T>)
    requires Enabled(s, a) && LeaveLast(s)
    ensures LeaveLast(Apply(s, a))
  {
    hide WakeAll;
  }

  // ---- Lost wakeups ----------------------------------------------------------------------------------

  function Sleepers(ws: seq<Worker>): nat { CountIf(ws, (w: Worker) => w.Asleep?) }
  function WokenUp(ws: seq<Worker>): nat { CountIf(ws, (w: Worker) => w.Woken?) }
  function Notifiers(cs: seq<Client>): nat { CountIf(cs, (c: Client) => c.Notifying?) }
  function Stoppers(cs: seq<Client>): nat { CountIf(cs, (c: Client) => c.Stopping? || c.Destroying?) }

  /** While open, a worker sleeps only if every queued task has a notification on its way or a
      woken worker; once stopped, only if the stopper has still to notify everybody. */
  ghost predicate NoLostWakeup<T>(s: State<T>) {
    Sleepers(s.workers) > 0 ==>
      if s.pool.stopped then Stoppers(s.clients) > 0
      else |s.pool.tasks| <= Notifiers(s.clients) + WokenUp(s.workers)
  }

  lemma WorkerCounts(ws: seq<Worker>, i: nat, w: Worker)
    requires i < |ws|
    ensures Sleepers(ws[i := w]) + (if ws[i].Asleep? then 1 else 0) == Sleepers(ws) + (if w.Asleep? then 1 else 0)
    ensures WokenUp(ws[i := w]) + (if ws[i].Woken? then 1 else 0) == WokenUp(ws) + (if w.Woken? then 1 else 0)
  {
    CountUpdate(ws, i, w, (w: Worker) => w.Asleep?);
    CountUpdate(ws, i, w, (w: Worker) => w.Woken?);
  }

  lemma ClientCounts(cs: seq<Client>, i: nat, c: Client)
    requires i < |cs|
    ensures Notifiers(cs[i := c]) + (if cs[i].Notifying? then 1 else 0)
            == Notifiers(cs) + (if c.Notifying? then 1 else 0)
    ensures Stoppers(cs[i := c]) + (if cs[i].Stopping? || cs[i].Destroying? then 1 else 0)
            == Stoppers(cs) + (if c.Stopping? || c.Destroying? then 1 else 0)
  {
    CountUpdate(cs, i, c, (c: Client) => c.Notifying?);
    CountUpdate(cs, i, c, (c: Client) => c.Stopping? || c.Destroying?);
  }

  lemma SleepersSome(ws: seq<Worker>)
    ensures Sleepers(ws) > 0 <==> Asleep in ws
  {
    CountSome(ws, (w: Worker) => w.Asleep?);
  }

  lemma WakeAllWakes(ws: seq<Worker>)
    ensures Sleepers(WakeAll(ws)) == 0
  {
    SleepersSome(WakeAll(ws));
  }

  lemma StepKeepsWakeups<T>(s: State<T>, a: Action<T>)
    requires Enabled(s, a) && NoLostWakeup(s)
    ensures NoLostWakeup(Apply(s, a))
  {
    SleepersSome(s.workers);
    WakeAllWakes(s.workers);
    hide Sleepers, WokenUp, Notifiers, Stoppers, WakeAll;
    match a
    case CallSubmit(c, _) => ClientCounts(s.clients, c, Notifying);
    case CallStop(c) => ClientCounts(s.clients, c, Stopping);
    case CallDestroy(c) => ClientCounts(s.clients, c, Destroying);
    case NotifyOne(c, target) =>
      ClientCounts(s.clients, c, Outside);
      match target {
        case Some(w) => WorkerCounts(s.workers, w, Woken);
        case None =>
      }
    case NotifyAll(c) =>
    case Join(c) => ClientCounts(s.clients, c, Destroyed);
    case Enter(w) => WorkerCounts(s.workers, w, EnterStep(s, w).workers[w]);
    case Finish(w) => WorkerCounts(s.workers, w, Entering);
    case Spurious(w) => WorkerCounts(s.workers, w, Woken);
  }

  // ---- Every run -----------------------------------------------------------------------------------------

  ghost predicate Inv<T>(s: State<T>) {
    InOrder(s) && RunOnce(|s.started|, s.workers, s.finished) && LeaveLast(s) && NoLostWakeup(s) && |s.workers| > 0
  }

  lemma InitInv<T>(workers: nat, clients: nat)
    ensures Inv(Init<T>(workers, clients))
  {
    SleepersSome(Init<T>(workers, clients).workers);
  }

  lemma StepKeepsInv<T>(s: State<T>, a: Action<T>)
    requires Enabled(s, a) && Inv(s)
    ensures Inv(Apply(s, a))
  {
    StepInOrder(s, a);
    StepRunOnce(s, a);
    StepLeaveLast(s, a);
    StepKeepsWakeups(s, a);
    hide InOrder, RunOnce, LeaveLast, NoLostWakeup, WakeAll;
  }

  lemma {:induction false} RunKeepsInv<T>(s: State<T>, actions: seq<Action<T>>)
    requires Inv(s) && Run(s, actions)
    ensures Inv(After(s, actions))
    decreases |actions|
  {
    hide Inv, Apply, Enabled;
    if actions != [] {
      StepKeepsInv(s, actions[0]);
      RunKeepsInv(Apply(s, actions[0]), actions[1..]);
    }
  }

  lemma {:induction false} CountedOnce(xs: seq<nat>, x: nat)
    requires forall i, j :: 0 <= i < j < |xs| ==> xs[i] != xs[j]
    ensures multiset(xs)[x] == if x in xs then 1 else 0
    decreases |xs|
  {
    if xs != [] {
      var n := |xs| - 1;
      CountedOnce(xs[..n], x);
      assert xs == xs[..n] + [xs[n]];
    }
  }

  predicate Stops<T>(a: Action<T>) {
    a.CallStop? || a.CallDestroy?
  }

  /** The tasks of the `submit` calls made before the first `stop` or destruction, in order. */
  function Submitted<T>(actions: seq<Action<T>>): seq<T> {
    if actions == [] || Stops(actions[0]) then []
    else (if actions[0].CallSubmit? then [actions[0].task] else []) + Submitted(actions[1..])
  }

  lemma StepAccepts<T>(s: State<T>, a: Action<T>)
    requires Enabled(s, a)
    ensures Apply(s, a).accepted == s.accepted + if a.CallSubmit? && !s.pool.stopped then [a.task] else []
    ensures Apply(s, a).pool.stopped <==> s.pool.stopped || Stops(a)
  {
    hide WakeAll;
  }

  /** A pool refuses a task if and only if it was stopped before: what it has accepted can be read off
      the calls alone. */
  lemma {:induction false} AcceptsSubmitted<T>(s: State<T>, actions: seq<Action<T>>)
    requires Run(s, actions)
    ensures After(s, actions).accepted == s.accepted + if s.pool.stopped then [] else Submitted(actions)
    ensures After(s, actions).pool.stopped <==> s.pool.stopped || exists a :: a in actions && Stops(a)
    decreases |actions|
  {
    hide Apply, Enabled;
    if actions != [] {
      var a, rest := actions[0], actions[1..];
      assert forall x :: x in actions <==> x == a || x in rest;
      StepAccepts(s, a);
      AcceptsSubmitted(Apply(s, a), rest);
    }
  }

  lemma FinishedOnce<T>(s: State<T>)
    requires RunOnce(|s.started|, s.workers, s.finished)
    ensures forall k: nat :: multiset(s.finished)[k] == if k in s.finished then 1 else 0
    ensures forall k: nat :: k in s.finished ==> k < |s.started|
  {
    forall k: nat
      ensures multiset(s.finished)[k] == if k in s.finished then 1 else 0
    {
      CountedOnce(s.finished, k);
    }
  }

  /** Once the destructor has returned nothing is queued or running. */
  lemma NothingLeft<T>(s: State<T>)
    requires Inv(s) && Destroyed in s.clients
    ensures s.started == s.accepted && forall k: nat :: k < |s.accepted| ==> k in s.finished
  {
    hide NoLostWakeup;
    assert s.workers[0] == Exited && Exited in s.workers;
  }

  /** By the time the destructor returns, every task submitted before the first `stop` or destruction has
      been dequeued in submission order and has run exactly once; at any earlier time the dequeued tasks
      are the oldest submitted ones. */
  lemma ExactlyOnce<T>(workers: nat, clients: nat, actions: seq<Action<T>>)
    requires Run(Init<T>(workers, clients), actions)
    ensures var s := After(Init<T>(workers, clients), actions);
            && s.accepted == Submitted(actions) && s.started <= Submitted(actions)
            && (forall k: nat :: multiset(s.finished)[k] <= 1)
            && (Destroyed in s.clients ==>
                  && s.started == Submitted(actions)
                  && forall k: nat :: multiset(s.finished)[k] == if k < |Submitted(actions)| then 1 else 0)
  {
    var s := After(Init<T>(workers, clients), actions);
    InitInv<T>(workers, clients);
    RunKeepsInv(Init<T>(workers, clients), actions);
    AcceptsSubmitted(Init<T>(workers, clients), actions);
    hide Run, After, NoLostWakeup, Submitted, RunOnce, LeaveLast;
    FinishedOnce(s);
    if Destroyed in s.clients {
      NothingLeft(s);
    }
  }

  /** Once stopped, the pool stays stopped and accepts nothing more. */
  lemma {:induction false} StoppedRejects<T>(s: State<T>, actions: seq<Action<T>>)
    requires s.pool.stopped && Run(s, actions)
    ensures After(s, actions).pool.stopped && After(s, actions).accepted == s.accepted
    decreases |actions|
  {
    hide WakeAll;
    if actions != [] {
      StoppedRejects(Apply(s, actions[0]), actions[1..]);
    }
  }

  // ---- Progress ----------------------------------------------------------------------------------------------

  function Awake(ws: seq<Worker>): nat { CountIf(ws, (w: Worker) => w.Entering? || w.Woken?) }
  function Busy(ws: seq<Worker>): nat { CountIf(ws, (w: Worker) => w.Running?) }
  function Joiners(cs: seq<Client>): nat { CountIf(cs, (c: Client) => c.Destroying? || c.Joining?) }

  /** An upper bound on the internal steps still possible. */
  function Pending<T>(s: State<T>): nat {
    2 * |s.pool.tasks| + Awake(s.workers) + 2 * Busy(s.workers) + 2 * Notifiers(s.clients)
    + (|s.workers| + 1) * Stoppers(s.clients) + Joiners(s.clients)
  }

  lemma ActiveCounts(ws: seq<Worker>, i: nat, w: Worker)
    requires i < |ws|
    ensures Awake(ws[i := w]) + (if ws[i].Entering? || ws[i].Woken? then 1 else 0)
            == Awake(ws) + (if w.Entering? || w.Woken? then 1 else 0)
    ensures Busy(ws[i := w]) + (if ws[i].Running? then 1 else 0) == Busy(ws) + (if w.Running? then 1 else 0)
  {
    CountUpdate(ws, i, w, (w: Worker) => w.Entering? || w.Woken?);
    CountUpdate(ws, i, w, (w: Worker) => w.Running?);
  }

  lemma JoinerCounts(cs: seq<Client>, i: nat, c: Client)
    requires i < |cs|
    ensures Joiners(cs[i := c]) + (if cs[i].Destroying? || cs[i].Joining? then 1 else 0)
            == Joiners(cs) + (if c.Destroying? || c.Joining? then 1 else 0)
  {
    CountUpdate(cs, i, c, (c: Client) => c.Destroying? || c.Joining?);
  }

  lemma WakeAllActive(ws: seq<Worker>)
    ensures Awake(WakeAll(ws)) <= |ws| && Busy(WakeAll(ws)) == Busy(ws)
  {
    CountBound(WakeAll(ws), (w: Worker) => w.Entering? || w.Woken?);
    CountSame(ws, WakeAll(ws), (w: Worker) => w.Running?);
  }

  lemma OneStopperLess(n: nat, stoppers: nat)
    requires stoppers > 0
    ensures (n + 1) * stoppers == (n + 1) * (stoppers - 1) + n + 1
  {
  }

  lemma InternalDecreases<T>(s: State<T>, a: Action<T>)
    requires Enabled(s, a) && Internal(a)
    ensures Pending(Apply(s, a)) < Pending(s)
  {
    WakeAllActive(s.workers);
    hide Awake, Busy, Joiners, Notifiers, Stoppers, WakeAll;
    var t := Apply(s, a);
    match a
    case NotifyOne(c, target) =>
      ClientCounts(s.clients, c, Outside);
      JoinerCounts(s.clients, c, Outside);
      match target {
        case Some(w) => ActiveCounts(s.workers, w, Woken);
        case None =>
      }
    case NotifyAll(c) =>
      ClientCounts(s.clients, c, t.clients[c]);
      JoinerCounts(s.clients, c, t.clients[c]);
      OneStopperLess(|s.workers|, Stoppers(s.clients));
    case Join(c) =>
      ClientCounts(s.clients, c, Destroyed);
      JoinerCounts(s.clients, c, Destroyed);
    case Enter(w) => ActiveCounts(s.workers, w, EnterStep(s, w).workers[w]);
    case Finish(w) => ActiveCounts(s.workers, w, Entering);
  }

  lemma {:induction false} InternalRunsEnd<T>(s: State<T>, actions: seq<Action<T>>)
    requires Run(s, actions) && forall a :: a in actions ==> Internal(a)
    ensures |actions| + Pending(After(s, actions)) <= Pending(s)
    decreases |actions|
  {
    hide Pending, Apply, Enabled, Internal;
    if actions != [] {
      InternalDecreases(s, actions[0]);
      InternalRunsEnd(Apply(s, actions[0]), actions[1..]);
    }
  }

  /** No internal step is left. */
  ghost predicate Quiet<T(!new)>(s: State<T>) {
    forall a: Action<T> :: Internal(a) ==> !Enabled(s, a)
  }

  lemma QuietThreads<T(!new)>(s: State<T>)
    requires Quiet(s)
    ensures forall w :: 0 <= w < |s.workers| ==> s.workers[w].Asleep? || s.workers[w].Exited?
    ensures Notifiers(s.clients) == 0 && Stoppers(s.clients) == 0 && WokenUp(s.workers) == 0
    ensures (forall w :: 0 <= w < |s.workers| ==> s.workers[w].Exited?) ==> Joining !in s.clients
  {
    forall w: nat | w < |s.workers|
      ensures s.workers[w].Asleep? || s.workers[w].Exited?
    {
      assert !Enabled(s, Action<T>.Enter(w)) && !Enabled(s, Action<T>.Finish(w));
    }
    forall c: nat | c < |s.clients|
      ensures !s.clients[c].Notifying? && !s.clients[c].Stopping? && !s.clients[c].Destroying?
    {
      assert !Enabled(s, Action<T>.NotifyAll(c)) && !Enabled(s, Action<T>.NotifyOne(c, None));
      if w: nat :| w < |s.workers| && s.workers[w].Asleep? {
        assert !Enabled(s, Action<T>.NotifyOne(c, Some(w)));
      }
    }
    CountSome(s.clients, (c: Client) => c.Notifying?);
    CountSome(s.clients, (c: Client) => c.Stopping? || c.Destroying?);
    CountSome(s.workers, (w: Worker) => w.Woken?);
    forall c: nat | c < |s.clients| && forall w :: 0 <= w < |s.workers| ==> s.workers[w].Exited?
      ensures !s.clients[c].Joining?
    {
      assert !Enabled(s, Action<T>.Join(c));
    }
  }

  /** A pool with nothing left to do has run every task submitted before the first stop; if it was stopped
      all workers have exited and no destructor is waiting, and otherwise all workers sleep. */
  lemma QuietMeansDone<T(!new)>(workers: nat, clients: nat, actions: seq<Action<T>>)
    requires Run(Init<T>(workers, clients), actions) && Quiet(After(Init<T>(workers, clients), actions))
    ensures var s := After(Init<T>(workers, clients), actions);
            && (forall k: nat :: k < |Submitted(actions)| ==> k in s.finished) && s.started == Submitted(actions)
            && (forall w :: 0 <= w < |s.workers| ==> s.workers[w] == if s.pool.stopped then Exited else Asleep)
            && Joining !in s.clients && Destroying !in s.clients
  {
    var s := After(Init<T>(workers, clients), actions);
    InitInv<T>(workers, clients);
    RunKeepsInv(Init<T>(workers, clients), actions);
    QuietThreads(s);
    SleepersSome(s.workers);
    CountSome(s.clients, (c: Client) => c.Stopping? || c.Destroying?);
    AcceptsSubmitted(Init<T>(workers, clients), actions);
    hide Run, After, Quiet, Sleepers, WokenUp, Notifiers;
    assert s.workers[0] in s.workers;
    assert s.pool.tasks == [] && s.accepted == s.started;
    forall w | 0 <= w < |s.workers|
      ensures s.workers[w] == if s.pool.stopped then Exited else Asleep
    {
      assert s.workers[w] in s.workers;
    }
  }
}
