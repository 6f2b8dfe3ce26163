/**
 The bounded multi-producer multi-consumer queue. The class holds the bodies that run under
 the mutex; the step system interleaves them with sleeping, waking and the notifications
 that are sent after the mutex is released.
 */
module BoundedQueue {
  import opened Common
  import opened Counting

  // ---- Critical sections -------------------------------------------------------------

  /** The queue as a value: what the mutex protects. */
  datatype Queue<T> = Queue(items: seq<T>, closed: bool)

  datatype PushOutcome = PushBlocked | PushRejected | PushAccepted

  datatype PopOutcome<T> = PopBlocked | PopDrained | PopTook(value: T)

  function PushSection<T>(q: Queue<T>, capacity: nat, value: T): (Queue<T>, PushOutcome) {
    if q.closed then (q, PushRejected)
    else if |q.items| < capacity then (q.(items := q.items + [value]), PushAccepted)
    else (q, PushBlocked)
  }

  function PopSection<T>(q: Queue<T>): (Queue<T>, PopOutcome<T>) {
    if q.items != [] then (q.(items := q.items[1..]), PopTook(q.items[0]))
    else if q.closed then (q, PopDrained)
    else (q, PopBlocked)
  }

  class BoundedQueue<T> {
    const capacity: nat
    var items: seq<T>
    var closed: bool

    constructor (capacity: nat)
      ensures this.capacity == capacity && items == [] && !closed
    {
      this.capacity := capacity;
      items, closed := [], false;
    }

    /** The body of `push` once the mutex is held: wait predicate, then the rest. */
    method Push(value: T) returns (r: PushOutcome)
      modifies this
      ensures (Queue(items, closed), r) == PushSection(Queue(old(items), old(closed)), capacity, value)
    {
      if !(closed || |items| < capacity) {
        return PushBlocked;
      }
      if closed {
        return PushRejected;
      }
      items := items + [value];
      r := PushAccepted;
    }

    /** The body of `pop` once the mutex is held. */
    method Pop() returns (r: PopOutcome<T>)
      modifies this
      ensures (Queue(items, closed), r) == PopSection(Queue(old(items), old(closed)))
    {
      if !(closed || items != []) {
        return PopBlocked;
      }
      if items == [] {
        return PopDrained;
      }
      r := PopTook(items[0]);
      items := items[1..];
    }

    method TryPop() returns (r: Option<T>)
      modifies this
      ensures closed == old(closed)
      ensures if old(items) == [] then r == None && items == []
              else r == Some(old(items)[0]) && items == old(items)[1..]
    {
      if items == [] {
        return None;
      }
      r := Some(items[0]);
      items := items[1..];
    }

    method Close()
      modifies this
      ensures closed && items == old(items)
    {
      closed := true;
    }
  }

  // ---- Threads and steps -----------------------------------------------------------------

  /** Where a thread is. A notifier has released the mutex but not yet sent its notification. */
  datatype Thread<T> =
    | Outside
    | Pushing(value: T) | PushAsleep(value: T) | PushWoken(value: T)
    | Popping | PopAsleep | PopWoken
    | NotifyNotEmpty | NotifyNotFull
    | CloseNotEmpty | CloseNotFull

  /** What the queue answered, in the order the mutex was held. */
  datatype Event<T> = Accepted(value: T) | Rejected(value: T) | Popped(value: T) | Drained | Missed | Closed

  datatype State<T> = State(queue: Queue<T>, threads: seq<Thread<T>>, log: seq<Event<T>>)

  datatype Action<T> =
    | CallPush(t: nat, value: T) | CallPop(t: nat) | CallTryPop(t: nat) | CallClose(t: nat)
    | Enter(t: nat)                        // take the mutex and evaluate the wait predicate
    | Notify(t: nat, target: Option<nat>)  // notify_one: some sleeper, if there is one
    | NotifyAll(t: nat)
    | Spurious(t: nat)

  predicate CanEnter<T>(c: Thread<T>) {
    c.Pushing? || c.PushWoken? || c.Popping? || c.PopWoken?
  }

  predicate Asleep<T>(c: Thread<T>) {
    c.PushAsleep? || c.PopAsleep?
  }

  /** The sleepers a pending notification can wake. */
  predicate Wakes<T>(notifier: Thread<T>, sleeper: Thread<T>) {
    (notifier.NotifyNotEmpty? && sleeper.PopAsleep?) || (notifier.NotifyNotFull? && sleeper.PushAsleep?)
  }

  function Woken<T>(c: Thread<T>): Thread<T> {
    match c
    case PushAsleep(v) => PushWoken(v)
    case PopAsleep => PopWoken
    case _ => c
  }

  function WakeAll<T>(threads: seq<Thread<T>>, consumers: bool): (ts: seq<Thread<T>>)
    ensures |ts| == |threads|
    ensures forall i :: 0 <= i < |ts| ==>
      ts[i] == if (if consumers then threads[i].PopAsleep? else threads[i].PushAsleep?)
               then Woken(threads[i])
               else threads[i]
  {
    seq(|threads|, i requires 0 <= i < |threads| =>
      if (if consumers then threads[i].PopAsleep? else threads[i].PushAsleep?) then Woken(threads[i]) else threads[i])
  }

  ghost predicate Enabled<T>(s: State<T>, a: Action<T>) {
    && a.t < |s.threads|
    && var c := s.threads[a.t];
       match a
       case CallPush(_, _) => c.Outside?
       case CallPop(_) => c.Outside?
       case CallTryPop(_) => c.Outside?
       case CallClose(_) => c.Outside?
       case Enter(_) => CanEnter(c)
       case Notify(_, target) =>
         && (c.NotifyNotEmpty? || c.NotifyNotFull?)
         && (match target
             case Some(i) => i < |s.threads| && Wakes(c, s.threads[i])
             case None => forall i :: 0 <= i < |s.threads| ==> !Wakes(c, s.threads[i]))
       case NotifyAll(_) => c.CloseNotEmpty? || c.CloseNotFull?
       case Spurious(_) => Asleep(c)
  }

  ghost function Move<T>(s: State<T>, t: nat, c: Thread<T>): State<T>
    requires t < |s.threads|
  {
    s.(threads := s.threads[t := c])
  }

  ghost function EnterPush<T>(s: State<T>, t: nat, capacity: nat, value: T): State<T>
    requires t < |s.threads|
  {
    var (q, r) := PushSection(s.queue, capacity, value);
    match r
    case PushBlocked => Move(s, t, PushAsleep(value))
    case PushRejected => Move(s.(log := s.log + [Rejected(value)]), t, Outside)
    case PushAccepted => Move(s.(queue := q, log := s.log + [Accepted(value)]), t, NotifyNotEmpty)
  }

  ghost function EnterPop<T>(s: State<T>, t: nat): State<T>
    requires t < |s.threads|
  {
    var (q, r) := PopSection(s.queue);
    match r
    case PopBlocked => Move(s, t, PopAsleep)
    case PopDrained => Move(s.(log := s.log + [Drained]), t, Outside)
    case PopTook(v) => Move(s.(queue := q, log := s.log + [Popped(v)]), t, NotifyNotFull)
  }

  ghost function TryPopStep<T>(s: State<T>, t: nat): State<T>
    requires t < |s.threads|
  {
    if s.queue.items == [] then s.(log := s.log + [Missed])
    else EnterPop(s, t)
  }

  ghost function Apply<T>(s: State<T>, a: Action<T>, capacity: nat): State<T>
    requires Enabled(s, a)
  {
    var c := s.threads[a.t];
    match a
    case CallPush(t, v) => Move(s, t, Pushing(v))
    case CallPop(t) => Move(s, t, Popping)
    case CallTryPop(t) => TryPopStep(s, t)
    case CallClose(t) =>
      Move(s.(queue := s.queue.(closed := true), log := s.log + [Closed]), t, CloseNotEmpty)
    case Enter(t) =>
      (match c
       case Pushing(v) => EnterPush(s, t, capacity, v)
       case PushWoken(v) => EnterPush(s, t, capacity, v)
       case _ => EnterPop(s, t))
    case Notify(t, target) =>
      (match target
       case None => Move(s, t, Outside)
       case Some(i) => Move(Move(s, i, Woken(s.threads[i])), t, Outside))
    case NotifyAll(t) =>
      if c.CloseNotEmpty? then Move(s.(threads := WakeAll(s.threads, true)), t, CloseNotFull)
      else Move(s.(threads := WakeAll(s.threads, false)), t, Outside)
    case Spurious(t) => Move(s, t, Woken(c))
  }

  ghost predicate Run<T>(s: State<T>, actions: seq<Action<T>>, capacity: nat)
    decreases |actions|
  {
    actions == [] || (Enabled(s, actions[0]) && Run(Apply(s, actions[0], capacity), actions[1..], capacity))
  }

  ghost function After<T>(s: State<T>, actions: seq<Action<T>>, capacity: nat): State<T>
    requires Run(s, actions, capacity)
    decreases |actions|
  {
    if actions == [] then s else After(Apply(s, actions[0], capacity), actions[1..], capacity)
  }

  function Init<T>(n: nat): State<T> {
    State(Queue([], false), seq(n, _ => Outside), [])
  }

  // ---- Linearizability ----------------------------------------------------------------------

  /** A sequential bounded FIFO queue answering one event, if it can. */
  function Answer<T(==)>(q: Queue<T>, capacity: nat, e: Event<T>): Option<Queue<T>> {
    match e
    case Accepted(v) => if !q.closed && |q.items| < capacity then Some(q.(items := q.items + [v])) else None
    case Rejected(_) => if q.closed then Some(q) else None
    case Popped(v) => if q.items != [] && q.items[0] == v then Some(q.(items := q.items[1..])) else None
    case Drained => if q.closed && q.items == [] then Some(q) else None
    case Missed => if q.items == [] then Some(q) else None
    case Closed => Some(q.(closed := true))
  }

  function Replay<T(==)>(log: seq<Event<T>>, capacity: nat): Option<Queue<T>> {
    if log == [] then Some(Queue([], false))
    else
      match Replay(log[..|log| - 1], capacity)
      case None => None
      case Some(q) => Answer(q, capacity, log[|log| - 1])
  }

  ghost predicate Linearized<T>(s: State<T>, capacity: nat) {
    Replay(s.log, capacity) == Some(s.queue)
  }

  lemma ReplaySnoc<T>(log: seq<Event<T>>, e: Event<T>, capacity: nat)
    ensures Replay(log + [e], capacity)
            == match Replay(log, capacity) case None => None case Some(q) => Answer(q, capacity, e)
  {
    assert (log + [e])[..|log|] == log;
  }

  lemma StepLinearized<T>(s: State<T>, a: Action<T>, capacity: nat)
    requires Enabled(s, a) && Linearized(s, capacity)
    ensures Linearized(Apply(s, a, capacity), capacity)
  {
    hide WakeAll, Replay;
    var t := Apply(s, a, capacity);
    if t.log != s.log {
      ReplaySnoc(s.log, t.log[|t.log| - 1], capacity);
      assert t.log == s.log + [t.log[|t.log| - 1]];
    }
  }

  function Accepts<T>(log: seq<Event<T>>): seq<T> {
    if log == [] then []
    else Accepts(log[..|log| - 1]) + (if log[|log| - 1].Accepted? then [log[|log| - 1].value] else [])
  }

  function Pops<T>(log: seq<Event<T>>): seq<T> {
    if log == [] then []
    else Pops(log[..|log| - 1]) + (if log[|log| - 1].Popped? then [log[|log| - 1].value] else [])
  }

  lemma AnswerIsFifo<T>(q: Queue<T>, capacity: nat, e: Event<T>, accepted: seq<T>, popped: seq<T>)
    requires Answer(q, capacity, e).Some? && accepted == popped + q.items && |q.items| <= capacity
    ensures var q' := Answer(q, capacity, e).value;
            && |q'.items| <= capacity
            && accepted + (if e.Accepted? then [e.value] else [])
               == popped + (if e.Popped? then [e.value] else []) + q'.items
  {
    if e.Popped? {
      assert q.items == [q.items[0]] + q.items[1..];
    }
  }

  /** First in, first out: what was popped, then what is queued, is what was accepted. */
  lemma {:induction false} ReplayIsFifo<T>(log: seq<Event<T>>, capacity: nat)
    requires Replay(log, capacity).Some?
    ensures var q := Replay(log, capacity).value;
            Accepts(log) == Pops(log) + q.items && |q.items| <= capacity
    decreases |log|
  {
    hide Answer;
    if log != [] {
      var init, e := log[..|log| - 1], log[|log| - 1];
      ReplayIsFifo(init, capacity);
      AnswerIsFifo(Replay(init, capacity).value, capacity, e, Accepts(init), Pops(init));
    }
  }

  /** After a close no push is accepted, and nothing drained is ever refilled. */
  lemma {:induction false} ReplayAfterClose<T>(log: seq<Event<T>>, capacity: nat, i: nat, j: nat)
    requires Replay(log, capacity).Some? && i < j < |log|
    ensures log[i].Closed? ==> !log[j].Accepted?
    ensures log[i].Drained? ==> !log[j].Accepted? && !log[j].Popped?
    decreases |log|
  {
    var n := |log| - 1;
    var init := log[..n];
    if j < n {
      ReplayAfterClose(init, capacity, i, j);
      assert init[i] == log[i] && init[j] == log[j];
    } else {
      ClosedStays(init, capacity, i);
    }
  }

  lemma {:induction false} ClosedStays<T>(log: seq<Event<T>>, capacity: nat, i: nat)
    requires Replay(log, capacity).Some? && i < |log|
    ensures log[i].Closed? || log[i].Drained? ==> Replay(log, capacity).value.closed
    ensures log[i].Drained? ==> Replay(log, capacity).value.items == []
    decreases |log|
  {
    if i < |log| - 1 {
      ClosedStays(log[..|log| - 1], capacity, i);
    }
  }

  // ---- Lost wakeups ------------------------------------------------------------------------------

  function SleepingConsumers<T>(ts: seq<Thread<T>>): nat { CountIf(ts, (c: Thread<T>) => c.PopAsleep?) }
  function WokenConsumers<T>(ts: seq<Thread<T>>): nat { CountIf(ts, (c: Thread<T>) => c.PopWoken?) }
  function SleepingProducers<T>(ts: seq<Thread<T>>): nat { CountIf(ts, (c: Thread<T>) => c.PushAsleep?) }
  function WokenProducers<T>(ts: seq<Thread<T>>): nat { CountIf(ts, (c: Thread<T>) => c.PushWoken?) }
  function PendingNotEmpty<T>(ts: seq<Thread<T>>): nat { CountIf(ts, (c: Thread<T>) => c.NotifyNotEmpty?) }
  function PendingNotFull<T>(ts: seq<Thread<T>>): nat { CountIf(ts, (c: Thread<T>) => c.NotifyNotFull?) }
  function ClosingConsumers<T>(ts: seq<Thread<T>>): nat { CountIf(ts, (c: Thread<T>) => c.CloseNotEmpty?) }
  function ClosingProducers<T>(ts: seq<Thread<T>>): nat {
    CountIf(ts, (c: Thread<T>) => c.CloseNotEmpty? || c.CloseNotFull?)
  }

  /** While open, each queued item not covered by a pending or delivered wakeup keeps no consumer
      asleep, and dually for free slots; once closed, sleepers are covered by the closer. */
  ghost predicate NoLostWakeup<T>(s: State<T>, capacity: nat) {
    var ts := s.threads;
    if !s.queue.closed then
      && (SleepingConsumers(ts) > 0 ==> |s.queue.items| <= PendingNotEmpty(ts) + WokenConsumers(ts))
      && (SleepingProducers(ts) > 0 ==> capacity - |s.queue.items| <= PendingNotFull(ts) + WokenProducers(ts))
    else
      && (SleepingConsumers(ts) > 0 ==> ClosingConsumers(ts) > 0)
      && (SleepingProducers(ts) > 0 ==> ClosingProducers(ts) > 0)
  }

  /** How the counts change when one thread moves. */
  lemma MoveCounts<T>(ts: seq<Thread<T>>, i: nat, c: Thread<T>)
    requires i < |ts|
    ensures var us := ts[i := c];
            && SleepingConsumers(us) + (if ts[i].PopAsleep? then 1 else 0)
               == SleepingConsumers(ts) + (if c.PopAsleep? then 1 else 0)
            && WokenConsumers(us) + (if ts[i].PopWoken? then 1 else 0)
               == WokenConsumers(ts) + (if c.PopWoken? then 1 else 0)
            && SleepingProducers(us) + (if ts[i].PushAsleep? then 1 else 0)
               == SleepingProducers(ts) + (if c.PushAsleep? then 1 else 0)
            && WokenProducers(us) + (if ts[i].PushWoken? then 1 else 0)
               == WokenProducers(ts) + (if c.PushWoken? then 1 else 0)
            && PendingNotEmpty(us) + (if ts[i].NotifyNotEmpty? then 1 else 0)
               == PendingNotEmpty(ts) + (if c.NotifyNotEmpty? then 1 else 0)
            && PendingNotFull(us) + (if ts[i].NotifyNotFull? then 1 else 0)
               == PendingNotFull(ts) + (if c.NotifyNotFull? then 1 else 0)
            && ClosingConsumers(us) + (if ts[i].CloseNotEmpty? then 1 else 0)
               == ClosingConsumers(ts) + (if c.CloseNotEmpty? then 1 else 0)
            && ClosingProducers(us) + (if ts[i].CloseNotEmpty? || ts[i].CloseNotFull? then 1 else 0)
               == ClosingProducers(ts) + (if c.CloseNotEmpty? || c.CloseNotFull? then 1 else 0)
  {
    CountUpdate(ts, i, c, (c: Thread<T>) => c.PopAsleep?);
    CountUpdate(ts, i, c, (c: Thread<T>) => c.PopWoken?);
    CountUpdate(ts, i, c, (c: Thread<T>) => c.PushAsleep?);
    CountUpdate(ts, i, c, (c: Thread<T>) => c.PushWoken?);
    CountUpdate(ts, i, c, (c: Thread<T>) => c.NotifyNotEmpty?);
    CountUpdate(ts, i, c, (c: Thread<T>) => c.NotifyNotFull?);
    CountUpdate(ts, i, c, (c: Thread<T>) => c.CloseNotEmpty?);
    CountUpdate(ts, i, c, (c: Thread<T>) => c.CloseNotEmpty? || c.CloseNotFull?);
  }

  lemma EnterPushKeeps<T>(s: State<T>, t: nat, capacity: nat, v: T)
    requires t < |s.threads| && (s.threads[t].Pushing? || s.threads[t].PushWoken?) && NoLostWakeup(s, capacity)
    ensures NoLostWakeup(EnterPush(s, t, capacity, v), capacity)
  {
    hide SleepingConsumers, WokenConsumers, SleepingProducers, WokenProducers, PendingNotEmpty, PendingNotFull,
         ClosingConsumers, ClosingProducers;
    MoveCounts(s.threads, t, EnterPush(s, t, capacity, v).threads[t]);
  }

  lemma EnterPopKeeps<T>(s: State<T>, t: nat, capacity: nat)
    requires t < |s.threads| && NoLostWakeup(s, capacity)
    requires s.threads[t].Popping? || s.threads[t].PopWoken? || (s.threads[t].Outside? && s.queue.items != [])
    ensures NoLostWakeup(EnterPop(s, t), capacity)
  {
    hide SleepingConsumers, WokenConsumers, SleepingProducers, WokenProducers, PendingNotEmpty, PendingNotFull,
         ClosingConsumers, ClosingProducers;
    MoveCounts(s.threads, t, EnterPop(s, t).threads[t]);
  }

  lemma NotifyKeeps<T>(s: State<T>, t: nat, target: Option<nat>, capacity: nat)
    requires Enabled(s, Notify(t, target)) && NoLostWakeup(s, capacity)
    ensures NoLostWakeup(Apply(s, Notify(t, target), capacity), capacity)
  {
    var c := s.threads[t];
    match target
    case Some(i) =>
      hide SleepingConsumers, WokenConsumers, SleepingProducers, WokenProducers, PendingNotEmpty, PendingNotFull,
           ClosingConsumers, ClosingProducers;
      MoveCounts(s.threads, i, Woken(s.threads[i]));
      MoveCounts(s.threads[i := Woken(s.threads[i])], t, Outside);
    case None =>
      NobodyToWake(s, t);
      hide SleepingConsumers, WokenConsumers, SleepingProducers, WokenProducers, PendingNotEmpty, PendingNotFull,
           ClosingConsumers, ClosingProducers;
      MoveCounts(s.threads, t, Outside);
  }

  lemma NobodyToWake<T>(s: State<T>, t: nat)
    requires Enabled(s, Notify(t, None))
    ensures s.threads[t].NotifyNotEmpty? ==> SleepingConsumers(s.threads) == 0
    ensures s.threads[t].NotifyNotFull? ==> SleepingProducers(s.threads) == 0
  {
    CountSome(s.threads, (c: Thread<T>) => c.PopAsleep?);
    CountSome(s.threads, (c: Thread<T>) => c.PushAsleep?);
  }

  lemma WakeAllCounts<T>(ts: seq<Thread<T>>, consumers: bool)
    ensures var us := WakeAll(ts, consumers);
            && SleepingConsumers(us) == (if consumers then 0 else SleepingConsumers(ts))
            && SleepingProducers(us) == (if consumers then SleepingProducers(ts) else 0)
            && ClosingConsumers(us) == ClosingConsumers(ts) && ClosingProducers(us) == ClosingProducers(ts)
  {
    var us := WakeAll(ts, consumers);
    hide WakeAll;
    CountSame(ts, us, (c: Thread<T>) => c.CloseNotEmpty?);
    CountSame(ts, us, (c: Thread<T>) => c.CloseNotEmpty? || c.CloseNotFull?);
    if consumers {
      CountSome(us, (c: Thread<T>) => c.PopAsleep?);
      CountSame(ts, us, (c: Thread<T>) => c.PushAsleep?);
    } else {
      CountSome(us, (c: Thread<T>) => c.PushAsleep?);
      CountSame(ts, us, (c: Thread<T>) => c.PopAsleep?);
    }
  }

  /** A closer exists only once the queue is closed. */
  ghost predicate ClosersAfterClose<T>(s: State<T>) {
    forall i :: 0 <= i < |s.threads| && (s.threads[i].CloseNotEmpty? || s.threads[i].CloseNotFull?) ==> s.queue.closed
  }

  lemma NotifyAllKeeps<T>(s: State<T>, t: nat, capacity: nat)
    requires Enabled(s, Action<T>.NotifyAll(t)) && NoLostWakeup(s, capacity) && ClosersAfterClose(s)
    ensures NoLostWakeup(Apply(s, NotifyAll(t), capacity), capacity)
  {
    hide SleepingConsumers, WokenConsumers, SleepingProducers, WokenProducers, PendingNotEmpty, PendingNotFull,
         ClosingConsumers, ClosingProducers;
    var first := s.threads[t].CloseNotEmpty?;
    WakeAllCounts(s.threads, first);
    MoveCounts(WakeAll(s.threads, first), t, if first then CloseNotFull else Outside);
  }

  lemma EnterKeeps<T>(s: State<T>, t: nat, capacity: nat)
    requires Enabled(s, Action<T>.Enter(t)) && NoLostWakeup(s, capacity)
    ensures NoLostWakeup(Apply(s, Enter(t), capacity), capacity)
  {
    hide NoLostWakeup, EnterPush, EnterPop;
    match s.threads[t] {
      case Pushing(v) => EnterPushKeeps(s, t, capacity, v);
      case PushWoken(v) => EnterPushKeeps(s, t, capacity, v);
      case _ => EnterPopKeeps(s, t, capacity);
    }
  }

  lemma StepKeepsClosers<T>(s: State<T>, a: Action<T>, capacity: nat)
    requires Enabled(s, a) && ClosersAfterClose(s)
    ensures ClosersAfterClose(Apply(s, a, capacity))
  {
  }

  /** No step loses a wakeup. */
  lemma StepKeepsWakeups<T>(s: State<T>, a: Action<T>, capacity: nat)
    requires Enabled(s, a) && NoLostWakeup(s, capacity) && ClosersAfterClose(s)
    ensures NoLostWakeup(Apply(s, a, capacity), capacity)
  {
    hide SleepingConsumers, WokenConsumers, SleepingProducers, WokenProducers, PendingNotEmpty, PendingNotFull,
         ClosingConsumers, ClosingProducers, WakeAll, EnterPush, EnterPop, ClosersAfterClose;
    match a
    case CallPush(t, v) => MoveCounts(s.threads, t, Pushing(v));
    case CallPop(t) => MoveCounts(s.threads, t, Popping);
    case CallTryPop(t) =>
      if s.queue.items != [] {
        EnterPopKeeps(s, t, capacity);
      }
    case CallClose(t) => MoveCounts(s.threads, t, CloseNotEmpty);
    case Enter(t) => EnterKeeps(s, t, capacity);
    case Notify(t, target) => NotifyKeeps(s, t, target, capacity);
    case NotifyAll(t) => NotifyAllKeeps(s, t, capacity);
    case Spurious(t) => MoveCounts(s.threads, t, Woken(s.threads[t]));
  }

  // ---- Every run ---------------------------------------------------------------------------------------

  ghost predicate Inv<T>(s: State<T>, capacity: nat) {
    Linearized(s, capacity) && NoLostWakeup(s, capacity) && ClosersAfterClose(s)
  }

  lemma InitInv<T>(n: nat, capacity: nat)
    ensures Inv(Init<T>(n), capacity)
  {
    var ts := Init<T>(n).threads;
    CountSome(ts, (c: Thread<T>) => c.PopAsleep?);
    CountSome(ts, (c: Thread<T>) => c.PushAsleep?);
  }

  lemma {:induction false} RunKeepsInv<T>(s: State<T>, actions: seq<Action<T>>, capacity: nat)
    requires Inv(s, capacity) && Run(s, actions, capacity)
    ensures Inv(After(s, actions, capacity), capacity)
    decreases |actions|
  {
    hide Linearized, NoLostWakeup, ClosersAfterClose, Apply, Enabled;
    if actions != [] {
      StepLinearized(s, actions[0], capacity);
      StepKeepsWakeups(s, actions[0], capacity);
      StepKeepsClosers(s, actions[0], capacity);
      RunKeepsInv(Apply(s, actions[0], capacity), actions[1..], capacity);
    }
  }

  /** The queue was closed by somebody. */
  lemma {:induction false} ClosedBySomebody<T>(log: seq<Event<T>>, capacity: nat)
    requires Replay(log, capacity).Some? && Replay(log, capacity).value.closed
    ensures Closed in log
    decreases |log|
  {
    var init, e := log[..|log| - 1], log[|log| - 1];
    if !e.Closed? {
      ClosedBySomebody(init, capacity);
      assert Closed in init;
    }
  }

  lemma {:induction false} ReplayPrefix<T>(log: seq<Event<T>>, capacity: nat, k: nat)
    requires Replay(log, capacity).Some? && k <= |log|
    ensures Replay(log[..k], capacity).Some?
    decreases |log|
  {
    hide Answer;
    if k < |log| {
      ReplayPrefix(log[..|log| - 1], capacity, k);
      assert log[..|log| - 1][..k] == log[..k];
    } else {
      assert log[..k] == log;
    }
  }

  /** First in, first out over every interleaving, bounded, with nothing accepted after a close. */
  lemma Fifo<T>(n: nat, actions: seq<Action<T>>, capacity: nat)
    requires Run(Init<T>(n), actions, capacity)
    ensures var s := After(Init<T>(n), actions, capacity);
            && Accepts(s.log) == Pops(s.log) + s.queue.items
            && |s.queue.items| <= capacity
            && (s.queue.closed <==> Closed in s.log)
            && (forall i, j :: 0 <= i < j < |s.log| && s.log[i].Closed? ==> !s.log[j].Accepted?)
  {
    var s := After(Init<T>(n), actions, capacity);
    InitInv<T>(n, capacity);
    RunKeepsInv(Init<T>(n), actions, capacity);
    hide Run, After, NoLostWakeup, ClosersAfterClose, Replay, Accepts, Pops;
    ReplayIsFifo(s.log, capacity);
    if Closed in s.log {
      var i: nat :| i < |s.log| && s.log[i] == Closed;
      ClosedStays(s.log, capacity, i);
    }
    if s.queue.closed {
      ClosedBySomebody(s.log, capacity);
    }
    forall i, j | 0 <= i < j < |s.log| && s.log[i].Closed?
      ensures !s.log[j].Accepted?
    {
      ReplayAfterClose(s.log, capacity, i, j);
    }
  }

  /** When a drained answer was given, a sequential queue was closed and empty. */
  lemma DrainedAt<T>(log: seq<Event<T>>, capacity: nat, i: nat)
    requires Replay(log, capacity).Some? && i < |log| && log[i].Drained?
    ensures Replay(log[..i], capacity).Some?
    ensures Replay(log[..i], capacity).value.closed && Replay(log[..i], capacity).value.items == []
  {
    ReplayPrefix(log, capacity, i + 1);
    assert log[..i + 1] == log[..i] + [Drained];
    ReplaySnoc(log[..i], Drained, capacity);
    hide Replay;
  }

  /** `pop` answers empty only once the queue is closed and everything accepted has been popped,
      and no item is delivered afterwards. */
  lemma DrainedMeansDrained<T>(n: nat, actions: seq<Action<T>>, capacity: nat, i: nat)
    requires Run(Init<T>(n), actions, capacity)
    requires i < |After(Init<T>(n), actions, capacity).log| && After(Init<T>(n), actions, capacity).log[i].Drained?
    ensures var log := After(Init<T>(n), actions, capacity).log;
            && Closed in log[..i]
            && Accepts(log[..i]) == Pops(log[..i])
            && (forall j :: i < j < |log| ==> !log[j].Accepted? && !log[j].Popped?)
  {
    var log := After(Init<T>(n), actions, capacity).log;
    InitInv<T>(n, capacity);
    RunKeepsInv(Init<T>(n), actions, capacity);
    hide Run, After, NoLostWakeup, ClosersAfterClose, Accepts, Pops, Replay;
    DrainedAt(log, capacity, i);
    ReplayIsFifo(log[..i], capacity);
    ClosedBySomebody(log[..i], capacity);
    forall j | i < j < |log|
      ensures !log[j].Accepted? && !log[j].Popped?
    {
      ReplayAfterClose(log, capacity, i, j);
    }
  }

  /** No notification has been sent and not yet answered. */
  ghost predicate Settled<T>(s: State<T>) {
    forall c :: c in s.threads ==>
      !c.NotifyNotEmpty? && !c.NotifyNotFull? && !c.CloseNotEmpty? && !c.CloseNotFull? && !c.PushWoken? && !c.PopWoken?
  }

  lemma CountNone<T>(ts: seq<Thread<T>>, p: Thread<T> -> bool)
    requires forall c :: c in ts ==> !p(c)
    ensures CountIf(ts, p) == 0
  {
    CountSome(ts, p);
  }

  lemma SettledCounts<T>(s: State<T>)
    requires Settled(s)
    ensures var ts := s.threads;
            && PendingNotEmpty(ts) == 0 && WokenConsumers(ts) == 0
            && PendingNotFull(ts) == 0 && WokenProducers(ts) == 0
            && ClosingConsumers(ts) == 0 && ClosingProducers(ts) == 0
  {
    CountNone(s.threads, (c: Thread<T>) => c.NotifyNotEmpty?);
    CountNone(s.threads, (c: Thread<T>) => c.PopWoken?);
    CountNone(s.threads, (c: Thread<T>) => c.NotifyNotFull?);
    CountNone(s.threads, (c: Thread<T>) => c.PushWoken?);
    CountNone(s.threads, (c: Thread<T>) => c.CloseNotEmpty?);
    CountNone(s.threads, (c: Thread<T>) => c.CloseNotEmpty? || c.CloseNotFull?);
  }

  /** In every reachable state with no notification in flight, a consumer sleeps only on an open empty
      queue and a producer only on an open full one; so with room for one item they never both
      sleep, and after a close nobody does. */
  lemma SleepersHaveReason<T>(n: nat, actions: seq<Action<T>>, capacity: nat)
    requires Run(Init<T>(n), actions, capacity) && Settled(After(Init<T>(n), actions, capacity))
    ensures var s := After(Init<T>(n), actions, capacity);
            && (PopAsleep in s.threads ==> !s.queue.closed && s.queue.items == [])
            && ((exists v :: PushAsleep(v) in s.threads) ==> !s.queue.closed && |s.queue.items| == capacity)
            && (capacity > 0 && PopAsleep in s.threads ==> forall v :: PushAsleep(v) !in s.threads)
  {
    var s := After(Init<T>(n), actions, capacity);
    InitInv<T>(n, capacity);
    RunKeepsInv(Init<T>(n), actions, capacity);
    Fifo<T>(n, actions, capacity);
    SettledCounts(s);
    SleepersCounted(s);
    hide Run, After, Replay, Accepts, Pops, Settled, ClosersAfterClose, Linearized,
         SleepingConsumers, WokenConsumers, SleepingProducers, WokenProducers, PendingNotEmpty, PendingNotFull,
         ClosingConsumers, ClosingProducers;
  }

  lemma SleepersCounted<T>(s: State<T>)
    ensures PopAsleep in s.threads ==> SleepingConsumers(s.threads) > 0
    ensures forall v :: PushAsleep(v) in s.threads ==> SleepingProducers(s.threads) > 0
  {
    CountSome(s.threads, (c: Thread<T>) => c.PopAsleep?);
    CountSome(s.threads, (c: Thread<T>) => c.PushAsleep?);
  }

  // ---- Progress -------------------------------------------------------------------------------------------

  /** Steps the queue takes without being called. */
  predicate Internal<T>(a: Action<T>) {
    a.Enter? || a.Notify? || a.NotifyAll?
  }

  /** How many internal steps a thread can still cause; a closer may wake all `n` threads, twice. */
  function Weight<T>(c: Thread<T>, n: nat): nat {
    match c
    case Outside => 0
    case PushAsleep(_) => 2
    case PopAsleep => 2
    case NotifyNotEmpty => 2
    case NotifyNotFull => 2
    case CloseNotEmpty => 2 * n + 2
    case CloseNotFull => n + 1
    case _ => 3
  }

  function Energy<T>(ts: seq<Thread<T>>, n: nat): nat {
    if ts == [] then 0 else Energy(ts[..|ts| - 1], n) + Weight(ts[|ts| - 1], n)
  }

  lemma {:induction false} EnergyUpdate<T>(ts: seq<Thread<T>>, i: nat, c: Thread<T>, n: nat)
    requires i < |ts|
    ensures Energy(ts[i := c], n) + Weight(ts[i], n) == Energy(ts, n) + Weight(c, n)
    decreases |ts|
  {
    hide Weight;
    var k := |ts| - 1;
    if i < k {
      EnergyUpdate(ts[..k], i, c, n);
      assert ts[i := c][..k] == ts[..k][i := c];
    } else {
      assert ts[i := c][..k] == ts[..k];
    }
  }

  lemma {:induction false} WakeAllEnergy<T>(ts: seq<Thread<T>>, consumers: bool, n: nat)
    ensures Energy(WakeAll(ts, consumers), n) <= Energy(ts, n) + |ts|
    decreases |ts|
  {
    if ts != [] {
      var k := |ts| - 1;
      WakeAllEnergy(ts[..k], consumers, n);
      assert WakeAll(ts, consumers)[..k] == WakeAll(ts[..k], consumers);
    }
  }

  lemma InternalDecreases<T>(s: State<T>, a: Action<T>, capacity: nat)
    requires Enabled(s, a) && Internal(a)
    ensures var t := Apply(s, a, capacity);
            |t.threads| == |s.threads| && Energy(t.threads, |s.threads|) < Energy(s.threads, |s.threads|)
  {
    hide Energy, WakeAll;
    var n := |s.threads|;
    match a
    case Enter(t) => EnergyUpdate(s.threads, t, Apply(s, a, capacity).threads[t], n);
    case Notify(t, target) =>
      match target {
        case None => EnergyUpdate(s.threads, t, Outside, n);
        case Some(i) =>
          EnergyUpdate(s.threads, i, Woken(s.threads[i]), n);
          EnergyUpdate(s.threads[i := Woken(s.threads[i])], t, Outside, n);
      }
    case NotifyAll(t) =>
      var first := s.threads[t].CloseNotEmpty?;
      WakeAllEnergy(s.threads, first, n);
      EnergyUpdate(WakeAll(s.threads, first), t, if first then CloseNotFull else Outside, n);
  }

  /** Between calls the queue takes a bounded number of steps: with nobody calling and no spurious
      wakeups, every run ends. */
  lemma {:induction false} InternalRunsEnd<T>(s: State<T>, actions: seq<Action<T>>, capacity: nat)
    requires Run(s, actions, capacity) && forall a :: a in actions ==> Internal(a)
    ensures |After(s, actions, capacity).threads| == |s.threads|
    ensures |actions| + Energy(After(s, actions, capacity).threads, |s.threads|) <= Energy(s.threads, |s.threads|)
    decreases |actions|
  {
    hide Energy, Apply, Enabled, Internal;
    if actions != [] {
      InternalDecreases(s, actions[0], capacity);
      InternalRunsEnd(Apply(s, actions[0], capacity), actions[1..], capacity);
    }
  }

  /** No internal step is left. */
  ghost predicate Quiet<T(!new)>(s: State<T>) {
    forall a: Action<T> :: Internal(a) ==> !Enabled(s, a)
  }

  lemma QuietThreads<T(!new)>(s: State<T>)
    requires Quiet(s)
    ensures forall c :: c in s.threads ==> c.Outside? || Asleep(c)
  {
    forall t: nat | t < |s.threads|
      ensures s.threads[t].Outside? || Asleep(s.threads[t])
    {
      assert !Enabled(s, Action<T>.Enter(t)) && !Enabled(s, Action<T>.NotifyAll(t));
      if s.threads[t].NotifyNotEmpty? || s.threads[t].NotifyNotFull? {
        var target := NotifierCanMove(s, t);
      }
    }
  }

  lemma NotifierCanMove<T>(s: State<T>, t: nat) returns (target: Option<nat>)
    requires t < |s.threads| && (s.threads[t].NotifyNotEmpty? || s.threads[t].NotifyNotFull?)
    ensures Enabled(s, Action<T>.Notify(t, target))
  {
    target := None;
    if i: nat :| i < |s.threads| && Wakes(s.threads[t], s.threads[i]) {
      target := Some(i);
    }
  }

  /** In every reachable state with no internal step left, each thread is outside, or is a consumer asleep on
      an open empty queue, or a producer asleep on an open full one, and with room for one item the two
      do not occur together. */
  lemma QuietMeansReason<T(!new)>(n: nat, actions: seq<Action<T>>, capacity: nat)
    requires Run(Init<T>(n), actions, capacity) && Quiet(After(Init<T>(n), actions, capacity))
    ensures var s := After(Init<T>(n), actions, capacity);
            && (forall c :: c in s.threads ==>
                  || c.Outside?
                  || (c.PopAsleep? && !s.queue.closed && s.queue.items == [])
                  || (c.PushAsleep? && !s.queue.closed && |s.queue.items| == capacity))
            && (capacity > 0 && PopAsleep in s.threads ==> forall v :: PushAsleep(v) !in s.threads)
  {
    QuietThreads(After(Init<T>(n), actions, capacity));
    hide Run, After, Init, Quiet;
    SleepersHaveReason<T>(n, actions, capacity);
  }

  // ---- Every call is answered ------------------------------------------------------------------------------

  /** Pushes of this value that were answered, whether accepted or rejected. */
  ghost function PushAnswers<T>(log: seq<Event<T>>, v: T): nat {
    CountIf(log, (e: Event<T>) => e == Accepted(v) || e == Rejected(v))
  }

  predicate IsPopAnswer<T>(e: Event<T>) {
    e.Popped? || e.Drained? || e.Missed?
  }

  /** Answers of `pop` and `try_pop`. */
  function PopAnswers<T>(log: seq<Event<T>>): nat {
    CountIf(log, (e: Event<T>) => IsPopAnswer(e))
  }

  predicate IsPushing<T>(c: Thread<T>) {
    c.Pushing? || c.PushAsleep? || c.PushWoken?
  }

  predicate IsPopping<T>(c: Thread<T>) {
    c.Popping? || c.PopAsleep? || c.PopWoken?
  }

  /** Threads still trying to push this value, and threads still trying to pop. */
  ghost function Pushers<T>(ts: seq<Thread<T>>, v: T): nat {
    CountIf(ts, (c: Thread<T>) => IsPushing(c) && c.value == v)
  }

  function Poppers<T>(ts: seq<Thread<T>>): nat {
    CountIf(ts, (c: Thread<T>) => IsPopping(c))
  }

  ghost function PushCalls<T>(actions: seq<Action<T>>, v: T): nat {
    if actions == [] then 0
    else (if actions[0].CallPush? && actions[0].value == v then 1 else 0) + PushCalls(actions[1..], v)
  }

  function PopCalls<T>(actions: seq<Action<T>>): nat {
    if actions == [] then 0
    else (if actions[0].CallPop? || actions[0].CallTryPop? then 1 else 0) + PopCalls(actions[1..])
  }

  /** Calls so far that were answered or are still inside. */
  ghost function PushesSeen<T>(s: State<T>, v: T): nat {
    PushAnswers(s.log, v) + Pushers(s.threads, v)
  }

  function PopsSeen<T>(s: State<T>): nat {
    PopAnswers(s.log) + Poppers(s.threads)
  }

  lemma LogStep<T>(log: seq<Event<T>>, e: Event<T>, v: T)
    ensures PushAnswers(log + [e], v) == PushAnswers(log, v) + if e == Accepted(v) || e == Rejected(v) then 1 else 0
    ensures PopAnswers(log + [e]) == PopAnswers(log) + if IsPopAnswer(e) then 1 else 0
  {
    assert (log + [e])[..|log|] == log;
  }

  lemma MoveKeepsCalls<T>(ts: seq<Thread<T>>, i: nat, c: Thread<T>, v: T)
    requires i < |ts|
    ensures Pushers(ts[i := c], v) + (if IsPushing(ts[i]) && ts[i].value == v then 1 else 0)
            == Pushers(ts, v) + (if IsPushing(c) && c.value == v then 1 else 0)
    ensures Poppers(ts[i := c]) + (if IsPopping(ts[i]) then 1 else 0) == Poppers(ts) + (if IsPopping(c) then 1 else 0)
  {
    CountUpdate(ts, i, c, (c: Thread<T>) => IsPushing(c) && c.value == v);
    CountUpdate(ts, i, c, (c: Thread<T>) => IsPopping(c));
  }

  lemma WakingKeepsCalls<T>(ts: seq<Thread<T>>, consumers: bool, v: T)
    ensures Pushers(WakeAll(ts, consumers), v) == Pushers(ts, v) && Poppers(WakeAll(ts, consumers)) == Poppers(ts)
  {
    CountSame(WakeAll(ts, consumers), ts, (c: Thread<T>) => IsPushing(c) && c.value == v);
    CountSame(WakeAll(ts, consumers), ts, (c: Thread<T>) => IsPopping(c));
  }

  /** A step that moves one thread and logs at most one answer. */
  lemma CallsAfter<T>(s: State<T>, t: nat, c: Thread<T>, answer: Option<Event<T>>, u: State<T>, v: T)
    requires t < |s.threads| && u.threads == s.threads[t := c]
    requires u.log == s.log + if answer.Some? then [answer.value] else []
    ensures PushesSeen(u, v) + (if IsPushing(s.threads[t]) && s.threads[t].value == v then 1 else 0)
            == PushesSeen(s, v) + (if IsPushing(c) && c.value == v then 1 else 0)
               + (if answer == Some(Accepted(v)) || answer == Some(Rejected(v)) then 1 else 0)
    ensures PopsSeen(u) + (if IsPopping(s.threads[t]) then 1 else 0)
            == PopsSeen(s) + (if IsPopping(c) then 1 else 0)
               + if answer.Some? && IsPopAnswer(answer.value) then 1 else 0
  {
    hide PushAnswers, PopAnswers, Pushers, Poppers;
    MoveKeepsCalls(s.threads, t, c, v);
    if answer.Some? {
      LogStep(s.log, answer.value, v);
    } else {
      assert s.log + [] == s.log;
    }
  }

  lemma EnterPushKeepsCalls<T>(s: State<T>, t: nat, capacity: nat, value: T, v: T)
    requires t < |s.threads| && IsPushing(s.threads[t]) && s.threads[t].value == value
    ensures PushesSeen(EnterPush(s, t, capacity, value), v) == PushesSeen(s, v)
    ensures PopsSeen(EnterPush(s, t, capacity, value)) == PopsSeen(s)
  {
    var u := EnterPush(s, t, capacity, value);
    assert s.log + [] == s.log;
    hide PushesSeen, PopsSeen;
    match PushSection(s.queue, capacity, value).1
    case PushBlocked => CallsAfter(s, t, PushAsleep(value), None, u, v);
    case PushRejected => CallsAfter(s, t, Outside, Some(Rejected(value)), u, v);
    case PushAccepted => CallsAfter(s, t, NotifyNotEmpty, Some(Accepted(value)), u, v);
  }

  lemma EnterPopKeepsCalls<T>(s: State<T>, t: nat, v: T)
    requires t < |s.threads| && !IsPushing(s.threads[t])
    ensures PushesSeen(EnterPop(s, t), v) == PushesSeen(s, v)
    ensures PopsSeen(EnterPop(s, t)) + (if IsPopping(s.threads[t]) then 1 else 0)
            == PopsSeen(s) + 1
  {
    var u := EnterPop(s, t);
    assert s.log + [] == s.log;
    hide PushesSeen, PopsSeen;
    match PopSection(s.queue).1
    case PopBlocked => CallsAfter(s, t, PopAsleep, None, u, v);
    case PopDrained => CallsAfter(s, t, Outside, Some(Drained), u, v);
    case PopTook(x) => CallsAfter(s, t, NotifyNotFull, Some(Popped(x)), u, v);
  }

  lemma EnterKeepsCalls<T>(s: State<T>, t: nat, capacity: nat, v: T)
    requires Enabled(s, Action<T>.Enter(t))
    ensures PushesSeen(Apply(s, Enter(t), capacity), v) == PushesSeen(s, v)
    ensures PopsSeen(Apply(s, Enter(t), capacity)) == PopsSeen(s)
  {
    hide PushesSeen, PopsSeen, EnterPush, EnterPop;
    match s.threads[t] {
      case Pushing(value) => EnterPushKeepsCalls(s, t, capacity, value, v);
      case PushWoken(value) => EnterPushKeepsCalls(s, t, capacity, value, v);
      case _ => EnterPopKeepsCalls(s, t, v);
    }
  }

  lemma TryPopKeepsCalls<T>(s: State<T>, t: nat, capacity: nat, v: T)
    requires Enabled(s, Action<T>.CallTryPop(t))
    ensures PushesSeen(Apply(s, CallTryPop(t), capacity), v) == PushesSeen(s, v)
    ensures PopsSeen(Apply(s, CallTryPop(t), capacity)) == PopsSeen(s) + 1
  {
    hide PushesSeen, PopsSeen, EnterPop;
    if s.queue.items == [] {
      assert s.threads[t := s.threads[t]] == s.threads;
      CallsAfter(s, t, s.threads[t], Some(Missed), Apply(s, CallTryPop(t), capacity), v);
    } else {
      EnterPopKeepsCalls(s, t, v);
    }
  }

  lemma NotifyKeepsCalls<T>(s: State<T>, a: Action<T>, capacity: nat, v: T)
    requires Enabled(s, a) && (a.Notify? || a.NotifyAll?)
    ensures PushesSeen(Apply(s, a, capacity), v) == PushesSeen(s, v) && PopsSeen(Apply(s, a, capacity)) == PopsSeen(s)
  {
    hide PushAnswers, PopAnswers, Pushers, Poppers, WakeAll;
    match a
    case Notify(t, target) =>
      match target {
        case None => MoveKeepsCalls(s.threads, t, Outside, v);
        case Some(i) =>
          MoveKeepsCalls(s.threads, i, Woken(s.threads[i]), v);
          MoveKeepsCalls(s.threads[i := Woken(s.threads[i])], t, Outside, v);
      }
    case NotifyAll(t) =>
      var first := s.threads[t].CloseNotEmpty?;
      WakingKeepsCalls(s.threads, first, v);
      MoveKeepsCalls(WakeAll(s.threads, first), t, if first then CloseNotFull else Outside, v);
  }

  lemma StepKeepsCalls<T>(s: State<T>, a: Action<T>, capacity: nat, v: T)
    requires Enabled(s, a)
    ensures var t := Apply(s, a, capacity);
            && PushesSeen(t, v) == PushesSeen(s, v) + (if a.CallPush? && a.value == v then 1 else 0)
            && PopsSeen(t) == PopsSeen(s) + (if a.CallPop? || a.CallTryPop? then 1 else 0)
  {
    hide PushesSeen, PopsSeen, WakeAll, EnterPush, EnterPop, TryPopStep;
    var u := Apply(s, a, capacity);
    match a
    case CallPush(t, w) =>
      assert s.log + [] == s.log;
      CallsAfter(s, t, Pushing(w), None, u, v);
    case CallPop(t) =>
      assert s.log + [] == s.log;
      CallsAfter(s, t, Popping, None, u, v);
    case CallTryPop(t) => TryPopKeepsCalls(s, t, capacity, v);
    case CallClose(t) => CallsAfter(s, t, CloseNotEmpty, Some(Closed), u, v);
    case Enter(t) => EnterKeepsCalls(s, t, capacity, v);
    case Notify(_, _) => NotifyKeepsCalls(s, a, capacity, v);
    case NotifyAll(_) => NotifyKeepsCalls(s, a, capacity, v);
    case Spurious(t) =>
      assert s.log + [] == s.log;
      CallsAfter(s, t, Woken(s.threads[t]), None, u, v);
  }

  lemma {:induction false} RunKeepsCalls<T>(s: State<T>, actions: seq<Action<T>>, capacity: nat, v: T)
    requires Run(s, actions, capacity)
    ensures PushesSeen(After(s, actions, capacity), v) == PushesSeen(s, v) + PushCalls(actions, v)
    ensures PopsSeen(After(s, actions, capacity)) == PopsSeen(s) + PopCalls(actions)
    decreases |actions|
  {
    hide Apply, Enabled, PushesSeen, PopsSeen;
    if actions != [] {
      StepKeepsCalls(s, actions[0], capacity, v);
      RunKeepsCalls(Apply(s, actions[0], capacity), actions[1..], capacity, v);
    }
  }

  /** Over every interleaving no call is lost or answered twice: each push of a value has been accepted or
      rejected once, or its thread is still at it; and so for `pop` and `try_pop`. */
  lemma EveryCallAnswered<T>(n: nat, actions: seq<Action<T>>, capacity: nat, v: T)
    requires Run(Init<T>(n), actions, capacity)
    ensures var s := After(Init<T>(n), actions, capacity);
            && PushCalls(actions, v) == PushAnswers(s.log, v) + Pushers(s.threads, v)
            && PopCalls(actions) == PopAnswers(s.log) + Poppers(s.threads)
  {
    RunKeepsCalls(Init<T>(n), actions, capacity, v);
    var ts := Init<T>(n).threads;
    CountSome(ts, (c: Thread<T>) => IsPopping(c));
    CountSome(ts, (c: Thread<T>) => IsPushing(c) && c.value == v);
    hide Run, After;
  }
}
