/**
 The job handle: a one-shot future that several callers resolve through `wait`, `error` and
 `stats`. The class holds the sections that run under the result mutex; the step system
 interleaves the callers with the pipeline thread that fulfils the promise.
 */
module JobHandle {
  import opened Common
  import opened Counting
  import Pipeline

  type Stats = Pipeline.Stats

  const NO_STATS := Pipeline.Stats(0, 0, 0, 0, 0)
  const NO_FUTURE := Error(StatusCode.Internal, "JobHandle has no future")

  // ---- Critical sections -----------------------------------------------------------------

  /** What the result mutex protects; `valid` says whether the future is still here. */
  datatype Handle = Handle(valid: bool, resolved: bool, stats: Stats, error: Option<Error>)

  /** First section of `wait`: the flag says whether the caller took the future. */
  function WaitBegin(h: Handle): (Handle, bool) {
    if h.resolved then (h, false)
    else if !h.valid then (h.(error := Some(NO_FUTURE), resolved := true), false)
    else (h.(valid := false), true)
  }

  /** Second section of `wait`, once the future has been read. */
  function WaitEnd(h: Handle, result: Result<Stats>): Handle {
    match result
    case Ok(stats) => h.(stats := stats, resolved := true)
    case Err(e) => h.(error := Some(e), resolved := true)
  }

  function DoneSection(h: Handle, ready: bool): bool {
    h.resolved || (h.valid && ready)
  }

  class JobHandleImpl {
    var valid: bool
    var resolved: bool
    var stats: Stats
    var error: Option<Error>

    function Value(): Handle
      reads this
    {
      Handle(valid, resolved, stats, error)
    }

    constructor ()
      ensures Value() == Handle(false, false, NO_STATS, None)
    {
      valid, resolved, stats, error := false, false, NO_STATS, None;
    }

    method SetFuture()
      modifies this
      ensures Value() == old(Value()).(valid := true)
    {
      valid := true;
    }

    method BeginWait() returns (took: bool)
      modifies this
      ensures (Value(), took) == WaitBegin(old(Value()))
    {
      if resolved {
        return false;
      }
      if !valid {
        error := Some(NO_FUTURE);
        resolved := true;
        return false;
      }
      valid := false;
      took := true;
    }

    method EndWait(result: Result<Stats>)
      modifies this
      ensures Value() == WaitEnd(old(Value()), result)
    {
      match result {
        case Ok(s) => stats := s;
        case Err(e) => error := Some(e);
      }
      resolved := true;
    }

    method Done(ready: bool) returns (r: bool)
      ensures r == DoneSection(Value(), ready)
    {
      if resolved {
        return true;
      }
      if !valid {
        return false;
      }
      r := ready;
    }
  }

  // ---- Callers and steps --------------------------------------------------------------------

  datatype Query = ForNothing | ForError | ForStats

  /** `Blocking` callers hold the future; `Reading` ones have returned from `wait`. */
  datatype Caller = Idle | Waiting(query: Query) | Blocking(query: Query) | Reading(query: Query)

  datatype Answer = ErrorIs(error: Option<Error>) | StatsAre(stats: Stats) | DoneIs(done: bool)

  datatype State = State(
    handle: Handle,
    result: Option<Result<Stats>>,   // what the pipeline thread has delivered
    callers: seq<Caller>,
    answers: seq<Answer>,
    overlapped: bool)                // some caller entered `wait` while another held the future

  datatype Action =
    | Call(c: nat, query: Query) | Begin(c: nat) | End(c: nat) | Read(c: nat)
    | Poll | Deliver(result: Result<Stats>)

  predicate Enabled(s: State, a: Action) {
    match a
    case Call(c, _) => c < |s.callers| && s.callers[c].Idle?
    case Begin(c) => c < |s.callers| && s.callers[c].Waiting?
    case End(c) => c < |s.callers| && s.callers[c].Blocking? && s.result.Some?
    case Read(c) => c < |s.callers| && s.callers[c].Reading?
    case Poll => true
    case Deliver(_) => s.result.None?
  }

  function Answered(s: State, query: Query): State {
    match query
    case ForNothing => s
    case ForError => s.(answers := s.answers + [ErrorIs(s.handle.error)])
    case ForStats => s.(answers := s.answers + [StatsAre(s.handle.stats)])
  }

  function Apply(s: State, a: Action): State
    requires Enabled(s, a)
  {
    match a
    case Call(c, query) =>
      if !query.ForNothing? && s.handle.resolved then Answered(s, query)
      else s.(callers := s.callers[c := Waiting(query)])
    case Begin(c) =>
      var (h, took) := WaitBegin(s.handle);
      var query := s.callers[c].query;
      s.(handle := h,
         callers := s.callers[c := if took then Blocking(query) else Reading(query)],
         overlapped := s.overlapped || (!s.handle.resolved && !s.handle.valid))
    case End(c) =>
      s.(handle := WaitEnd(s.handle, s.result.value), callers := s.callers[c := Reading(s.callers[c].query)])
    case Read(c) => Answered(s, s.callers[c].query).(callers := s.callers[c := Idle])
    case Poll => s.(answers := s.answers + [DoneIs(DoneSection(s.handle, s.result.Some?))])
    case Deliver(r) => s.(result := Some(r))
  }

  predicate Run(s: State, actions: seq<Action>)
    decreases |actions|
  {
    actions == [] || (Enabled(s, actions[0]) && Run(Apply(s, actions[0]), actions[1..]))
  }

  function After(s: State, actions: seq<Action>): State
    requires Run(s, actions)
    decreases |actions|
  {
    if actions == [] then s else After(Apply(s, actions[0]), actions[1..])
  }

  /** A handle as `submit` returns it. */
  function Init(callers: nat): State {
    State(Handle(true, false, NO_STATS, None), None, seq(callers, _ => Idle), [], false)
  }

  // ---- Invariant ---------------------------------------------------------------------------------

  function StatsOf(r: Result<Stats>): Stats {
    if r.Ok? then r.value else NO_STATS
  }

  function ErrorOf(r: Result<Stats>): Option<Error> {
    if r.Ok? then None else Some(r.error)
  }

  predicate Held(s: State) {
    exists c :: 0 <= c < |s.callers| && s.callers[c].Blocking?
  }

  /** The future is in one place: in the handle, with one caller, or used up. */
  predicate OneFuture(s: State) {
    && (forall c, d :: 0 <= c < d < |s.callers| && s.callers[c].Blocking? ==> !s.callers[d].Blocking?)
    && (s.handle.valid ==> !Held(s) && !s.handle.resolved && !s.overlapped)
    && (!s.handle.valid && !Held(s) ==> s.handle.resolved && s.result.Some?)
    && (Held(s) ==> s.handle.resolved == s.overlapped)
    && (s.overlapped ==> s.handle.resolved)
  }

  /** What is stored, in terms of the delivered result. */
  predicate Stored(s: State) {
    if s.handle.valid || Held(s) then
      s.handle.stats == NO_STATS && s.handle.error == if s.overlapped then Some(NO_FUTURE) else None
    else
      && s.result.Some?
      && s.handle.stats == StatsOf(s.result.value)
      && s.handle.error == if s.overlapped && s.result.value.Ok? then Some(NO_FUTURE) else ErrorOf(s.result.value)
  }

  predicate Inv(s: State) {
    OneFuture(s) && Stored(s)
  }

  lemma HeldAfterMove(s: State, c: nat, caller: Caller)
    requires c < |s.callers| && OneFuture(s)
    ensures Held(s.(callers := s.callers[c := caller]))
            == if s.callers[c].Blocking? then caller.Blocking? else caller.Blocking? || Held(s)
  {
    var t := s.(callers := s.callers[c := caller]);
    assert t.callers[c] == caller;
    if Held(s) {
      var d :| 0 <= d < |s.callers| && s.callers[d].Blocking?;
      assert d != c ==> t.callers[d].Blocking?;
    }
  }

  lemma StepKeepsInv(s: State, a: Action)
    requires Enabled(s, a) && Inv(s)
    ensures Inv(Apply(s, a))
    ensures s.handle.resolved && !s.overlapped ==> Apply(s, a).handle == s.handle && !Apply(s, a).overlapped
  {
    var t := Apply(s, a);
    if a.Call? || a.Begin? || a.End? || a.Read? {
      HeldAfterMove(s, a.c, t.callers[a.c]);
      assert Held(t) == Held(s.(callers := s.callers[a.c := t.callers[a.c]]));
    } else {
      assert Held(t) == Held(s);
    }
  }

  lemma {:induction false} RunKeepsInv(s: State, actions: seq<Action>)
    requires Inv(s) && Run(s, actions)
    ensures Inv(After(s, actions))
    ensures s.handle.resolved && !s.overlapped ==> After(s, actions).handle == s.handle && !After(s, actions).overlapped
    decreases |actions|
  {
    hide Inv, Apply, Enabled;
    if actions != [] {
      StepKeepsInv(s, actions[0]);
      RunKeepsInv(Apply(s, actions[0]), actions[1..]);
    }
  }

  // ---- Stability -----------------------------------------------------------------------------------

  /** Once every waiter has returned, the stored result is the delivered one exactly when no caller
      entered `wait` while another held the future, or the job failed anyway. */
  lemma StoredExactly(callers: nat, actions: seq<Action>)
    requires Run(Init(callers), actions)
    ensures var s := After(Init(callers), actions);
            s.handle.resolved && !Held(s) ==>
              && s.result.Some?
              && s.handle.stats == StatsOf(s.result.value)
              && (s.handle.error == ErrorOf(s.result.value) <==>
                    !s.overlapped || s.result.value.Err?)
  {
    RunKeepsInv(Init(callers), actions);
  }

  /** Without such an overlap the first resolution is the delivered result, and it is final. */
  lemma ResolvedForever(callers: nat, before: seq<Action>, later: seq<Action>)
    requires Run(Init(callers), before) && Run(After(Init(callers), before), later)
    requires var s := After(Init(callers), before); s.handle.resolved && !s.overlapped
    ensures var s, t := After(Init(callers), before), After(After(Init(callers), before), later);
            && s.result.Some? && t.handle == s.handle
            && t.handle.stats == StatsOf(s.result.value) && t.handle.error == ErrorOf(s.result.value)
  {
    RunKeepsInv(Init(callers), before);
    RunKeepsInv(After(Init(callers), before), later);
  }

  /** The answers given so far agree with the delivered result. */
  predicate Truthful(s: State) {
    forall a :: a in s.answers ==>
      match a
      case ErrorIs(e) => s.result.Some? && e == ErrorOf(s.result.value)
      case StatsAre(x) => s.result.Some? && x == StatsOf(s.result.value)
      case DoneIs(d) => d ==> s.result.Some?
  }

  /** A caller that returned from `wait` left a resolved handle. */
  predicate ReadersResolved(s: State) {
    forall c :: 0 <= c < |s.callers| && s.callers[c].Reading? ==> s.handle.resolved
  }

  lemma StepTruthful(s: State, a: Action)
    requires Enabled(s, a) && Inv(s) && ReadersResolved(s) && !Apply(s, a).overlapped && Truthful(s)
    ensures Truthful(Apply(s, a)) && ReadersResolved(Apply(s, a))
  {
    var t := Apply(s, a);
    if s.result.Some? {
      assert t.result == s.result;
    }
  }

  lemma {:induction false} RunTruthful(s: State, actions: seq<Action>)
    requires Inv(s) && Run(s, actions) && ReadersResolved(s) && Truthful(s) && !After(s, actions).overlapped
    ensures Truthful(After(s, actions))
    decreases |actions|
  {
    if actions != [] {
      var t := Apply(s, actions[0]);
      StepKeepsInv(s, actions[0]);
      OverlapStays(t, actions[1..]);
      hide Inv, Apply, Enabled, Truthful, ReadersResolved;
      StepTruthful(s, actions[0]);
      RunTruthful(t, actions[1..]);
    }
  }

  lemma {:induction false} OverlapStays(s: State, actions: seq<Action>)
    requires Run(s, actions)
    ensures s.overlapped ==> After(s, actions).overlapped
    decreases |actions|
  {
    if actions != [] {
      OverlapStays(Apply(s, actions[0]), actions[1..]);
    }
  }

  /** At most one caller is inside `wait`. */
  predicate SoleWaiter(s: State) {
    forall c, d :: 0 <= c < d < |s.callers| && (s.callers[c].Waiting? || s.callers[c].Blocking?) ==>
      !s.callers[d].Waiting? && !s.callers[d].Blocking?
  }

  predicate AlwaysSole(s: State, actions: seq<Action>)
    requires Run(s, actions)
    decreases |actions|
  {
    SoleWaiter(s) && (actions != [] ==> AlwaysSole(Apply(s, actions[0]), actions[1..]))
  }

  lemma {:induction false} SoleNeverOverlaps(s: State, actions: seq<Action>)
    requires Inv(s) && !s.overlapped && Run(s, actions) && AlwaysSole(s, actions)
    ensures !After(s, actions).overlapped
    decreases |actions|
  {
    if actions != [] {
      StepKeepsInv(s, actions[0]);
      var t := Apply(s, actions[0]);
      assert !t.overlapped;
      SoleNeverOverlaps(t, actions[1..]);
    }
  }

  /** With at most one caller inside `wait` at any time, every answer ever given to `error` and `stats`
      is the pipeline's result, and `done` never says yes early. */
  lemma SoleWaiterIsTruthful(callers: nat, actions: seq<Action>)
    requires Run(Init(callers), actions) && AlwaysSole(Init(callers), actions)
    ensures Truthful(After(Init(callers), actions))
  {
    SoleNeverOverlaps(Init(callers), actions);
    RunTruthful(Init(callers), actions);
  }

  /** `done` answers yes when the result is there and no caller holds the future, and, wrongly or not,
      always once two callers have overlapped inside `wait`. */
  lemma DoneExactly(callers: nat, actions: seq<Action>)
    requires Run(Init(callers), actions)
    ensures var s := After(Init(callers), actions);
            && (DoneSection(s.handle, s.result.Some?) <==> s.overlapped || (s.result.Some? && !Held(s)))
            && Apply(s, Poll) == s.(answers := s.answers + [DoneIs(s.overlapped || (s.result.Some? && !Held(s)))])
  {
    RunKeepsInv(Init(callers), actions);
  }

  /** So `done` is wrong in exactly two ways: it misses a delivered result while one caller alone holds
      the future, and it announces a result that is not there after an overlap. */
  lemma DoneIsRightExactly(callers: nat, actions: seq<Action>)
    requires Run(Init(callers), actions)
    ensures var s := After(Init(callers), actions);
            DoneSection(s.handle, s.result.Some?) == s.result.Some? <==>
              (if s.result.Some? then s.overlapped || !Held(s) else !s.overlapped)
  {
    DoneExactly(callers, actions);
  }

  /** A second waiter makes `done` announce a job that is still running. */
  lemma SecondWaiterIsDoneEarly()
    ensures var actions := [Call(0, ForNothing), Begin(0), Call(1, ForNothing), Begin(1)];
            && Run(Init(2), actions)
            && var s := After(Init(2), actions);
               s.result.None? && DoneSection(s.handle, s.result.Some?)
  {
    var s0 := Init(2);
    var s1 := Apply(s0, Call(0, ForNothing));
    var s2 := Apply(s1, Begin(0));
    var s3 := Apply(s2, Call(1, ForNothing));
    hide Run, After;
    NoSteps(Apply(s3, Begin(1)));
    StepRun(s3, Begin(1), []);
    StepRun(s2, Call(1, ForNothing), [Begin(1)]);
    StepRun(s1, Begin(0), [Call(1, ForNothing), Begin(1)]);
    StepRun(s0, Call(0, ForNothing), [Begin(0), Call(1, ForNothing), Begin(1)]);
  }

  /** The hypothesis is needed: a second waiter stores an Internal error that the later success
      of the job does not clear. */
  lemma SecondWaiterSpoils(stats: Stats)
    ensures var actions := [Call(0, ForNothing), Begin(0), Call(1, ForError), Begin(1), Read(1), Deliver(Ok(stats)),
                            End(0)];
            && Run(Init(2), actions)
            && var s := After(Init(2), actions);
               && s.result == Some(Ok(stats)) && s.handle.resolved && !Held(s)
               && s.handle.stats == stats && s.handle.error == Some(NO_FUTURE)
               && NO_FUTURE.code == StatusCode.Internal
  {
    var s0 := Init(2);
    var s1 := Apply(s0, Call(0, ForNothing));
    var s2 := Apply(s1, Begin(0));
    var s3 := Apply(s2, Call(1, ForError));
    var s4 := Apply(s3, Begin(1));
    var s5 := Apply(s4, Read(1));
    var s6 := Apply(s5, Deliver(Ok(stats)));
    var s7 := Apply(s6, End(0));
    assert s7.callers == [Reading(ForNothing), Idle];
    hide Run, After;
    NoSteps(s7);
    StepRun(s6, End(0), []);
    StepRun(s5, Deliver(Ok(stats)), [End(0)]);
    StepRun(s4, Read(1), [Deliver(Ok(stats)), End(0)]);
    StepRun(s3, Begin(1), [Read(1), Deliver(Ok(stats)), End(0)]);
    StepRun(s2, Call(1, ForError), [Begin(1), Read(1), Deliver(Ok(stats)), End(0)]);
    StepRun(s1, Begin(0), [Call(1, ForError), Begin(1), Read(1), Deliver(Ok(stats)), End(0)]);
    StepRun(s0, Call(0, ForNothing), [Begin(0), Call(1, ForError), Begin(1), Read(1), Deliver(Ok(stats)), End(0)]);
  }

  lemma NoSteps(s: State)
    ensures Run(s, []) && After(s, []) == s
  {
  }

  lemma StepRun(s: State, a: Action, rest: seq<Action>)
    requires Enabled(s, a) && Run(Apply(s, a), rest)
    ensures Run(s, [a] + rest) && After(s, [a] + rest) == After(Apply(s, a), rest)
  {
    assert ([a] + rest)[1..] == rest;
  }

  // ---- Every call is answered -------------------------------------------------------------------------

  predicate Answers(a: Answer, query: Query) {
    match query
    case ForError => a.ErrorIs?
    case ForStats => a.StatsAre?
    case ForNothing => false
  }

  function Asked(actions: seq<Action>, query: Query): nat {
    if actions == [] then 0
    else (if actions[0].Call? && actions[0].query == query then 1 else 0) + Asked(actions[1..], query)
  }

  function AnswersGiven(answers: seq<Answer>, query: Query): nat {
    CountIf(answers, (a: Answer) => Answers(a, query))
  }

  function Inside(callers: seq<Caller>, query: Query): nat {
    CountIf(callers, (c: Caller) => !c.Idle? && c.query == query)
  }

  lemma AnswerCounts(answers: seq<Answer>, a: Answer, query: Query)
    ensures AnswersGiven(answers + [a], query) == AnswersGiven(answers, query) + if Answers(a, query) then 1 else 0
  {
    assert (answers + [a])[..|answers|] == answers;
  }

  lemma InsideCounts(callers: seq<Caller>, c: nat, caller: Caller, query: Query)
    requires c < |callers|
    ensures Inside(callers[c := caller], query) + (if !callers[c].Idle? && callers[c].query == query then 1 else 0)
            == Inside(callers, query) + (if !caller.Idle? && caller.query == query then 1 else 0)
  {
    CountUpdate(callers, c, caller, (c: Caller) => !c.Idle? && c.query == query);
  }

  lemma StepAnswers(s: State, a: Action, query: Query)
    requires Enabled(s, a) && !query.ForNothing?
    ensures var t := Apply(s, a);
            AnswersGiven(t.answers, query) + Inside(t.callers, query)
            == AnswersGiven(s.answers, query) + Inside(s.callers, query)
               + if a.Call? && a.query == query then 1 else 0
  {
    hide AnswersGiven, Inside;
    var t := Apply(s, a);
    if t.answers != s.answers {
      AnswerCounts(s.answers, t.answers[|s.answers|], query);
      assert t.answers == s.answers + [t.answers[|s.answers|]];
    }
    if (a.Call? || a.Begin? || a.End? || a.Read?) {
      InsideCounts(s.callers, a.c, t.callers[a.c], query);
      assert t.callers == s.callers[a.c := t.callers[a.c]];
    }
  }

  /** Every call of `error` and `stats` is answered once, by an answer of its kind, or is still inside. */
  lemma {:induction false} EveryQueryAnswered(s: State, actions: seq<Action>, query: Query)
    requires Run(s, actions) && !query.ForNothing?
    ensures var t := After(s, actions);
            AnswersGiven(t.answers, query) + Inside(t.callers, query)
            == AnswersGiven(s.answers, query) + Inside(s.callers, query) + Asked(actions, query)
    decreases |actions|
  {
    hide Apply, Enabled, AnswersGiven, Inside;
    if actions != [] {
      StepAnswers(s, actions[0], query);
      EveryQueryAnswered(Apply(s, actions[0]), actions[1..], query);
    }
  }

  // ---- Progress ------------------------------------------------------------------------------------------

  /** Steps of callers that are already inside. */
  predicate Internal(a: Action) {
    a.Begin? || a.End? || a.Read?
  }

  function StepsLeft(c: Caller): nat {
    match c
    case Idle => 0
    case Waiting(_) => 3
    case Blocking(_) => 2
    case Reading(_) => 1
  }

  function AllSteps(callers: seq<Caller>): nat {
    if callers == [] then 0 else AllSteps(callers[..|callers| - 1]) + StepsLeft(callers[|callers| - 1])
  }

  lemma {:induction false} AllStepsUpdate(callers: seq<Caller>, i: nat, c: Caller)
    requires i < |callers|
    ensures AllSteps(callers[i := c]) + StepsLeft(callers[i]) == AllSteps(callers) + StepsLeft(c)
    decreases |callers|
  {
    hide StepsLeft;
    var k := |callers| - 1;
    if i < k {
      AllStepsUpdate(callers[..k], i, c);
      assert callers[i := c][..k] == callers[..k][i := c];
    } else {
      assert callers[i := c][..k] == callers[..k];
    }
  }

  lemma InternalDecreases(s: State, a: Action)
    requires Enabled(s, a) && Internal(a)
    ensures AllSteps(Apply(s, a).callers) < AllSteps(s.callers)
  {
    hide AllSteps;
    AllStepsUpdate(s.callers, a.c, Apply(s, a).callers[a.c]);
    assert Apply(s, a).callers == s.callers[a.c := Apply(s, a).callers[a.c]];
  }

  /** Callers take a bounded number of steps. */
  lemma {:induction false} InternalRunsEnd(s: State, actions: seq<Action>)
    requires Run(s, actions) && forall a :: a in actions ==> Internal(a)
    ensures |actions| + AllSteps(After(s, actions).callers) <= AllSteps(s.callers)
    decreases |actions|
  {
    hide AllSteps, Apply, Enabled, Internal;
    if actions != [] {
      InternalDecreases(s, actions[0]);
      InternalRunsEnd(Apply(s, actions[0]), actions[1..]);
    }
  }

  /** A caller that can go no further is the one that waits for a result still to come; once the result is
      there every call returns. */
  lemma QuietMeansAnswered(s: State)
    requires forall a :: Internal(a) ==> !Enabled(s, a)
    ensures forall c :: 0 <= c < |s.callers| ==> s.callers[c].Idle? || (s.callers[c].Blocking? && s.result.None?)
  {
    forall c: nat | c < |s.callers|
      ensures s.callers[c].Idle? || (s.callers[c].Blocking? && s.result.None?)
    {
      assert !Enabled(s, Begin(c)) && !Enabled(s, End(c)) && !Enabled(s, Read(c));
    }
  }
}
