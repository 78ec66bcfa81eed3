/**
 * The dispatch of a ready check (begun, then finished) and of a ready gate (one
 * batch), and the recovery that closes a dispatch no running step will close.
 */
module DeterministicDispatch {
  import opened Wrappers
  import opened Text
  import opened Workflow
  import opened GoalRunnable
  import opened GoalActions
  import opened GoalBlockage
  import opened GoalContinuation
  import AD = ActionDispatch

  datatype Rejection =
    | GoalNotStarted | GoalNotActive | ContinuationPending | DispatchPending | DispatchIdRequired
    | TimestampInvalid | StaleSelection | DispatchNotPending

  // A decision on a state, as the caller holds it.
  datatype Request = Request(dispatchId: string, identity: Identity, work: WorkAction, at: Timestamp)

  // An operation either answers, rejects the request, or ends in an exception of the projection.
  datatype Reply<+T> = Done(value: T) | Rejected(code: Rejection) | Thrown(error: AD.DispatchError)

  datatype Batch = Batch(state: State, events: seq<AD.GoalEvent>)

  // What the projection computes beside the dispatch part: the phase and the hash of the new state.
  datatype Projection = Projection(phaseOf: State -> Phase, hashOf: State -> string)

  // ---------------------------------------------------------------------
  // Events
  // ---------------------------------------------------------------------

  function DispatchOf(state: State): AD.Runtime {
    if state.goal.Some? then state.goal.value.dispatch.GetOr(AD.FRESH) else AD.FRESH
  }

  function PendingOf(state: State): Option<AD.PendingDispatch> {
    DispatchOf(state).pending
  }

  // The state with this dispatch runtime; both ordinal fields of the goal follow the scheduler ordinal.
  function WithDispatch(state: State, runtime: AD.Runtime): State
    requires state.goal.Some? && runtime.schedulerOrdinal >= 0
  {
    state.(goal := Some(state.goal.value.(dispatch := Some(runtime), schedulerOrdinal := Some(runtime.schedulerOrdinal),
                                          continuationOrdinal := runtime.schedulerOrdinal)))
  }

  /** `applyEvent` for a lifecycle event of a state with a goal. */
  function ApplyLifecycle(p: Projection, state: State, event: AD.LifecycleEvent): Result<State, AD.DispatchError>
    requires state.goal.Some? && DispatchOf(state).schedulerOrdinal >= 0
    ensures var r := ApplyLifecycle(p, state, event);
      r.Ok? ==> r.value.goal.Some? && DispatchOf(r.value).schedulerOrdinal >= 0 && r.value.sequence == state.sequence + 1
  {
    match AD.Apply(DispatchOf(state), event)
    case Err(error) => Err(error)
    case Ok(runtime) =>
      var moved := state.(sequence := state.sequence + 1);
      var next := WithDispatch(moved.(phase := p.phaseOf(moved)), runtime);
      Ok(next.(snapshotHash := p.hashOf(next)))
  }

  // ---------------------------------------------------------------------
  // Validation
  // ---------------------------------------------------------------------

  function ValidateSelection(state: State, request: Request, kind: WorkKind): Option<Rejection> {
    if state.goal.None? then Some(GoalNotStarted)
    else
      var goal := state.goal.value;
      if goal.status != ActiveGoal || state.phase != PhaseRunning then Some(GoalNotActive)
      else if goal.pendingContinuation.Some? then Some(ContinuationPending)
      else if PendingOf(state).Some? then Some(DispatchPending)
      else if Blank(request.dispatchId) then Some(DispatchIdRequired)
      else if request.at.Unparseable? then Some(TimestampInvalid)
      else if request.identity != IdentityOf(state) then Some(StaleSelection)
      else
        var selected := SelectGoalContinuation(state);
        if !selected.Dispatch? || !selected.action.Work? || selected.action.work.kind != kind
           || !ActionMatches(selected.action, Work(request.work)) then Some(StaleSelection)
        else None
  }

  function Selection(state: State, request: Request): AD.LifecycleEvent
    requires state.goal.Some?
  {
    var ordinal := state.goal.value.schedulerOrdinal.GetOr(state.goal.value.continuationOrdinal) + 1;
    AD.Selected(AD.Dispatch(request.dispatchId, Some(Work(request.work)), AD.Deterministic, state.sequence, state.snapshotHash, ordinal), request.at)
  }

  // ---------------------------------------------------------------------
  // Operations
  // ---------------------------------------------------------------------

  // Select and dispatch, in that order.
  function Opened(p: Projection, state: State, request: Request): Reply<Batch>
    requires state.goal.Some? && DispatchOf(state).schedulerOrdinal >= 0
    ensures Opened(p, state, request).Done? ==>
      var next := Opened(p, state, request).value.state;
      next.goal.Some? && DispatchOf(next).schedulerOrdinal >= 0
  {
    var selected := Selection(state, request);
    match ApplyLifecycle(p, state, selected)
    case Err(error) => Thrown(error)
    case Ok(first) =>
      var dispatched := AD.Dispatched(request.dispatchId, request.at);
      match ApplyLifecycle(p, first, dispatched)
      case Err(error) => Thrown(error)
      case Ok(second) => Done(Batch(second, [AD.Action(selected), AD.Action(dispatched)]))
  }

  method BeginReadyCheckDispatch(p: Projection, state: State, request: Request) returns (r: Reply<Batch>)
    requires DispatchOf(state).schedulerOrdinal >= 0
    ensures match ValidateSelection(state, request, RunReadyCheck)
            case Some(code) => r == Rejected(code)
            case None => state.goal.Some? && r == Opened(p, state, request)
  {
    hide ValidateSelection, ApplyLifecycle, Selection, DispatchOf;
    GoalIsPresent(state, request, RunReadyCheck);
    var invalid := ValidateSelection(state, request, RunReadyCheck);
    if invalid.Some? {
      return Rejected(invalid.value);
    }
    var events: seq<AD.GoalEvent> := [];
    var event := Selection(state, request);
    events := events + [AD.Action(event)];
    var applied := ApplyLifecycle(p, state, event);
    if applied.Err? {
      return Thrown(applied.error);
    }
    var next := applied.value;
    event := AD.Dispatched(request.dispatchId, request.at);
    events := events + [AD.Action(event)];
    applied := ApplyLifecycle(p, next, event);
    if applied.Err? {
      return Thrown(applied.error);
    }
    next := applied.value;
    assert events == [AD.Action(Selection(state, request)), AD.Action(event)];
    return Done(Batch(next, events));
  }

  lemma GoalIsPresent(state: State, request: Request, kind: WorkKind)
    ensures ValidateSelection(state, request, kind).None? ==> state.goal.Some?
  {
  }

  function Finish(p: Projection, state: State, request: Request, status: AD.TerminalStatus, reason: Option<string>): Reply<Batch>
    requires DispatchOf(state).schedulerOrdinal >= 0
  {
    if PendingOf(state).None? || PendingOf(state).value.dispatch.dispatchId != request.dispatchId then Rejected(DispatchNotPending)
    else
      var event := AD.Finished(status, request.dispatchId, request.at, if Present(reason) then reason else None);
      match ApplyLifecycle(p, state, event)
      case Err(error) => Thrown(error)
      case Ok(next) => Done(Batch(next, [AD.Action(event)]))
  }

  // The recovery after a reload: no change for the model lane, one interrupted event otherwise.
  function InterruptPending(p: Projection, state: State, reason: string, at: Timestamp): Reply<Batch>
    requires DispatchOf(state).schedulerOrdinal >= 0
  {
    var pending := PendingOf(state);
    if pending.None? || pending.value.dispatch.lane == AD.Model then Done(Batch(state, []))
    else if at.Unparseable? then Rejected(TimestampInvalid)
    else
      var event := AD.Finished(AD.ActionInterrupted, pending.value.dispatch.dispatchId, at, Some(reason));
      match ApplyLifecycle(p, state, event)
      case Err(error) => Thrown(error)
      case Ok(next) => Done(Batch(next, [AD.Action(event)]))
  }

  // The reducer's answer to the gate command: a new state with its events, or the text of its refusal.
  type GateCommand = State -> Result<Batch, string>

  ghost predicate KeepsGoal(evaluate: GateCommand) {
    forall s :: evaluate(s).Ok? ==> evaluate(s).value.state.goal.Some? && DispatchOf(evaluate(s).value.state).schedulerOrdinal >= 0
  }

  // The gate batch: open, evaluate, close.
  ghost function GateBatch(p: Projection, state: State, request: Request, evaluate: GateCommand): Reply<Batch>
    requires state.goal.Some? && DispatchOf(state).schedulerOrdinal >= 0 && KeepsGoal(evaluate)
  {
    match Opened(p, state, request)
    case Rejected(code) => Rejected(code)
    case Thrown(error) => Thrown(error)
    case Done(start) =>
      match evaluate(start.state)
      case Err(text) => Closed(p, start.state, start.events, request, AD.ActionFailed, Some(text))
      case Ok(evaluated) => Closed(p, evaluated.state, start.events + evaluated.events, request, AD.ActionCompleted, None)
  }

  // Close the dispatch of the request on a state, after the events so far.
  function Closed(p: Projection, state: State, events: seq<AD.GoalEvent>, request: Request, status: AD.TerminalStatus, reason: Option<string>): Reply<Batch>
    requires state.goal.Some? && DispatchOf(state).schedulerOrdinal >= 0
  {
    var event := AD.Finished(status, request.dispatchId, request.at, reason);
    match ApplyLifecycle(p, state, event)
    case Err(error) => Thrown(error)
    case Ok(next) => Done(Batch(next, events + [AD.Action(event)]))
  }

  method DispatchReadyGate(p: Projection, state: State, request: Request, evaluate: GateCommand) returns (r: Reply<Batch>)
    requires DispatchOf(state).schedulerOrdinal >= 0 && KeepsGoal(evaluate)
    ensures match ValidateSelection(state, request, EvaluateReadyGate)
            case Some(code) => r == Rejected(code)
            case None => state.goal.Some? && r == GateBatch(p, state, request, evaluate)
  {
    hide ValidateSelection, ApplyLifecycle, Selection, DispatchOf;
    GoalIsPresent(state, request, EvaluateReadyGate);
    var invalid := ValidateSelection(state, request, EvaluateReadyGate);
    if invalid.Some? {
      return Rejected(invalid.value);
    }
    var events: seq<AD.GoalEvent> := [];
    var event := Selection(state, request);
    events := events + [AD.Action(event)];
    var applied := ApplyLifecycle(p, state, event);
    if applied.Err? {
      return Thrown(applied.error);
    }
    event := AD.Dispatched(request.dispatchId, request.at);
    events := events + [AD.Action(event)];
    applied := ApplyLifecycle(p, applied.value, event);
    if applied.Err? {
      return Thrown(applied.error);
    }
    var next := applied.value;
    assert events == [AD.Action(Selection(state, request)), AD.Action(event)];
    var evaluated := evaluate(next);
    if evaluated.Err? {
      return Closed(p, next, events, request, AD.ActionFailed, Some(evaluated.error));
    }
    return Closed(p, evaluated.value.state, events + evaluated.value.events, request, AD.ActionCompleted, None);
  }
}
