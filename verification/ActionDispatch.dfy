/**
 * The dispatch ledger: an action is selected, dispatched and closed, one at a
 * time, under a contiguous scheduler ordinal; and the projection of goal events
 * onto these lifecycle events.
 */
module ActionDispatch {
  import opened Wrappers
  import opened Ordinals
  import opened Text
  import opened Workflow
  import opened GoalActions

  datatype Lane = Deterministic | Model | Executor | UnknownLane

  datatype TerminalStatus = ActionCompleted | ActionFailed | ActionInterrupted

  // An absent action is selection data without an action kind.
  datatype Dispatch = Dispatch(
    dispatchId: string,
    action: Option<GoalAction>,
    lane: Lane,
    selectedSequence: int,
    selectedSnapshotHash: string,
    schedulerOrdinal: int)

  // A pending dispatch is `selected` until it has a dispatch time, then `dispatched`.
  datatype PendingDispatch = PendingDispatch(dispatch: Dispatch, selectedAt: Timestamp, dispatchedAt: Option<Timestamp>)

  datatype DispatchOutcome = DispatchOutcome(
    dispatch: Dispatch,
    status: TerminalStatus,
    selectedAt: Timestamp,
    dispatchedAt: Timestamp,
    completedAt: Timestamp,
    reason: Option<string>)

  datatype Runtime = Runtime(schedulerOrdinal: int, pending: Option<PendingDispatch>, lastOutcome: Option<DispatchOutcome>)

  datatype LifecycleEvent =
    | Selected(dispatch: Dispatch, timestamp: Timestamp)
    | Dispatched(dispatchId: string, timestamp: Timestamp)
    | Finished(status: TerminalStatus, dispatchId: string, timestamp: Timestamp, reason: Option<string>)

  datatype DispatchError =
    | InvalidTimestamp
    | StillPending
    | IdRequired
    | InvalidAction
    | InvalidLane
    | HashRequired
    | InvalidSequence
    | InvalidOrdinal
    | NonContiguousOrdinal
    | NoPendingDispatch
    | DifferentDispatch
    | AlreadyDispatched
    | DispatchedBeforeSelected
    | NotDispatched
    | CompletedBeforeDispatched
    | PendingOrdinalMismatch
    | OutcomeAheadOfOrdinal

  const FRESH := Runtime(0, None, None)

  // The comparison of two date texts: false whenever one is unparseable.
  predicate Before(a: Timestamp, b: Timestamp) {
    a.Millis? && b.Millis? && a.at < b.at
  }

  // The field checks shared by a selection and by the validator.
  function DispatchProblem(d: Dispatch): Option<DispatchError> {
    if Blank(d.dispatchId) then Some(IdRequired)
    else if d.action.None? then Some(InvalidAction)
    else if d.lane == UnknownLane then Some(InvalidLane)
    else if Blank(d.selectedSnapshotHash) then Some(HashRequired)
    else if !NonNegativeSafe(d.selectedSequence) then Some(InvalidSequence)
    else if !PositiveSafe(d.schedulerOrdinal) then Some(InvalidOrdinal)
    else None
  }

  // ---------------------------------------------------------------------
  // One lifecycle event
  // ---------------------------------------------------------------------

  // Why an event is refused, if it is.
  function Refusal(runtime: Runtime, event: LifecycleEvent): Option<DispatchError> {
    if event.timestamp.Unparseable? then Some(InvalidTimestamp)
    else if event.Selected? then
      if runtime.pending.Some? then Some(StillPending)
      else if DispatchProblem(event.dispatch).Some? then DispatchProblem(event.dispatch)
      else if event.dispatch.schedulerOrdinal != runtime.schedulerOrdinal + 1 then Some(NonContiguousOrdinal)
      else None
    else if runtime.pending.None? then Some(NoPendingDispatch)
    else
      var pending := runtime.pending.value;
      if event.dispatchId != pending.dispatch.dispatchId then Some(DifferentDispatch)
      else if event.Dispatched? then
        if pending.dispatchedAt.Some? then Some(AlreadyDispatched)
        else if Before(event.timestamp, pending.selectedAt) then Some(DispatchedBeforeSelected)
        else None
      else if pending.dispatchedAt.None? then Some(NotDispatched)
      else if Before(event.timestamp, pending.dispatchedAt.value) then Some(CompletedBeforeDispatched)
      else None
  }

  // The runtime after an event that is not refused.
  function Next(runtime: Runtime, event: LifecycleEvent): Runtime
    requires Refusal(runtime, event).None?
  {
    match event
    case Selected(dispatch, timestamp) => Runtime(dispatch.schedulerOrdinal, Some(PendingDispatch(dispatch, timestamp, None)), runtime.lastOutcome)
    case Dispatched(_, timestamp) => runtime.(pending := Some(runtime.pending.value.(dispatchedAt := Some(timestamp))))
    case Finished(status, _, timestamp, reason) =>
      var pending := runtime.pending.value;
      Runtime(runtime.schedulerOrdinal, None,
              Some(DispatchOutcome(pending.dispatch, status, pending.selectedAt, pending.dispatchedAt.value, timestamp, reason)))
  }

  function Apply(runtime: Runtime, event: LifecycleEvent): Result<Runtime, DispatchError> {
    match Refusal(runtime, event)
    case Some(error) => Err(error)
    case None => Ok(Next(runtime, event))
  }

  /** The checks and field assignments on a clone of the runtime, in order. */
  method ApplyActionDispatchEvent(runtime: Runtime, event: LifecycleEvent) returns (r: Result<Runtime, DispatchError>)
    ensures r == Apply(runtime, event)
  {
    hide Trim;
    if event.timestamp.Unparseable? {
      return Err(InvalidTimestamp);
    }
    var schedulerOrdinal, pending, lastOutcome := runtime.schedulerOrdinal, runtime.pending, runtime.lastOutcome;
    if event.Selected? {
      if pending.Some? {
        return Err(StillPending);
      }
      var dispatch := event.dispatch;
      if Blank(dispatch.dispatchId) {
        return Err(IdRequired);
      }
      if dispatch.action.None? {
        return Err(InvalidAction);
      }
      if dispatch.lane == UnknownLane {
        return Err(InvalidLane);
      }
      if Blank(dispatch.selectedSnapshotHash) {
        return Err(HashRequired);
      }
      if !NonNegativeSafe(dispatch.selectedSequence) {
        return Err(InvalidSequence);
      }
      if !PositiveSafe(dispatch.schedulerOrdinal) {
        return Err(InvalidOrdinal);
      }
      if dispatch.schedulerOrdinal != schedulerOrdinal + 1 {
        return Err(NonContiguousOrdinal);
      }
      schedulerOrdinal := dispatch.schedulerOrdinal;
      pending := Some(PendingDispatch(dispatch, event.timestamp, None));
      return Ok(Runtime(schedulerOrdinal, pending, lastOutcome));
    }

    if pending.None? {
      return Err(NoPendingDispatch);
    }
    var current := pending.value;
    if event.dispatchId != current.dispatch.dispatchId {
      return Err(DifferentDispatch);
    }
    if event.Dispatched? {
      if current.dispatchedAt.Some? {
        return Err(AlreadyDispatched);
      }
      if Before(event.timestamp, current.selectedAt) {
        return Err(DispatchedBeforeSelected);
      }
      pending := Some(current.(dispatchedAt := Some(event.timestamp)));
      return Ok(Runtime(schedulerOrdinal, pending, lastOutcome));
    }

    if current.dispatchedAt.None? {
      return Err(NotDispatched);
    }
    if Before(event.timestamp, current.dispatchedAt.value) {
      return Err(CompletedBeforeDispatched);
    }
    lastOutcome := Some(DispatchOutcome(current.dispatch, event.status, current.selectedAt, current.dispatchedAt.value,
                                        event.timestamp, event.reason));
    pending := None;
    return Ok(Runtime(schedulerOrdinal, pending, lastOutcome));
  }

  function ApplyAll(runtime: Runtime, events: seq<LifecycleEvent>): Result<Runtime, DispatchError>
    decreases |events|
  {
    if events == [] then Ok(runtime)
    else
      match Apply(runtime, events[0])
      case Err(error) => Err(error)
      case Ok(next) => ApplyAll(next, events[1..])
  }

  // ---------------------------------------------------------------------
  // The validator
  // ---------------------------------------------------------------------

  function PendingProblem(runtime: Runtime, pending: PendingDispatch): Option<DispatchError> {
    var fields := DispatchProblem(pending.dispatch);
    if fields.Some? then fields
    else if pending.selectedAt.Unparseable? then Some(InvalidTimestamp)
    else if pending.dispatch.schedulerOrdinal != runtime.schedulerOrdinal then Some(PendingOrdinalMismatch)
    else
      match pending.dispatchedAt
      case None => None
      case Some(at) =>
        if at.Unparseable? then Some(InvalidTimestamp)
        else if Before(at, pending.selectedAt) then Some(DispatchedBeforeSelected)
        else None
  }

  function OutcomeProblem(runtime: Runtime, outcome: DispatchOutcome): Option<DispatchError> {
    var fields := DispatchProblem(outcome.dispatch);
    if fields.Some? then fields
    else if outcome.selectedAt.Unparseable? || outcome.dispatchedAt.Unparseable? || outcome.completedAt.Unparseable? then Some(InvalidTimestamp)
    else if Before(outcome.dispatchedAt, outcome.selectedAt) then Some(DispatchedBeforeSelected)
    else if Before(outcome.completedAt, outcome.dispatchedAt) then Some(CompletedBeforeDispatched)
    else if outcome.dispatch.schedulerOrdinal > runtime.schedulerOrdinal then Some(OutcomeAheadOfOrdinal)
    else None
  }

  /** What the validator throws, if anything. */
  function ValidatorError(runtime: Runtime): Option<DispatchError> {
    if !NonNegativeSafe(runtime.schedulerOrdinal) then Some(InvalidOrdinal)
    else
      var pending := if runtime.pending.Some? then PendingProblem(runtime, runtime.pending.value) else None;
      if pending.Some? then pending
      else if runtime.lastOutcome.Some? then OutcomeProblem(runtime, runtime.lastOutcome.value)
      else None
  }

  // ---------------------------------------------------------------------
  // Goal events
  // ---------------------------------------------------------------------

  datatype StopKind = GoalPaused | GoalCancelled | GoalBudgetLimited | GoalCompleted | GoalFailed

  datatype GoalEvent =
    | Action(lifecycle: LifecycleEvent)
    | ContinuationRequested(operationId: Option<string>, action: Option<GoalAction>, selectedSequence: int,
                            selectedSnapshotHash: Option<string>, ordinal: int, timestamp: Timestamp)
    | TurnRecorded(continuationOperationId: Option<string>, timestamp: Timestamp)
    | ContinuationAbandoned(operationId: Option<string>, reason: Option<string>, timestamp: Timestamp)
    | GoalStopped(kind: StopKind, reason: Option<string>, timestamp: Timestamp)
    | GoalStarted(timestamp: Timestamp)
    | Unrelated(timestamp: Timestamp)

  function TimeOf(event: GoalEvent): Timestamp {
    if event.Action? then event.lifecycle.timestamp else event.timestamp
  }

  function Project(runtime: Runtime, event: GoalEvent): seq<LifecycleEvent> {
    match event
    case Action(lifecycle) => [lifecycle]
    case ContinuationRequested(operationId, action, sequence, hash, ordinal, timestamp) =>
      var id := operationId.GetOr("");
      [Selected(Dispatch(id, action, Model, sequence, hash.GetOr(""), ordinal), timestamp), Dispatched(id, timestamp)]
    case TurnRecorded(operationId, timestamp) => [Finished(ActionCompleted, operationId.GetOr(""), timestamp, None)]
    case ContinuationAbandoned(operationId, reason, timestamp) =>
      [Finished(ActionInterrupted, operationId.GetOr(""), timestamp, Some(reason.GetOr("The model dispatch was abandoned.")))]
    case GoalStopped(_, reason, timestamp) =>
      if runtime.pending.None? then []
      else [Finished(ActionInterrupted, runtime.pending.value.dispatch.dispatchId, timestamp,
                     Some(reason.GetOr("The goal stopped before the action dispatch completed.")))]
    case GoalStarted(_) => []
    case Unrelated(_) => []
  }

  /** `projectGoalEventToActionDispatch(runtime, event).reduce(applyActionDispatchEvent, runtime)`. */
  function ApplyGoalEvent(runtime: Runtime, event: GoalEvent): Result<Runtime, DispatchError> {
    ApplyAll(runtime, Project(runtime, event))
  }

  /**
   * The dispatch runtime after an event of the whole workflow: a started goal gets
   * a fresh one, and a completed or failed goal keeps the previous one.
   */
  function ApplyWorkflowEvent(runtime: Runtime, event: GoalEvent): Result<Runtime, DispatchError> {
    match event
    case GoalStarted(_) => Ok(FRESH)
    case GoalStopped(GoalCompleted, _, _) => Ok(runtime)
    case GoalStopped(GoalFailed, _, _) => Ok(runtime)
    case _ => ApplyGoalEvent(runtime, event)
  }

  // One event of the dispatch module alone, or of the whole workflow projection.
  function ApplyEvent(runtime: Runtime, event: GoalEvent, workflow: bool): Result<Runtime, DispatchError> {
    if workflow then ApplyWorkflowEvent(runtime, event) else ApplyGoalEvent(runtime, event)
  }

  /** The runtime after a run of events, or the first refusal. */
  function Fold(runtime: Runtime, events: seq<GoalEvent>, workflow: bool): Result<Runtime, DispatchError>
    decreases |events|
  {
    if events == [] then Ok(runtime)
    else
      match ApplyEvent(runtime, events[0], workflow)
      case Err(error) => Err(error)
      case Ok(next) => Fold(next, events[1..], workflow)
  }
}
