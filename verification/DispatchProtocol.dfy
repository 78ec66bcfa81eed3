/** Laws of the dispatch operations: what they leave pending, when they fail, and that no request is dispatched twice. */
module DispatchProtocol {
  import opened Wrappers
  import opened Ordinals
  import opened Text
  import opened Workflow
  import opened GoalRunnable
  import opened GoalActions
  import opened GoalBlockage
  import opened GoalContinuation
  import opened DeterministicDispatch
  import opened DispatchLedger
  import AD = ActionDispatch

  // A state whose ordinal fields follow its ledger and whose hash and sequence are well formed.
  ghost predicate Consistent(state: State) {
    && state.goal.Some? && state.goal.value.dispatch.Some?
    && DispatchOf(state).schedulerOrdinal >= 0
    && state.goal.value.schedulerOrdinal == Some(DispatchOf(state).schedulerOrdinal)
    && state.goal.value.continuationOrdinal == DispatchOf(state).schedulerOrdinal
    && !Blank(state.snapshotHash) && NonNegativeSafe(state.sequence)
  }

  ghost predicate Hashes(p: Projection) {
    forall s :: !Blank(p.hashOf(s))
  }

  lemma LifecycleStep(p: Projection, state: State, event: AD.LifecycleEvent)
    requires state.goal.Some? && DispatchOf(state).schedulerOrdinal >= 0
    ensures ApplyLifecycle(p, state, event).Ok? <==> AD.Refusal(DispatchOf(state), event).None?
    ensures ApplyLifecycle(p, state, event).Ok? ==>
      var next := ApplyLifecycle(p, state, event).value;
      && DispatchOf(next) == AD.Next(DispatchOf(state), event)
      && (Hashes(p) && NonNegativeSafe(state.sequence + 1) ==> Consistent(next))
  {
    hide AD.Refusal, AD.Next, Blank;
  }

  // The ledger with this request selected and dispatched on it.
  ghost function OpenedLedger(state: State, request: Request): AD.Runtime
    requires Consistent(state)
  {
    var ledger := DispatchOf(state);
    var dispatch := AD.Dispatch(request.dispatchId, Some(Work(request.work)), AD.Deterministic, state.sequence, state.snapshotHash, ledger.schedulerOrdinal + 1);
    AD.Runtime(ledger.schedulerOrdinal + 1, Some(AD.PendingDispatch(dispatch, request.at, Some(request.at))), ledger.lastOutcome)
  }

  // A request that passed the validation of its own fields, on a state with nothing pending.
  ghost predicate Openable(state: State, request: Request) {
    Consistent(state) && PendingOf(state).None? && !Blank(request.dispatchId) && request.at.Millis?
  }

  lemma OpenedExactly(p: Projection, state: State, request: Request)
    requires Openable(state, request)
    ensures Opened(p, state, request).Done? <==> DispatchOf(state).schedulerOrdinal < MAX_SAFE_INTEGER
    ensures Opened(p, state, request).Done? ==>
      var batch := Opened(p, state, request).value;
      && DispatchOf(batch.state) == OpenedLedger(state, request)
      && batch.state.sequence == state.sequence + |batch.events| && |batch.events| == 2
      && (Hashes(p) && NonNegativeSafe(state.sequence + 2) ==> Consistent(batch.state))
  {
    hide Blank;
    LifecycleStep(p, state, Selection(state, request));
    if ApplyLifecycle(p, state, Selection(state, request)).Ok? {
      LifecycleStep(p, ApplyLifecycle(p, state, Selection(state, request)).value, AD.Dispatched(request.dispatchId, request.at));
    }
  }

  // The identity names this state, its goal, and the turn of the goal.
  predicate Names(identity: Identity, state: State) {
    && state.goal.Some? && identity.goalId == state.goal.value.goalId && identity.workflowId == state.workflowId
    && identity.revision == state.revision && identity.sequence == state.sequence && identity.snapshotHash == state.snapshotHash
    && identity.continuationOrdinal == state.goal.value.continuationOrdinal
  }

  // The decision that the state itself makes, nothing pending, under a usable id and time.
  ghost predicate IsCurrentDecision(state: State, request: Request, kind: WorkKind) {
    && ActiveHere(state) && Candidates(state) != []
    && state.goal.value.pendingContinuation.None? && PendingOf(state).None?
    && !Blank(request.dispatchId) && request.at.Millis?
    && Names(request.identity, state) && request.work.kind == kind
    && request.work == Candidates(state)[state.goal.value.continuationOrdinal % |Candidates(state)|]
  }

  /** A dispatch request is valid exactly when it repeats the decision that the state makes now. */
  lemma ValidExactly(state: State, request: Request, kind: WorkKind)
    ensures ValidateSelection(state, request, kind).None? <==> IsCurrentDecision(state, request, kind)
  {
    hide Blank, Candidates, ClassifyGoalBlockage, AwaitingInteractions, PendingOf;
    if SelectGoalContinuation(state).Dispatch? {
      DispatchNeedsLiveGoal(state);
    }
  }

  // An active goal of a running workflow with no model turn and no dispatch pending.
  predicate Dispatchable(state: State) {
    Working(state) && state.goal.value.pendingContinuation.None? && PendingOf(state).None?
  }

  // The reason for which a request is rejected: the first of these that holds.
  ghost predicate RejectedFor(state: State, request: Request, kind: WorkKind, code: Rejection) {
    match code
    case GoalNotStarted => state.goal.None?
    case GoalNotActive => state.goal.Some? && !Working(state)
    case ContinuationPending => Working(state) && state.goal.value.pendingContinuation.Some?
    case DispatchPending => Working(state) && state.goal.value.pendingContinuation.None? && PendingOf(state).Some?
    case DispatchIdRequired => Dispatchable(state) && Blank(request.dispatchId)
    case TimestampInvalid => Dispatchable(state) && !Blank(request.dispatchId) && request.at.Unparseable?
    case StaleSelection =>
      && Dispatchable(state) && !Blank(request.dispatchId) && request.at.Millis?
      && !IsCurrentDecision(state, request, kind)
    case DispatchNotPending => false
  }

  /** Each rejection is the answer exactly for its own reason, in this order of precedence. */
  lemma RejectionExactly(state: State, request: Request, kind: WorkKind, code: Rejection)
    ensures ValidateSelection(state, request, kind) == Some(code) <==> RejectedFor(state, request, kind, code)
  {
    hide IsCurrentDecision, Blank, SelectGoalContinuation, PendingOf;
    ValidExactly(state, request, kind);
    if IsCurrentDecision(state, request, kind) {
      DecisionIsDispatchable(state, request, kind);
    }
  }

  lemma DecisionIsDispatchable(state: State, request: Request, kind: WorkKind)
    requires IsCurrentDecision(state, request, kind)
    ensures Dispatchable(state) && !Blank(request.dispatchId) && request.at.Millis?
  {
    hide Blank, Candidates;
  }

  /** Two valid requests on one state carry the same decision, so at most one action can be dispatched from it. */
  lemma OneDispatchPerState(state: State, a: Request, b: Request, kindA: WorkKind, kindB: WorkKind)
    requires ValidateSelection(state, a, kindA).None? && ValidateSelection(state, b, kindB).None?
    ensures a.work == b.work && a.identity == b.identity && kindA == kindB
  {
    hide ValidateSelection, Candidates, Blank;
    ValidExactly(state, a, kindA);
    ValidExactly(state, b, kindB);
  }

  lemma ValidIsOpenable(state: State, request: Request, kind: WorkKind)
    requires Consistent(state) && ValidateSelection(state, request, kind).None?
    ensures Openable(state, request)
  {
    hide Blank, SelectGoalContinuation;
  }

  // An accepted event moves the sequence by one; the rest of the state may change in any way.
  ghost predicate Accepts(before: State, after: State) {
    after.sequence == before.sequence + 1
  }

  // The states of a run of accepted events, the first one included.
  ghost predicate Run(states: seq<State>) {
    forall i :: 0 <= i < |states| - 1 ==> Accepts(states[i], states[i + 1])
  }

  lemma LifecycleAccepts(p: Projection, state: State, event: AD.LifecycleEvent)
    requires state.goal.Some? && DispatchOf(state).schedulerOrdinal >= 0 && ApplyLifecycle(p, state, event).Ok?
    ensures Accepts(state, ApplyLifecycle(p, state, event).value)
  {
  }

  // The two events of an opening are a run of accepted events, and the ledger projects from them.
  lemma OpeningIsARun(p: Projection, state: State, request: Request)
    requires Openable(state, request) && Opened(p, state, request).Done?
    ensures var between := ApplyLifecycle(p, state, Selection(state, request));
      var batch := Opened(p, state, request).value;
      && between.Ok? && Run([state, between.value, batch.state])
      && AD.Fold(DispatchOf(state), batch.events, true) == Ok(DispatchOf(batch.state))
  {
    hide ApplyLifecycle, Blank, AD.Refusal, AD.Next, AD.ApplyEvent;
    var selected, dispatched := Selection(state, request), AD.Dispatched(request.dispatchId, request.at);
    LifecycleStep(p, state, selected);
    LifecycleAccepts(p, state, selected);
    var between := ApplyLifecycle(p, state, selected).value;
    LifecycleStep(p, between, dispatched);
    LifecycleAccepts(p, between, dispatched);
    ActionStep(DispatchOf(state), selected);
    ActionStep(DispatchOf(between), dispatched);
    var next := DispatchOf(Opened(p, state, request).value.state);
    var events := [AD.Action(selected), AD.Action(dispatched)];
    assert AD.Fold(next, [], true) == Ok(next);
    assert events[1..] == [AD.Action(dispatched)] && events[1..][1..] == [];
    assert AD.Fold(DispatchOf(between), events[1..], true) == Ok(next);
  }

  /**
   * On a consistent state a valid check selection always opens its dispatch, except
   * at the largest ordinal; the ledger then holds exactly that dispatch, already
   * dispatched, and refuses every further selection until it is closed. The two
   * events of the opening are accepted one after the other, and the ledger of the
   * batch is the one that its events project to.
   */
  lemma BeginOpensTheDispatch(p: Projection, state: State, request: Request, other: Request, kind: WorkKind)
    requires Consistent(state) && ValidateSelection(state, request, RunReadyCheck).None?
    ensures Opened(p, state, request).Done? <==> DispatchOf(state).schedulerOrdinal < MAX_SAFE_INTEGER
    ensures Opened(p, state, request).Done? ==>
      var batch := Opened(p, state, request).value;
      && DispatchOf(batch.state) == OpenedLedger(state, request)
      && AD.Fold(DispatchOf(state), batch.events, true) == Ok(DispatchOf(batch.state))
      && ValidateSelection(batch.state, other, kind).Some?
    ensures Opened(p, state, request).Done? ==>
      var between := ApplyLifecycle(p, state, Selection(state, request));
      between.Ok? && Run([state, between.value, Opened(p, state, request).value.state])
  {
    hide Blank, SelectGoalContinuation, Opened;
    ValidIsOpenable(state, request, RunReadyCheck);
    OpenedExactly(p, state, request);
    if Opened(p, state, request).Done? {
      OpeningIsARun(p, state, request);
    }
  }

  // A batch whose events project, from the ledger before it, to this ledger, which its state carries.
  ghost predicate Projects(before: AD.Runtime, batch: Batch, after: AD.Runtime) {
    DispatchOf(batch.state) == after && AD.Fold(before, batch.events, true) == Ok(after)
  }

  lemma CloseStep(p: Projection, state: State, status: AD.TerminalStatus, dispatchId: string, at: Timestamp, reason: Option<string>)
    requires DispatchOf(state).schedulerOrdinal >= 0 && PendingOf(state).Some?
    ensures state.goal.Some?
    ensures var event := AD.Finished(status, dispatchId, at, reason);
      var applied := ApplyLifecycle(p, state, event);
      && (applied.Ok? <==> Closable(DispatchOf(state), dispatchId, at))
      && (applied.Ok? ==>
            Projects(DispatchOf(state), Batch(applied.value, [AD.Action(event)]), ClosedLedger(DispatchOf(state), status, at, reason)))
  {
    hide ApplyLifecycle, AD.Fold;
    var event := AD.Finished(status, dispatchId, at, reason);
    LifecycleStep(p, state, event);
    if AD.Refusal(DispatchOf(state), event).None? {
      FoldOne(DispatchOf(state), event);
    }
  }

  /**
   * Finishing is rejected exactly when the dispatch is not the pending one, and succeeds
   * exactly when it is and was dispatched no later; the dispatch is then closed as asked.
   */
  lemma FinishExactly(p: Projection, state: State, request: Request, status: AD.TerminalStatus, reason: Option<string>)
    requires DispatchOf(state).schedulerOrdinal >= 0
    ensures var finish := Finish(p, state, request, status, reason);
      && (finish.Rejected? <==> PendingOf(state).None? || PendingOf(state).value.dispatch.dispatchId != request.dispatchId)
      && (finish.Rejected? ==> finish.code == DispatchNotPending)
      && (finish.Done? <==> Closable(DispatchOf(state), request.dispatchId, request.at))
      && (finish.Done? ==>
            Projects(DispatchOf(state), finish.value,
                     ClosedLedger(DispatchOf(state), status, request.at, if Present(reason) then reason else None)))
  {
    hide ApplyLifecycle, Projects;
    if PendingOf(state).Some? {
      CloseStep(p, state, status, request.dispatchId, request.at, if Present(reason) then reason else None);
    }
  }

  /**
   * Finishing a check that was begun succeeds exactly at a parseable time no earlier
   * than its begin, which the operation itself does not test; the ledger then holds
   * nothing pending, the same ordinal, and the outcome of this dispatch.
   */
  lemma FinishAfterBegin(p: Projection, state: State, request: Request, status: AD.TerminalStatus, reason: Option<string>, at: Timestamp)
    requires Openable(state, request) && Opened(p, state, request).Done?
    ensures var next := Opened(p, state, request).value.state;
      var finish := Finish(p, next, request.(at := at), status, reason);
      var closed := ClosedLedger(DispatchOf(next), status, at, if Present(reason) then reason else None);
      && (finish.Done? <==> at.Millis? && at.at >= request.at.at)
      && (finish.Done? ==> DispatchOf(finish.value.state) == closed)
  {
    hide Blank, Opened, ApplyLifecycle;
    OpenedExactly(p, state, request);
    var next := Opened(p, state, request).value.state;
    LifecycleStep(p, next, AD.Finished(status, request.dispatchId, at, if Present(reason) then reason else None));
  }

  lemma {:induction false} RunCounts(states: seq<State>, k: nat)
    requires Run(states) && k < |states|
    ensures states[k].sequence == states[0].sequence + k
  {
    if k > 0 {
      RunCounts(states, k - 1);
      assert Accepts(states[k - 1], states[k - 1 + 1]);
    }
  }

  /**
   * A decision is dispatched at most once: after a valid request has opened its
   * dispatch, the same decision is refused, under any id and as either kind, on
   * every state that any further accepted events lead to.
   */
  lemma NoSecondDispatch(p: Projection, state: State, request: Request, kind: WorkKind, later: seq<State>, k: nat, again: Request, kindAgain: WorkKind)
    requires Consistent(state) && ValidateSelection(state, request, kind).None? && Opened(p, state, request).Done?
    requires k < |later| && Run(later) && later[0] == Opened(p, state, request).value.state
    requires again.identity == request.identity
    ensures ValidateSelection(later[k], again, kindAgain).Some?
  {
    hide ValidateSelection, Opened, IdentityOf, Blank, ActiveHere, Candidates;
    ValidIsOpenable(state, request, kind);
    OpenedExactly(p, state, request);
    RunCounts(later, k);
    ValidExactly(state, request, kind);
    if ValidateSelection(later[k], again, kindAgain).None? {
      ValidExactly(later[k], again, kindAgain);
    }
  }

  // ---------------------------------------------------------------------
  // Gates
  // ---------------------------------------------------------------------

  // The gate command's new state carries the dispatch part that its events project to.
  ghost predicate Projected(evaluate: GateCommand, state: State) {
    evaluate(state).Ok? ==>
      AD.Fold(DispatchOf(state), evaluate(state).value.events, true) == Ok(DispatchOf(evaluate(state).value.state))
  }

  // Events that the evaluation of a gate may emit without touching a pending dispatch.
  predicate LeavesDispatch(event: AD.GoalEvent) {
    event.Unrelated? || (event.GoalStopped? && event.kind in {AD.GoalCompleted, AD.GoalFailed})
  }

  lemma {:induction false} FoldLeavesDispatch(runtime: AD.Runtime, events: seq<AD.GoalEvent>)
    requires forall i :: 0 <= i < |events| ==> LeavesDispatch(events[i])
    ensures AD.Fold(runtime, events, true) == Ok(runtime)
    decreases |events|
  {
    if events != [] {
      assert LeavesDispatch(events[0]);
      assert AD.ApplyWorkflowEvent(runtime, events[0]) == Ok(runtime);
      FoldLeavesDispatch(runtime, events[1..]);
    }
  }

  lemma ClosedExactly(p: Projection, state: State, events: seq<AD.GoalEvent>, request: Request, status: AD.TerminalStatus, reason: Option<string>, before: AD.Runtime)
    requires state.goal.Some? && DispatchOf(state).schedulerOrdinal >= 0
    ensures var closed := Closed(p, state, events, request, status, reason);
      && (closed.Done? <==> Closable(DispatchOf(state), request.dispatchId, request.at))
      && (closed.Done? ==> DispatchOf(closed.value.state) == ClosedLedger(DispatchOf(state), status, request.at, reason))
      && (closed.Done? && AD.Fold(before, events, true) == Ok(DispatchOf(state)) ==>
            Projects(before, closed.value, ClosedLedger(DispatchOf(state), status, request.at, reason)))
  {
    hide ApplyLifecycle, AD.Fold;
    var event := AD.Finished(status, request.dispatchId, request.at, reason);
    LifecycleStep(p, state, event);
    if AD.Refusal(DispatchOf(state), event).None? {
      FoldOne(DispatchOf(state), event);
      FoldConcat(before, events, [AD.Action(event)], true);
    }
  }

  /** A valid gate dispatch ends without an exception exactly when the evaluation is refused or leaves its dispatch open. */
  lemma GateClosesExactly(p: Projection, state: State, request: Request, evaluate: GateCommand)
    requires Consistent(state) && KeepsGoal(evaluate) && ValidateSelection(state, request, EvaluateReadyGate).None?
    requires DispatchOf(state).schedulerOrdinal < MAX_SAFE_INTEGER
    ensures Opened(p, state, request).Done?
    ensures var evaluated := evaluate(Opened(p, state, request).value.state);
      GateBatch(p, state, request, evaluate).Done? <==> evaluated.Ok? ==> Closable(DispatchOf(evaluated.value.state), request.dispatchId, request.at)
  {
    hide Blank, Opened, ValidateSelection, Closed;
    ValidIsOpenable(state, request, EvaluateReadyGate);
    OpenedExactly(p, state, request);
    var start := Opened(p, state, request).value;
    match evaluate(start.state) {
      case Err(text) =>
        ClosedExactly(p, start.state, start.events, request, AD.ActionFailed, Some(text), DispatchOf(state));
      case Ok(evaluated) =>
        ClosedExactly(p, evaluated.state, start.events + evaluated.events, request, AD.ActionCompleted, None, DispatchOf(state));
    }
  }

  /**
   * A gate dispatch runs to its end in one batch: when the evaluation emits only
   * events of the graph, completion and failure of the goal included, nothing is
   * left pending and the last outcome is this dispatch, completed or failed as the
   * evaluation was; and the events of the batch project to the ledger it returns.
   */
  lemma GateDispatchCloses(p: Projection, state: State, request: Request, evaluate: GateCommand)
    requires Consistent(state) && KeepsGoal(evaluate) && ValidateSelection(state, request, EvaluateReadyGate).None?
    requires DispatchOf(state).schedulerOrdinal < MAX_SAFE_INTEGER
    requires forall s :: Projected(evaluate, s)
    requires forall s, i :: evaluate(s).Ok? && 0 <= i < |evaluate(s).value.events| ==> LeavesDispatch(evaluate(s).value.events[i])
    ensures var batch := GateBatch(p, state, request, evaluate);
      && batch.Done?
      && var ledger := DispatchOf(batch.value.state);
      && ledger.pending.None? && ledger.schedulerOrdinal == DispatchOf(state).schedulerOrdinal + 1
      && ledger.lastOutcome.Some? && ledger.lastOutcome.value.dispatch.dispatchId == request.dispatchId
      && ledger.lastOutcome.value.dispatch.schedulerOrdinal == ledger.schedulerOrdinal
      && ledger.lastOutcome.value.status
           == if evaluate(Opened(p, state, request).value.state).Ok? then AD.ActionCompleted else AD.ActionFailed
    ensures var outcome := evaluate(Opened(p, state, request).value.state);
      Projects(DispatchOf(state), GateBatch(p, state, request, evaluate).value,
               match outcome
               case Err(text) => ClosedLedger(OpenedLedger(state, request), AD.ActionFailed, request.at, Some(text))
               case Ok(_) => ClosedLedger(OpenedLedger(state, request), AD.ActionCompleted, request.at, None))
  {
    hide Blank, Opened, ValidateSelection, Closed, LeavesDispatch, AD.Fold;
    ValidIsOpenable(state, request, EvaluateReadyGate);
    OpenedExactly(p, state, request);
    OpeningIsARun(p, state, request);
    var start := Opened(p, state, request).value;
    match evaluate(start.state) {
      case Err(text) =>
        ClosedExactly(p, start.state, start.events, request, AD.ActionFailed, Some(text), DispatchOf(state));
      case Ok(evaluated) =>
        assert Projected(evaluate, start.state);
        FoldLeavesDispatch(DispatchOf(start.state), evaluated.events);
        FoldConcat(DispatchOf(state), start.events, evaluated.events, true);
        ClosedExactly(p, evaluated.state, start.events + evaluated.events, request, AD.ActionCompleted, None, DispatchOf(state));
    }
  }

  // ---------------------------------------------------------------------
  // Recovery
  // ---------------------------------------------------------------------

  /**
   * Recovery with a parseable time succeeds exactly when the pending dispatch, unless
   * of the model lane, was dispatched no later; then no deterministic or executor
   * dispatch is pending: it is closed as interrupted, for the given reason, by an event
   * that projects to the same ledger. A model-lane dispatch, or none, changes nothing.
   */
  lemma RecoveryClosesDispatch(p: Projection, state: State, reason: string, at: Timestamp)
    requires DispatchOf(state).schedulerOrdinal >= 0
    ensures var pending := PendingOf(state);
      var recovery := InterruptPending(p, state, reason, at);
      var untouched := pending.None? || pending.value.dispatch.lane == AD.Model;
      && (recovery.Done? <==>
            untouched || (at.Millis? && pending.value.dispatchedAt.Some? && !AD.Before(at, pending.value.dispatchedAt.value)))
      && (untouched ==> recovery == Done(Batch(state, [])))
      && (!untouched && recovery.Done? ==>
            && PendingOf(recovery.value.state).None?
            && Projects(DispatchOf(state), recovery.value, ClosedLedger(DispatchOf(state), AD.ActionInterrupted, at, Some(reason))))
      && (recovery.Rejected? <==> !untouched && at.Unparseable?)
      && (recovery.Rejected? ==> recovery.code == TimestampInvalid)
  {
    hide ApplyLifecycle, AD.Fold;
    var pending := PendingOf(state);
    if pending.Some? && pending.value.dispatch.lane != AD.Model {
      CloseStep(p, state, AD.ActionInterrupted, pending.value.dispatch.dispatchId, at, Some(reason));
    }
  }

  /**
   * On a run whose selections are recorded with their dispatched events and whose
   * time never runs backwards, recovery at any later time succeeds and leaves no
   * deterministic or executor dispatch pending.
   */
  lemma BatchedRecoveryLeavesNothingPending(p: Projection, state: State, events: seq<AD.GoalEvent>, workflow: bool, first: int, last: int, reason: string, at: int)
    requires Batched(events) && Ordered(events, first, last) && last <= at
    requires AD.Fold(AD.FRESH, events, workflow) == Ok(DispatchOf(state))
    ensures DispatchOf(state).schedulerOrdinal >= 0
    ensures var recovery := InterruptPending(p, state, reason, Millis(at));
      && recovery.Done?
      && (PendingOf(recovery.value.state).Some? ==> PendingOf(recovery.value.state).value.dispatch.lane == AD.Model)
  {
    hide Batched, Ordered, AD.Fold, RecordAll, InterruptPending;
    GoalRunsAreBalanced(events, workflow);
    BatchedRunsSettle(AD.FRESH, events, first, last, workflow);
    RecoveryClosesDispatch(p, state, reason, Millis(at));
  }
}
