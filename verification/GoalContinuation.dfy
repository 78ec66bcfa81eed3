/** The controller's decision: run one of the enumerated actions, ask for a revision, wait, or stop. */
module GoalContinuation {
  import opened Wrappers
  import opened Counting
  import opened Ordinals
  import opened Workflow
  import opened GoalRunnable
  import opened GoalActions
  import opened GoalBlockage

  // What a decision was made on.
  datatype Identity = Identity(
    goalId: string,
    workflowId: string,
    revision: int,
    sequence: int,
    snapshotHash: string,
    continuationOrdinal: nat)

  datatype InvariantCause = NoGoal | DifferentWorkflow | PhaseMismatch | NoRunnableAction

  datatype Decision =
    | Dispatch(action: GoalAction)
    | StopCompleted
    | StopPaused
    | StopBlocked
    | StopWaitingResponse(nodeIds: seq<string>)
    | StopFailed
    | StopCancelled
    | StopBudgetLimited
    | InvariantError(cause: InvariantCause)

  function IdentityOf(state: State): Identity
    requires state.goal.Some?
  {
    Identity(state.goal.value.goalId, state.workflowId, state.revision, state.sequence, state.snapshotHash, state.goal.value.continuationOrdinal)
  }

  function Candidates(state: State): seq<WorkAction> {
    if !Working(state) then [] else RootWorkActions(state.graph, true)
  }

  // The interactions that wait for an answer, in definition order.
  function AwaitingInteractions(graph: Graph, nodes: seq<NodeDefinition>): (r: seq<string>)
    ensures r != [] ==> exists i :: 0 <= i < |nodes| && StatusOf(graph, nodes[i].id) == AwaitingResponse
  {
    if nodes == [] then []
    else
      var rest := AwaitingInteractions(graph, nodes[1..]);
      var id := nodes[0].id;
      assert forall i :: 0 < i < |nodes| ==> nodes[i] == nodes[1..][i - 1];
      if nodes[0].interaction && StatusOf(graph, id) == AwaitingResponse && Present(graph.nodeRuntimes[id].currentAttemptId) then
        assert StatusOf(graph, nodes[0].id) == AwaitingResponse;
        [id] + rest
      else rest
  }

  function RevisionDecision(state: State): Option<Decision> {
    match ClassifyGoalBlockage(state)
    case RevisionEligible(blocker) => Some(Dispatch(RequestRevision(blocker)))
    case RevisionNotAllowed(_) => Some(StopBlocked)
    case RevisionExhausted(_) => Some(StopBlocked)
    case NotBlocked => None
  }

  function SelectGoalContinuation(state: State): Decision {
    if state.goal.None? then InvariantError(NoGoal)
    else
      var goal := state.goal.value;
      if goal.workflowId != state.workflowId then InvariantError(DifferentWorkflow)
      else
        match goal.status
        case CompletedGoal => StopCompleted
        case PausedGoal => StopPaused
        case BlockedGoal => RevisionDecision(state).GetOr(StopBlocked)
        case FailedGoal => StopFailed
        case CancelledGoal => StopCancelled
        case BudgetLimitedGoal => StopBudgetLimited
        case ActiveGoal =>
          if state.phase != PhaseRunning then InvariantError(PhaseMismatch)
          else
            var candidates := Candidates(state);
            if candidates != [] then Dispatch(Work(candidates[goal.continuationOrdinal % |candidates|]))
            else
              var waiting := AwaitingInteractions(state.graph, state.graph.nodes);
              if waiting != [] then StopWaitingResponse(waiting)
              else RevisionDecision(state).GetOr(InvariantError(NoRunnableAction))
  }

  /** The derived waiting state that status and pane surfaces show. */
  predicate IsDerivedWaitingForUser(state: State) {
    Working(state) && AwaitingInteractions(state.graph, state.graph.nodes) != [] && WorkActions(state) == []
  }

  predicate ContinuationActionIsRunnable(state: State, action: GoalAction) {
    match action
    case RequestRevision(blocker) =>
      && state.goal.Some?
      && var goal := state.goal.value;
      && goal.status == BlockedGoal
      && goal.pendingContinuation.Some? && goal.pendingContinuation.value.action.RequestRevision?
      && goal.automaticRevision.lastAttempt.Some?
      && goal.automaticRevision.lastAttempt.value.outcome == RevisionPending
      && goal.automaticRevision.lastAttempt.value.operationId == goal.pendingContinuation.value.operationId
      && BlockerIdentityMatches(goal.pendingContinuation.value.action.blocker, blocker)
    case Work(work) => Working(state) && RootWorkActionIsRunnable(state.graph, work)
  }

  // ---------------------------------------------------------------------
  // Laws
  // ---------------------------------------------------------------------

  // The state's goal works in its own running workflow.
  predicate ActiveHere(state: State) {
    Working(state) && state.goal.value.workflowId == state.workflowId
  }

  predicate LoopPermits(graph: Graph, work: WorkAction) {
    !InNamelessLoop(graph, work.nodeId) && (work.kind == ReconcileIndeterminateEffect ==> LoopAllowsWork(graph, work.nodeId))
  }

  /**
   * The selected graph action is an enumerated one and passes the separate
   * runnable test, except for a node of a loop without an id and for a
   * reconciliation inside a loop that is neither pending nor running.
   */
  lemma SelectedWorkIsRunnable(state: State)
    requires ActiveHere(state) && UniqueNodeIds(state.graph) && Candidates(state) != []
    ensures var decision := SelectGoalContinuation(state);
      && decision.Dispatch? && decision.action.Work? && decision.action.work in Candidates(state)
      && (ContinuationActionIsRunnable(state, decision.action) <==> LoopPermits(state.graph, decision.action.work))
  {
    hide RootWorkActions, RootWorkActionIsRunnable, LoopAllowsWork;
    var work := SelectGoalContinuation(state).action.work;
    EnumeratedActionsRunnable(state.graph, true, work);
  }

  /** Only an active goal of its own running workflow dispatches graph work; a revision needs an active or blocked goal. */
  lemma DispatchNeedsLiveGoal(state: State)
    requires SelectGoalContinuation(state).Dispatch?
    ensures state.goal.Some? && state.goal.value.workflowId == state.workflowId
    ensures SelectGoalContinuation(state).action.Work? <==> ActiveHere(state) && Candidates(state) != []
    ensures SelectGoalContinuation(state).action.RequestRevision? ==> state.goal.value.status in {ActiveGoal, BlockedGoal}
  {
    hide RootWorkActions, ClassifyGoalBlockage, AwaitingInteractions;
  }

  // The same workflow at another turn of the scheduler.
  function AtOrdinal(state: State, ordinal: nat): State
    requires state.goal.Some?
  {
    state.(goal := Some(state.goal.value.(continuationOrdinal := ordinal)))
  }

  // Turn i from the ordinal selects the action.
  ghost predicate SelectsOnTurn(state: State, ordinal: nat, i: nat, work: WorkAction)
    requires state.goal.Some?
  {
    SelectGoalContinuation(AtOrdinal(state, ordinal + i)) == Dispatch(Work(work))
  }

  // Exactly one of the next m turns selects the action.
  ghost predicate SelectedOnce(state: State, ordinal: nat, m: nat, work: WorkAction)
    requires state.goal.Some?
  {
    exists i :: 0 <= i < m && SelectsOnTurn(state, ordinal, i, work) && forall j :: 0 <= j < m && SelectsOnTurn(state, ordinal, j, work) ==> j == i
  }

  lemma TurnSelects(state: State, ordinal: nat, i: nat, k: nat)
    requires ActiveHere(state) && UniqueNodeIds(state.graph) && k < |Candidates(state)| && ordinal + i <= MAX_SAFE_INTEGER
    ensures SelectsOnTurn(state, ordinal, i, Candidates(state)[k]) <==> TurnHits(ordinal, |Candidates(state)|, i, k)
  {
    hide RootWorkActions;
    var candidates := Candidates(state);
    EnumerationShape(state.graph, true);
    OrdinalAfterSafe(ordinal, i);
    var slot := (ordinal + i) % |candidates|;
    assert SelectGoalContinuation(AtOrdinal(state, ordinal + i)) == Dispatch(Work(candidates[slot]));
    if slot != k {
      assert candidates[slot].nodeId != candidates[k].nodeId;
    }
  }

  /** While the candidate list keeps its m entries, m consecutive turns select every candidate exactly once. */
  lemma EachCandidateOnce(state: State, ordinal: nat, k: nat)
    requires ActiveHere(state) && UniqueNodeIds(state.graph) && k < |Candidates(state)|
    requires ordinal + |Candidates(state)| - 1 <= MAX_SAFE_INTEGER
    ensures SelectedOnce(state, ordinal, |Candidates(state)|, Candidates(state)[k])
  {
    hide Candidates, SelectsOnTurn, EachSlotOnce, UniqueNodeIds, TurnHits;
    var m := |Candidates(state)|;
    forall i | 0 <= i < m ensures SelectsOnTurn(state, ordinal, i, Candidates(state)[k]) <==> TurnHits(ordinal, m, i, k) {
      TurnSelects(state, ordinal, i, k);
    }
    SlotHitOnce(ordinal, m, k);
    var i :| 0 <= i < m && TurnHits(ordinal, m, i, k) && forall j :: 0 <= j < m && TurnHits(ordinal, m, j, k) ==> j == i;
    assert SelectsOnTurn(state, ordinal, i, Candidates(state)[k]);
  }

  lemma SlotHitOnce(ordinal: nat, m: nat, slot: nat)
    requires slot < m && ordinal + m - 1 <= MAX_SAFE_INTEGER
    ensures HitOnce(ordinal, m, slot)
  {
    RoundRobinTurns(ordinal, m);
  }

  /**
   * An active goal of a running workflow ends in an invariant error exactly when it
   * has nothing to run, no interaction to wait for, and yet a model turn is pending,
   * a node is active, or a node awaits a response that is no open interaction.
   */
  lemma InvariantErrorExactly(state: State)
    requires ActiveHere(state)
    ensures SelectGoalContinuation(state).InvariantError? <==>
      && Candidates(state) == [] && AwaitingInteractions(state.graph, state.graph.nodes) == []
      && (state.goal.value.pendingContinuation.Some? || Busy(state.graph))
  {
    hide RootWorkActions, Busy, ClassifyGoalBlockage, AwaitingInteractions, TerminalBlocker;
    NotBlockedExactly(state);
    TerminalSource(state, state.goal.value);
  }

  /** The controller asks for a revision only where an attempt and budget remain, and names the state it saw. */
  lemma RevisionIsSound(state: State)
    requires SelectGoalContinuation(state).Dispatch? && SelectGoalContinuation(state).action.RequestRevision?
    ensures state.goal.Some? && Candidates(state) == []
    ensures var goal, blocker := state.goal.value, SelectGoalContinuation(state).action.blocker;
      && goal.pendingContinuation.None? && !BudgetStopped(goal.budget)
      && goal.automaticRevision.consumedAttempts < goal.automaticRevision.maximumAttempts
      && blocker.sourceRevision == state.revision && blocker.sourceSequence == state.sequence && blocker.sourceSnapshotHash == state.snapshotHash
  {
    hide RootWorkActions, HasActiveNode, HasWaitingNode, TerminalBlocker, ClassifyStuck, BudgetStopped;
    BlockageIsSound(state);
  }

  // ---------------------------------------------------------------------
  // The whole decision
  // ---------------------------------------------------------------------

  // The state has a goal of its own workflow in this status.
  predicate Owns(state: State, status: GoalStatus) {
    state.goal.Some? && state.goal.value.workflowId == state.workflowId && state.goal.value.status == status
  }

  // An interaction whose current attempt waits for the answer.
  function OpenInteraction(graph: Graph): NodeDefinition -> bool {
    (node: NodeDefinition) =>
      && node.interaction && node.id in graph.nodeRuntimes
      && graph.nodeRuntimes[node.id].status == AwaitingResponse && Present(graph.nodeRuntimes[node.id].currentAttemptId)
  }

  function NodeIds(nodes: seq<NodeDefinition>): (r: seq<string>)
    ensures |r| == |nodes| && forall i :: 0 <= i < |nodes| ==> r[i] == nodes[i].id
  {
    seq(|nodes|, i requires 0 <= i < |nodes| => nodes[i].id)
  }

  lemma {:induction false} AwaitingInOrder(graph: Graph, nodes: seq<NodeDefinition>)
    ensures AwaitingInteractions(graph, nodes) == NodeIds(Filter(OpenInteraction(graph), nodes))
  {
    if nodes != [] {
      AwaitingInOrder(graph, nodes[1..]);
      var rest := Filter(OpenInteraction(graph), nodes[1..]);
      assert NodeIds([nodes[0]] + rest) == [nodes[0].id] + NodeIds(rest);
    }
  }

  // An active goal of its own running workflow that has no graph work.
  predicate OutOfWork(state: State) {
    ActiveHere(state) && WorkActions(state) == []
  }

  // The goal looks for a revision: it is blocked, or it is out of work and no question is open.
  ghost predicate SeeksRevision(state: State) {
    Owns(state, BlockedGoal) || (OutOfWork(state) && Filter(OpenInteraction(state.graph), state.graph.nodes) == [])
  }

  /** Each stop of a goal's own status is the answer exactly for that status, and each mismatch is named by its cause. */
  lemma StopsExactly(state: State)
    ensures var decision := SelectGoalContinuation(state);
      && (decision == StopCompleted <==> Owns(state, CompletedGoal))
      && (decision == StopPaused <==> Owns(state, PausedGoal))
      && (decision == StopFailed <==> Owns(state, FailedGoal))
      && (decision == StopCancelled <==> Owns(state, CancelledGoal))
      && (decision == StopBudgetLimited <==> Owns(state, BudgetLimitedGoal))
      && (decision == InvariantError(NoGoal) <==> state.goal.None?)
      && (decision == InvariantError(DifferentWorkflow) <==> state.goal.Some? && state.goal.value.workflowId != state.workflowId)
      && (decision == InvariantError(PhaseMismatch) <==> Owns(state, ActiveGoal) && state.phase != PhaseRunning)
  {
    hide Candidates, ClassifyGoalBlockage, AwaitingInteractions;
  }

  /**
   * An active goal waits for an answer exactly when nothing is runnable and an
   * interaction is open; it then names the open interactions in definition order.
   */
  lemma WaitsExactly(state: State, nodeIds: seq<string>)
    ensures SelectGoalContinuation(state) == StopWaitingResponse(nodeIds) <==>
      OutOfWork(state) && nodeIds != [] && nodeIds == NodeIds(Filter(OpenInteraction(state.graph), state.graph.nodes))
  {
    hide RootWorkActions, ClassifyGoalBlockage, AwaitingInteractions, Filter, NodeIds;
    AwaitingInOrder(state.graph, state.graph.nodes);
  }

  /** The waiting state that the surfaces derive is the controller's own decision, for a goal of this workflow. */
  lemma DerivedWaitingIsDecision(state: State)
    requires state.goal.Some? && state.goal.value.workflowId == state.workflowId
    ensures IsDerivedWaitingForUser(state) <==> SelectGoalContinuation(state).StopWaitingResponse?
  {
    hide RootWorkActions, ClassifyGoalBlockage, AwaitingInteractions;
  }

  lemma NoneAwaiting(graph: Graph)
    ensures AwaitingInteractions(graph, graph.nodes) == [] <==> Filter(OpenInteraction(graph), graph.nodes) == []
  {
    hide AwaitingInteractions, Filter;
    AwaitingInOrder(graph, graph.nodes);
  }

  /**
   * A goal that looks for a revision gets it exactly when one is eligible, and is
   * stopped as blocked when it is blocked without one; the remaining invariant error
   * is an active goal that looks for a revision and is not blocked at all.
   */
  lemma RevisionDecidesExactly(state: State, blocker: BlockerIdentity)
    ensures var decision, blockage := SelectGoalContinuation(state), ClassifyGoalBlockage(state);
      && (decision == Dispatch(RequestRevision(blocker)) <==> SeeksRevision(state) && blockage == RevisionEligible(blocker))
      && (decision == StopBlocked <==>
            SeeksRevision(state) && !blockage.RevisionEligible? && (state.goal.value.status == BlockedGoal || blockage != NotBlocked))
      && (decision == InvariantError(NoRunnableAction) <==>
            SeeksRevision(state) && state.goal.value.status == ActiveGoal && blockage == NotBlocked)
  {
    hide RootWorkActions, ClassifyGoalBlockage, AwaitingInteractions, Filter;
    NoneAwaiting(state.graph);
  }

  /** The graph action of turn `continuationOrdinal` is dispatched exactly while an active goal has work. */
  lemma WorkDecidesExactly(state: State, work: WorkAction)
    ensures SelectGoalContinuation(state) == Dispatch(Work(work)) <==>
      && ActiveHere(state) && WorkActions(state) != []
      && work == WorkActions(state)[state.goal.value.continuationOrdinal % |WorkActions(state)|]
  {
    hide RootWorkActions, ClassifyGoalBlockage, AwaitingInteractions;
  }

  /**
   * A requested revision stays runnable exactly while the goal is blocked and both its
   * pending turn and its pending attempt are of one operation, for this very blocker.
   */
  lemma RevisionRunnableExactly(state: State, blocker: BlockerIdentity)
    ensures ContinuationActionIsRunnable(state, RequestRevision(blocker)) <==>
      state.goal.Some? && state.goal.value.status == BlockedGoal
      && exists operation ::
           && state.goal.value.pendingContinuation == Some(PendingContinuation(operation, RequestRevision(blocker)))
           && state.goal.value.automaticRevision.lastAttempt == Some(RevisionAttempt(operation, RevisionPending))
  {
    if ContinuationActionIsRunnable(state, RequestRevision(blocker)) {
      var pending := state.goal.value.pendingContinuation.value;
      assert pending == PendingContinuation(pending.operationId, RequestRevision(blocker));
    }
  }
}
