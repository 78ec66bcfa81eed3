/** The goal-control state, and the classification of a goal that has nothing to run. */
module GoalBlockage {
  import opened Wrappers
  import opened Text
  import opened Workflow
  import opened GoalRunnable
  import opened GoalActions
  import ActionDispatch

  datatype GoalStatus = ActiveGoal | PausedGoal | BlockedGoal | BudgetLimitedGoal | CompletedGoal | FailedGoal | CancelledGoal

  datatype Budget = Budget(maximumTurns: Option<int>, consumedTurns: int, maximumTokens: Option<int>, consumedTokens: int)

  datatype RevisionOutcome = RevisionPending | RevisionApplied | RevisionRejected | RevisionAbandoned

  datatype RevisionAttempt = RevisionAttempt(operationId: string, outcome: RevisionOutcome)

  datatype AutomaticRevision = AutomaticRevision(maximumAttempts: int, consumedAttempts: int, lastAttempt: Option<RevisionAttempt>)

  datatype PendingContinuation = PendingContinuation(operationId: string, action: GoalAction)

  datatype Goal = Goal(
    goalId: string,
    workflowId: string,
    status: GoalStatus,
    continuationOrdinal: nat,
    schedulerOrdinal: Option<nat>,
    dispatch: Option<ActionDispatch.Runtime>,
    budget: Budget,
    automaticRevision: AutomaticRevision,
    pendingContinuation: Option<PendingContinuation>,
    pauseCause: Option<string>,
    stopReason: Option<string>)

  datatype State = State(
    workflowId: string,
    revision: int,
    sequence: int,
    phase: Phase,
    graph: Graph,
    goal: Option<Goal>,
    snapshotHash: string)

  datatype Blockage =
    | NotBlocked
    | RevisionEligible(blocker: BlockerIdentity)
    | RevisionNotAllowed(blocker: BlockerIdentity)
    | RevisionExhausted(blocker: BlockerIdentity)

  // ---------------------------------------------------------------------
  // Classification
  // ---------------------------------------------------------------------

  function Identify(state: State, kind: BlockageKind, id: string, reason: string): BlockerIdentity {
    BlockerIdentity(kind, id, reason, state.revision, state.sequence, state.snapshotHash)
  }

  predicate BudgetStopped(budget: Budget) {
    || (budget.maximumTurns.Some? && budget.consumedTurns >= budget.maximumTurns.value)
    || (budget.maximumTokens.Some? && budget.consumedTokens >= budget.maximumTokens.value)
  }

  function Finalize(goal: Goal, blocker: BlockerIdentity, eligible: bool): Blockage {
    if !eligible then RevisionNotAllowed(blocker)
    else if goal.automaticRevision.consumedAttempts >= goal.automaticRevision.maximumAttempts then RevisionExhausted(blocker)
    else if BudgetStopped(goal.budget) then RevisionNotAllowed(blocker)
    else RevisionEligible(blocker)
  }

  function GoalStatusText(status: GoalStatus): string {
    match status
    case ActiveGoal => "active"
    case PausedGoal => "paused"
    case BlockedGoal => "blocked"
    case BudgetLimitedGoal => "budget_limited"
    case CompletedGoal => "completed"
    case FailedGoal => "failed"
    case CancelledGoal => "cancelled"
  }

  function PhaseText(phase: Phase): string {
    match phase
    case PhaseRunning => "running"
    case PhasePaused => "paused"
    case PhaseBlocked => "blocked"
    case PhaseCompleted => "completed"
    case PhaseFailed => "failed"
    case PhaseCancelled => "cancelled"
  }

  function ExitText(exit: Option<ExitReason>): string {
    match exit
    case None => "unknown"
    case Some(ExitSuccess) => "success"
    case Some(ExitMaxIterations) => "max_iterations"
    case Some(ExitNoProgress) => "no_progress"
    case Some(ExitInvalidEvaluations) => "invalid_evaluations"
    case Some(ExitEvaluationBudget) => "evaluation_budget"
    case Some(ExitEvaluationError) => "evaluation_error"
  }

  // Some node, pending where it has no record, has a status that satisfies the test.
  predicate AnyStatus(graph: Graph, nodes: seq<NodeDefinition>, test: NodeStatus -> bool) {
    exists i :: 0 <= i < |nodes| && test(StatusOf(graph, nodes[i].id))
  }

  predicate RetainsAttempt(graph: Graph, node: NodeDefinition) {
    && node.id in graph.nodeRuntimes && graph.nodeRuntimes[node.id].status != AwaitingResponse
    && exists i :: 0 <= i < |graph.nodeRuntimes[node.id].attempts|
         && graph.nodeRuntimes[node.id].attempts[i].status in {AttemptRunning, AttemptSubmitted, AttemptVerifying}
  }

  function UnsafeAttempt(graph: Graph, nodes: seq<NodeDefinition>): (r: Option<string>)
    ensures r.None? <==> forall i :: 0 <= i < |nodes| ==> !RetainsAttempt(graph, nodes[i])
  {
    if nodes == [] then None
    else if RetainsAttempt(graph, nodes[0]) then Some(nodes[0].id)
    else
      assert forall i :: 0 < i < |nodes| ==> nodes[i] == nodes[1..][i - 1];
      UnsafeAttempt(graph, nodes[1..])
  }

  // The decision of the first loop that stopped, if any.
  function LoopBlockage(state: State, goal: Goal, loops: seq<LoopDefinition>): Option<Blockage> {
    if loops == [] then None
    else
      var loop := loops[0];
      if loop.id !in state.graph.loopRuntimes then LoopBlockage(state, goal, loops[1..])
      else
        var runtime := state.graph.loopRuntimes[loop.id];
        if runtime.status == LoopRequiresRevision then
          Some(Finalize(goal, Identify(state, LegacyDefinition, loop.id, "Loop '" + loop.id + "' requires a typed success condition."), true))
        else if runtime.status == LoopBlocked then
          Some(Finalize(goal, Identify(state, BlockedLoop, loop.id, runtime.blockedReason.GetOr("Loop '" + loop.id + "' is blocked.")), true))
        else if runtime.status == LoopFailed && loop.blocksDependants then
          var reason := "Loop '" + loop.id + "' stopped with '" + ExitText(runtime.exitReason) + "' and blocks required dependants.";
          Some(Finalize(goal, Identify(state, LoopDependants, loop.id, reason), runtime.exitReason == Some(ExitEvaluationError)))
        else LoopBlockage(state, goal, loops[1..])
  }

  function BlockedReason(runtime: NodeRuntime, nodeId: string): string {
    var reason := Trim(runtime.blockedReason.GetOr(""));
    if reason != "" then reason else "Node '" + nodeId + "' is blocked."
  }

  // The decision of the first blocked node, if any.
  function NodeBlockage(state: State, goal: Goal, nodes: seq<NodeDefinition>): Option<Blockage> {
    if nodes == [] then None
    else
      var id := nodes[0].id;
      if StatusOf(state.graph, id) != Blocked then NodeBlockage(state, goal, nodes[1..])
      else
        var runtime := state.graph.nodeRuntimes[id];
        var reason := BlockedReason(runtime, id);
        match runtime.blockerKind
        case Some(RepositoryWork) => Some(Finalize(goal, Identify(state, BlockedNode, id, reason), true))
        case Some(ExternalDependency) => Some(Finalize(goal, Identify(state, External, id, reason), false))
        case Some(Safeguard) => Some(Finalize(goal, Identify(state, TerminalPolicy, id, reason), false))
        case _ => Some(Finalize(goal, Identify(state, BlockedNode, id, reason), false))
  }

  predicate Working(state: State) {
    state.goal.Some? && state.goal.value.status == ActiveGoal && state.phase == PhaseRunning
  }

  function WorkActions(state: State): seq<WorkAction> {
    RootWorkActions(state.graph, Working(state))
  }

  // Decided by the goal and the workflow alone.
  function TerminalBlocker(state: State, goal: Goal): Option<BlockerIdentity> {
    if goal.status == BudgetLimitedGoal then
      Some(Identify(state, TerminalPolicy, "goal-budget", goal.stopReason.GetOr("The goal budget is exhausted.")))
    else if goal.status == PausedGoal then
      Some(Identify(state, TerminalPolicy, "goal-pause:" + goal.pauseCause.GetOr("explicit"), goal.stopReason.GetOr("The goal is paused.")))
    else if goal.status in {FailedGoal, CancelledGoal, CompletedGoal} then
      Some(Identify(state, TerminalPolicy, "goal-" + GoalStatusText(goal.status),
                    goal.stopReason.GetOr("The goal is " + GoalStatusText(goal.status) + ".")))
    else if state.phase in {PhaseFailed, PhaseCancelled, PhaseCompleted, PhasePaused} then
      Some(Identify(state, TerminalPolicy, "workflow-" + PhaseText(state.phase), "The workflow is " + PhaseText(state.phase) + "."))
    else None
  }

  predicate HasActiveNode(graph: Graph) {
    AnyStatus(graph, graph.nodes, IsActive)
  }

  predicate HasWaitingNode(graph: Graph) {
    AnyStatus(graph, graph.nodes, status => status == AwaitingResponse)
  }

  // The blocker of a goal with nothing to run and nothing to wait for.
  function ClassifyStuck(state: State, goal: Goal): Blockage {
    match UnsafeAttempt(state.graph, state.graph.nodes)
    case Some(id) =>
      var reason := "Node '" + id + "' retains an active attempt or check which cannot be safely invalidated.";
      RevisionNotAllowed(Identify(state, TerminalPolicy, "active-attempt:" + id, reason))
    case None =>
      match LoopBlockage(state, goal, state.graph.loops)
      case Some(decision) => decision
      case None =>
        match NodeBlockage(state, goal, state.graph.nodes)
        case Some(decision) => decision
        case None =>
          if goal.status == BlockedGoal || state.phase == PhaseBlocked || (goal.status == ActiveGoal && state.phase == PhaseRunning) then
            Finalize(goal, Identify(state, DefinitionNoPath, "workflow", goal.stopReason.GetOr("The workflow has no executable path.")), true)
          else NotBlocked
  }

  function ClassifyGoalBlockage(state: State): Blockage {
    if state.goal.None? then NotBlocked
    else
      var goal := state.goal.value;
      if goal.pendingContinuation.Some? then NotBlocked
      else if TerminalBlocker(state, goal).Some? then RevisionNotAllowed(TerminalBlocker(state, goal).value)
      else if WorkActions(state) != [] then NotBlocked
      else if HasActiveNode(state.graph) || HasWaitingNode(state.graph) then NotBlocked
      else ClassifyStuck(state, goal)
  }

  // ---------------------------------------------------------------------
  // What the classification means
  // ---------------------------------------------------------------------

  lemma {:induction false} LoopBlockageDecides(state: State, goal: Goal, loops: seq<LoopDefinition>)
    ensures LoopBlockage(state, goal, loops).Some? ==> LoopBlockage(state, goal, loops).value != NotBlocked
    ensures LoopBlockage(state, goal, loops).None? <==> forall i :: 0 <= i < |loops| ==> !LoopStopped(state.graph, loops[i])
  {
    if loops != [] {
      LoopBlockageDecides(state, goal, loops[1..]);
      assert loops == [loops[0]] + loops[1..];
    }
  }

  // A loop whose outcome blocks the workflow.
  predicate LoopStopped(graph: Graph, loop: LoopDefinition) {
    && loop.id in graph.loopRuntimes
    && var runtime := graph.loopRuntimes[loop.id];
       runtime.status in {LoopRequiresRevision, LoopBlocked} || (runtime.status == LoopFailed && loop.blocksDependants)
  }

  lemma {:induction false} NodeBlockageDecides(state: State, goal: Goal, nodes: seq<NodeDefinition>)
    ensures NodeBlockage(state, goal, nodes).Some? ==> NodeBlockage(state, goal, nodes).value != NotBlocked
    ensures NodeBlockage(state, goal, nodes).None? <==> forall i :: 0 <= i < |nodes| ==> StatusOf(state.graph, nodes[i].id) != Blocked
  {
    hide BlockedReason;
    if nodes != [] {
      NodeBlockageDecides(state, goal, nodes[1..]);
      assert nodes == [nodes[0]] + nodes[1..];
    }
  }

  // Some node is at work or waits for an answer.
  ghost predicate Busy(graph: Graph) {
    exists i :: 0 <= i < |graph.nodes|
      && StatusOf(graph, graph.nodes[i].id) in {Starting, Running, AwaitingEvidence, Verifying, AwaitingResponse}
  }

  // The status of the goal and the phase of its workflow leave it alive.
  predicate Alive(state: State, goal: Goal) {
    goal.status in {ActiveGoal, BlockedGoal} && state.phase in {PhaseRunning, PhaseBlocked}
  }

  // A goal that still can proceed by itself: a pending turn, work to run, an active node or an open question.
  ghost predicate CanProceed(state: State, goal: Goal) {
    goal.pendingContinuation.Some? || (Alive(state, goal) && (WorkActions(state) != [] || Busy(state.graph)))
  }

  lemma BusyExactly(graph: Graph)
    ensures Busy(graph) <==> HasActiveNode(graph) || HasWaitingNode(graph)
  {
    if Busy(graph) {
      var i :| 0 <= i < |graph.nodes|
        && StatusOf(graph, graph.nodes[i].id) in {Starting, Running, AwaitingEvidence, Verifying, AwaitingResponse};
      assert IsActive(StatusOf(graph, graph.nodes[i].id)) || StatusOf(graph, graph.nodes[i].id) == AwaitingResponse;
    }
  }

  /** A goal is not blocked exactly when it can proceed by itself; the last fall-through of the classification is never reached. */
  lemma NotBlockedExactly(state: State)
    requires state.goal.Some?
    ensures ClassifyGoalBlockage(state) == NotBlocked <==> CanProceed(state, state.goal.value)
  {
    hide WorkActions, HasActiveNode, HasWaitingNode, TerminalBlocker, UnsafeAttempt, LoopBlockage, NodeBlockage, Busy;
    BusyExactly(state.graph);
    TerminalSource(state, state.goal.value);
    LoopBlockageDecides(state, state.goal.value, state.graph.loops);
    NodeBlockageDecides(state, state.goal.value, state.graph.nodes);
  }

  lemma {:induction false} LoopBlockerSource(state: State, goal: Goal, loops: seq<LoopDefinition>)
    ensures LoopBlockage(state, goal, loops).Some? ==> Sound(state, goal, LoopBlockage(state, goal, loops).value)
  {
    if loops != [] {
      LoopBlockerSource(state, goal, loops[1..]);
    }
  }

  lemma {:induction false} NodeBlockerSource(state: State, goal: Goal, nodes: seq<NodeDefinition>)
    ensures NodeBlockage(state, goal, nodes).Some? ==> Sound(state, goal, NodeBlockage(state, goal, nodes).value)
  {
    hide BlockedReason;
    if nodes != [] {
      NodeBlockerSource(state, goal, nodes[1..]);
    }
  }

  // The blocker names this very state, and eligibility respects the attempt and budget limits.
  ghost predicate Sound(state: State, goal: Goal, b: Blockage) {
    && !b.NotBlocked?
    && b.blocker.sourceRevision == state.revision && b.blocker.sourceSequence == state.sequence
    && b.blocker.sourceSnapshotHash == state.snapshotHash
    && (b.RevisionEligible? ==> goal.automaticRevision.consumedAttempts < goal.automaticRevision.maximumAttempts && !BudgetStopped(goal.budget))
    && (b.RevisionExhausted? ==> goal.automaticRevision.consumedAttempts >= goal.automaticRevision.maximumAttempts)
  }

  lemma StuckIsSound(state: State, goal: Goal)
    requires ClassifyStuck(state, goal) != NotBlocked
    ensures Sound(state, goal, ClassifyStuck(state, goal))
  {
    hide UnsafeAttempt, LoopBlockage, NodeBlockage, Sound, Finalize;
    LoopBlockerSource(state, goal, state.graph.loops);
    NodeBlockerSource(state, goal, state.graph.nodes);
    FinalizeIsSound(state, goal, DefinitionNoPath, "workflow", goal.stopReason.GetOr("The workflow has no executable path."), true);
    match UnsafeAttempt(state.graph, state.graph.nodes) {
      case Some(id) => NotAllowedIsSound(state, goal, ClassifyStuck(state, goal).blocker);
      case None =>
    }
  }

  lemma FinalizeIsSound(state: State, goal: Goal, kind: BlockageKind, id: string, reason: string, eligible: bool)
    ensures Sound(state, goal, Finalize(goal, Identify(state, kind, id, reason), eligible))
  {
  }

  lemma NotAllowedIsSound(state: State, goal: Goal, blocker: BlockerIdentity)
    requires blocker == Identify(state, blocker.kind, blocker.id, blocker.reason)
    ensures Sound(state, goal, RevisionNotAllowed(blocker))
  {
  }

  lemma TerminalSource(state: State, goal: Goal)
    ensures TerminalBlocker(state, goal).Some? ==> Sound(state, goal, RevisionNotAllowed(TerminalBlocker(state, goal).value))
    ensures TerminalBlocker(state, goal).None? <==> goal.status in {ActiveGoal, BlockedGoal} && state.phase in {PhaseRunning, PhaseBlocked}
  {
    match goal.status {
      case PausedGoal =>
      case BudgetLimitedGoal =>
      case CompletedGoal =>
      case FailedGoal =>
      case CancelledGoal =>
      case _ =>
        assert goal.status.ActiveGoal? || goal.status.BlockedGoal?;
        match state.phase {
          case PhasePaused =>
          case PhaseCompleted =>
          case PhaseFailed =>
          case PhaseCancelled =>
          case _ => assert state.phase.PhaseRunning? || state.phase.PhaseBlocked?;
        }
    }
  }

  /**
   * An automatic revision is offered only for a goal that cannot proceed, is not
   * terminal, retains no running attempt, and has both an attempt and budget left;
   * every blocker is bound to the revision, sequence and hash it was seen at.
   */
  lemma BlockageIsSound(state: State)
    requires state.goal.Some? && ClassifyGoalBlockage(state) != NotBlocked
    ensures Sound(state, state.goal.value, ClassifyGoalBlockage(state))
    ensures !ClassifyGoalBlockage(state).RevisionNotAllowed? ==>
      && state.goal.value.status in {ActiveGoal, BlockedGoal} && state.phase in {PhaseRunning, PhaseBlocked}
      && WorkActions(state) == [] && !Busy(state.graph)
      && UnsafeAttempt(state.graph, state.graph.nodes).None?
  {
    hide WorkActions, HasActiveNode, HasWaitingNode, TerminalBlocker, UnsafeAttempt, LoopBlockage, NodeBlockage, Sound, Finalize, Busy;
    var goal := state.goal.value;
    BusyExactly(state.graph);
    TerminalSource(state, goal);
    if ClassifyStuck(state, goal) != NotBlocked {
      StuckIsSound(state, goal);
    }
  }

  // What an automatic revision may be asked to repair.
  ghost predicate Repairable(graph: Graph, blocker: BlockerIdentity) {
    match blocker.kind
    case LegacyDefinition => SomeLoop(graph, blocker.id, LoopRequiresRevision)
    case BlockedLoop => SomeLoop(graph, blocker.id, LoopBlocked)
    case LoopDependants => SomeLoop(graph, blocker.id, LoopFailed) && graph.loopRuntimes[blocker.id].exitReason == Some(ExitEvaluationError)
    case BlockedNode =>
      StatusOf(graph, blocker.id) == Blocked && graph.nodeRuntimes[blocker.id].blockerKind == Some(RepositoryWork)
    case DefinitionNoPath => true
    case External => false
    case TerminalPolicy => false
  }

  ghost predicate SomeLoop(graph: Graph, id: string, status: LoopStatus) {
    id in graph.loopRuntimes && graph.loopRuntimes[id].status == status
  }

  ghost predicate RepairsOnly(graph: Graph, b: Blockage) {
    b.RevisionEligible? || b.RevisionExhausted? ==> Repairable(graph, b.blocker)
  }

  lemma {:induction false} LoopRepairs(state: State, goal: Goal, loops: seq<LoopDefinition>)
    ensures LoopBlockage(state, goal, loops).Some? ==> RepairsOnly(state.graph, LoopBlockage(state, goal, loops).value)
  {
    hide ExitText;
    if loops != [] {
      LoopRepairs(state, goal, loops[1..]);
    }
  }

  lemma {:induction false} NodeRepairs(state: State, goal: Goal, nodes: seq<NodeDefinition>)
    ensures NodeBlockage(state, goal, nodes).Some? ==> RepairsOnly(state.graph, NodeBlockage(state, goal, nodes).value)
  {
    hide BlockedReason;
    if nodes != [] {
      NodeRepairs(state, goal, nodes[1..]);
    }
  }

  /**
   * A revision, available or exhausted, is only ever the answer to a loop that needs
   * one, a node blocked by repository work, or a workflow without a path: never to a
   * safeguard, an external dependency, a terminal policy or a bounded loop stop.
   */
  lemma RevisionRepairsOnly(state: State)
    ensures RepairsOnly(state.graph, ClassifyGoalBlockage(state))
  {
    hide WorkActions, HasActiveNode, HasWaitingNode, TerminalBlocker, UnsafeAttempt, LoopBlockage, NodeBlockage;
    if state.goal.Some? {
      LoopRepairs(state, state.goal.value, state.graph.loops);
      NodeRepairs(state, state.goal.value, state.graph.nodes);
    }
  }

  /** A stopped loop is classified before the node blocks it causes. */
  lemma LoopsBeforeNodes(state: State)
    requires state.goal.Some? && ClassifyGoalBlockage(state) != NotBlocked
    requires TerminalBlocker(state, state.goal.value).None?
    requires UnsafeAttempt(state.graph, state.graph.nodes).None?
    requires exists i :: 0 <= i < |state.graph.loops| && LoopStopped(state.graph, state.graph.loops[i])
    ensures ClassifyGoalBlockage(state).blocker.kind in {LegacyDefinition, BlockedLoop, LoopDependants}
  {
    hide WorkActions, HasActiveNode, HasWaitingNode, TerminalBlocker, RetainsAttempt;
    LoopBlockageDecides(state, state.goal.value, state.graph.loops);
    LoopKinds(state, state.goal.value, state.graph.loops);
  }

  lemma {:induction false} LoopKinds(state: State, goal: Goal, loops: seq<LoopDefinition>)
    ensures LoopBlockage(state, goal, loops).Some? ==>
      var b := LoopBlockage(state, goal, loops).value;
      !b.NotBlocked? && b.blocker.kind in {LegacyDefinition, BlockedLoop, LoopDependants}
  {
    if loops != [] {
      LoopKinds(state, goal, loops[1..]);
    }
  }

  // ---------------------------------------------------------------------
  // The whole classification
  // ---------------------------------------------------------------------

  // The node has an attempt that is not over.
  ghost predicate KeepsAttempt(graph: Graph, nodeId: string) {
    nodeId in graph.nodeRuntimes
    && exists i :: 0 <= i < |graph.nodeRuntimes[nodeId].attempts| && !Over(graph.nodeRuntimes[nodeId].attempts[i].status)
  }

  predicate Over(status: AttemptStatus) {
    status == AttemptSucceeded || status == AttemptFailed || status == AttemptCancelled
  }

  lemma RetainsExactly(graph: Graph, i: nat)
    requires !Busy(graph) && i < |graph.nodes|
    ensures RetainsAttempt(graph, graph.nodes[i]) <==> KeepsAttempt(graph, graph.nodes[i].id)
  {
    var id := graph.nodes[i].id;
    assert StatusOf(graph, id) != AwaitingResponse;
    if id in graph.nodeRuntimes {
      var attempts := graph.nodeRuntimes[id].attempts;
      forall j | 0 <= j < |attempts|
        ensures attempts[j].status in {AttemptRunning, AttemptSubmitted, AttemptVerifying} <==> !Over(attempts[j].status)
      {
      }
    }
  }

  // A live goal with nothing to run, nothing running, nothing to wait for and no attempt to lose.
  ghost predicate Stuck(state: State) {
    && state.goal.Some? && state.goal.value.pendingContinuation.None?
    && Alive(state, state.goal.value) && WorkActions(state) == [] && !Busy(state.graph)
    && forall i :: 0 <= i < |state.graph.nodes| ==> !KeepsAttempt(state.graph, state.graph.nodes[i].id)
  }

  // Loop i is the first that stopped.
  ghost predicate FirstStopped(graph: Graph, i: nat) {
    i < |graph.loops| && LoopStopped(graph, graph.loops[i]) && forall j :: 0 <= j < i ==> !LoopStopped(graph, graph.loops[j])
  }

  ghost predicate NoneStopped(graph: Graph) {
    forall i :: 0 <= i < |graph.loops| ==> !LoopStopped(graph, graph.loops[i])
  }

  ghost predicate NodeBlocked(graph: Graph, node: NodeDefinition) {
    node.id in graph.nodeRuntimes && graph.nodeRuntimes[node.id].status == Blocked
  }

  // Node i is the first that is blocked.
  ghost predicate FirstBlocked(graph: Graph, i: nat) {
    i < |graph.nodes| && NodeBlocked(graph, graph.nodes[i]) && forall j :: 0 <= j < i ==> !NodeBlocked(graph, graph.nodes[j])
  }

  ghost predicate NoneBlocked(graph: Graph) {
    forall i :: 0 <= i < |graph.nodes| ==> !NodeBlocked(graph, graph.nodes[i])
  }

  ghost predicate AttemptLeft(goal: Goal) {
    goal.automaticRevision.consumedAttempts < goal.automaticRevision.maximumAttempts
  }

  ghost predicate BudgetLeft(budget: Budget) {
    && (budget.maximumTurns.Some? ==> budget.consumedTurns < budget.maximumTurns.value)
    && (budget.maximumTokens.Some? ==> budget.consumedTokens < budget.maximumTokens.value)
  }

  // The answer names this blocker; a repairable one earns a revision while an attempt and budget are left.
  ghost predicate Answers(state: State, b: Blockage, kind: BlockageKind, id: string, reason: string, repairable: bool)
    requires state.goal.Some?
  {
    && !b.NotBlocked? && b.blocker.kind == kind && b.blocker.id == id && b.blocker.reason == reason
    && (b.RevisionEligible? <==> repairable && AttemptLeft(state.goal.value) && BudgetLeft(state.goal.value.budget))
    && (b.RevisionExhausted? <==> repairable && !AttemptLeft(state.goal.value))
  }

  lemma {:induction false} FirstLoopDecides(state: State, goal: Goal, loops: seq<LoopDefinition>, i: nat)
    requires i < |loops| && LoopStopped(state.graph, loops[i])
    requires forall j :: 0 <= j < i ==> !LoopStopped(state.graph, loops[j])
    ensures LoopBlockage(state, goal, loops) == LoopBlockage(state, goal, [loops[i]])
  {
    if i > 0 {
      assert !LoopStopped(state.graph, loops[0]);
      forall j | 0 <= j < i - 1 ensures !LoopStopped(state.graph, loops[1..][j]) {
        assert loops[1..][j] == loops[j + 1];
      }
      FirstLoopDecides(state, goal, loops[1..], i - 1);
    }
  }

  lemma {:induction false} FirstNodeDecides(state: State, goal: Goal, nodes: seq<NodeDefinition>, i: nat)
    requires i < |nodes| && NodeBlocked(state.graph, nodes[i])
    requires forall j :: 0 <= j < i ==> !NodeBlocked(state.graph, nodes[j])
    ensures NodeBlockage(state, goal, nodes) == NodeBlockage(state, goal, [nodes[i]])
  {
    hide BlockedReason;
    if i > 0 {
      assert !NodeBlocked(state.graph, nodes[0]);
      forall j | 0 <= j < i - 1 ensures !NodeBlocked(state.graph, nodes[1..][j]) {
        assert nodes[1..][j] == nodes[j + 1];
      }
      FirstNodeDecides(state, goal, nodes[1..], i - 1);
    }
  }

  lemma StuckIsClassified(state: State)
    requires Stuck(state)
    ensures state.goal.Some?
    ensures ClassifyGoalBlockage(state) == ClassifyStuck(state, state.goal.value)
    ensures UnsafeAttempt(state.graph, state.graph.nodes).None?
  {
    hide WorkActions, HasActiveNode, HasWaitingNode, RetainsAttempt, KeepsAttempt, TerminalBlocker, ClassifyStuck, Busy, UnsafeAttempt;
    BusyExactly(state.graph);
    TerminalSource(state, state.goal.value);
    NothingRetained(state.graph);
  }

  lemma NothingRetained(graph: Graph)
    requires !Busy(graph)
    ensures UnsafeAttempt(graph, graph.nodes).None? <==> forall i :: 0 <= i < |graph.nodes| ==> !KeepsAttempt(graph, graph.nodes[i].id)
  {
    hide RetainsAttempt, KeepsAttempt, Busy;
    forall i | 0 <= i < |graph.nodes| ensures RetainsAttempt(graph, graph.nodes[i]) <==> KeepsAttempt(graph, graph.nodes[i].id) {
      RetainsExactly(graph, i);
    }
  }

  // How the reason of a stopped loop calls its exit.
  ghost function ExitName(exit: Option<ExitReason>): string {
    if exit.None? then "unknown"
    else if exit.value == ExitSuccess then "success"
    else if exit.value == ExitMaxIterations then "max_iterations"
    else if exit.value == ExitNoProgress then "no_progress"
    else if exit.value == ExitInvalidEvaluations then "invalid_evaluations"
    else if exit.value == ExitEvaluationBudget then "evaluation_budget"
    else "evaluation_error"
  }

  lemma ExitNamed(exit: Option<ExitReason>)
    ensures ExitText(exit) == ExitName(exit)
  {
  }

  /** A stuck goal with a stopped loop is answered by its first stopped loop, whatever nodes are blocked. */
  lemma StoppedLoopAnswers(state: State, i: nat)
    requires Stuck(state) && FirstStopped(state.graph, i)
    ensures var loop := state.graph.loops[i];
      var runtime, b := state.graph.loopRuntimes[loop.id], ClassifyGoalBlockage(state);
      match runtime.status
      case LoopRequiresRevision =>
        Answers(state, b, LegacyDefinition, loop.id, "Loop '" + loop.id + "' requires a typed success condition.", true)
      case LoopBlocked =>
        Answers(state, b, BlockedLoop, loop.id, runtime.blockedReason.GetOr("Loop '" + loop.id + "' is blocked."), true)
      case _ =>
        Answers(state, b, LoopDependants, loop.id,
                "Loop '" + loop.id + "' stopped with '" + ExitName(runtime.exitReason) + "' and blocks required dependants.",
                runtime.exitReason == Some(ExitEvaluationError))
  {
    hide Stuck, UnsafeAttempt, ExitText, ExitName;
    StuckIsClassified(state);
    ExitNamed(state.graph.loopRuntimes[state.graph.loops[i].id].exitReason);
    FirstLoopDecides(state, state.goal.value, state.graph.loops, i);
  }

  // The recorded reason of a blocked node, trimmed, where it has any text.
  ghost predicate ReasonOf(runtime: NodeRuntime, nodeId: string, reason: string) {
    if runtime.blockedReason.Some? && !Blank(runtime.blockedReason.value) then reason == Trim(runtime.blockedReason.value)
    else reason == "Node '" + nodeId + "' is blocked."
  }

  function NodeBlockerKind(kind: Option<BlockerKind>): BlockageKind {
    match kind
    case Some(ExternalDependency) => External
    case Some(Safeguard) => TerminalPolicy
    case _ => BlockedNode
  }

  lemma NodeAnswers(state: State, node: NodeDefinition)
    requires state.goal.Some? && NodeBlocked(state.graph, node)
    ensures var decision, runtime := NodeBlockage(state, state.goal.value, [node]), state.graph.nodeRuntimes[node.id];
      && decision.Some? && !decision.value.NotBlocked? && ReasonOf(runtime, node.id, decision.value.blocker.reason)
      && Answers(state, decision.value, NodeBlockerKind(runtime.blockerKind), node.id, decision.value.blocker.reason,
                 runtime.blockerKind == Some(RepositoryWork))
  {
    hide Trim;
  }

  /** Without a stopped loop a stuck goal is answered by its first blocked node; only repository work is repairable. */
  lemma BlockedNodeAnswers(state: State, i: nat)
    requires Stuck(state) && NoneStopped(state.graph) && FirstBlocked(state.graph, i)
    ensures var node, b := state.graph.nodes[i], ClassifyGoalBlockage(state);
      var runtime := state.graph.nodeRuntimes[node.id];
      && !b.NotBlocked? && ReasonOf(runtime, node.id, b.blocker.reason)
      && Answers(state, b, NodeBlockerKind(runtime.blockerKind), node.id, b.blocker.reason, runtime.blockerKind == Some(RepositoryWork))
  {
    hide Stuck, UnsafeAttempt, LoopBlockage, NodeBlockage, LoopStopped, Answers, ReasonOf, ClassifyGoalBlockage;
    StuckIsClassified(state);
    LoopBlockageDecides(state, state.goal.value, state.graph.loops);
    FirstNodeDecides(state, state.goal.value, state.graph.nodes, i);
    NodeAnswers(state, state.graph.nodes[i]);
  }

  /** A stuck goal without a stopped loop or a blocked node has a workflow without a path, which is repairable. */
  lemma NoPathAnswers(state: State)
    requires Stuck(state) && NoneStopped(state.graph) && NoneBlocked(state.graph)
    ensures Answers(state, ClassifyGoalBlockage(state), DefinitionNoPath, "workflow",
                    state.goal.value.stopReason.GetOr("The workflow has no executable path."), true)
  {
    hide UnsafeAttempt, LoopBlockage, NodeBlockage, WorkActions, HasActiveNode, HasWaitingNode, RetainsAttempt, LoopStopped;
    StuckIsClassified(state);
    LoopBlockageDecides(state, state.goal.value, state.graph.loops);
    NodeBlockageDecides(state, state.goal.value, state.graph.nodes);
    forall i | 0 <= i < |state.graph.nodes| ensures StatusOf(state.graph, state.graph.nodes[i].id) != Blocked {
      assert !NodeBlocked(state.graph, state.graph.nodes[i]);
    }
  }

  // The cause of a stuck goal is one that a revision may repair.
  ghost predicate CauseRepairable(graph: Graph) {
    && (forall i: nat :: FirstStopped(graph, i) ==> LoopRepairable(graph, graph.loops[i]))
    && (NoneStopped(graph) ==> forall i: nat :: FirstBlocked(graph, i) ==> NodeRepairable(graph, graph.nodes[i]))
  }

  ghost predicate LoopRepairable(graph: Graph, loop: LoopDefinition)
    requires loop.id in graph.loopRuntimes
  {
    graph.loopRuntimes[loop.id].status == LoopFailed ==> graph.loopRuntimes[loop.id].exitReason == Some(ExitEvaluationError)
  }

  ghost predicate NodeRepairable(graph: Graph, node: NodeDefinition)
    requires node.id in graph.nodeRuntimes
  {
    graph.nodeRuntimes[node.id].blockerKind == Some(RepositoryWork)
  }

  lemma {:induction false} FirstStoppedExists(graph: Graph, k: nat)
    requires k < |graph.loops| && LoopStopped(graph, graph.loops[k])
    ensures exists i: nat :: FirstStopped(graph, i)
  {
    if !FirstStopped(graph, k) {
      var j :| 0 <= j < k && LoopStopped(graph, graph.loops[j]);
      FirstStoppedExists(graph, j);
    }
  }

  lemma {:induction false} FirstBlockedExists(graph: Graph, k: nat)
    requires k < |graph.nodes| && NodeBlocked(graph, graph.nodes[k])
    ensures exists i: nat :: FirstBlocked(graph, i)
  {
    if !FirstBlocked(graph, k) {
      var j :| 0 <= j < k && NodeBlocked(graph, graph.nodes[j]);
      FirstBlockedExists(graph, j);
    }
  }

  // A stuck goal has one of the three causes.
  lemma StuckAnswers(state: State)
    requires Stuck(state)
    ensures state.goal.Some?
    ensures var goal, b := state.goal.value, ClassifyGoalBlockage(state);
      && (b.RevisionEligible? <==> CauseRepairable(state.graph) && AttemptLeft(goal) && BudgetLeft(goal.budget))
      && (b.RevisionExhausted? <==> CauseRepairable(state.graph) && !AttemptLeft(goal))
  {
    hide Stuck, LoopStopped, NodeBlocked, ClassifyGoalBlockage, AttemptLeft, BudgetLeft;
    StuckIsClassified(state);
    var graph := state.graph;
    if !NoneStopped(graph) {
      var k :| 0 <= k < |graph.loops| && LoopStopped(graph, graph.loops[k]);
      FirstStoppedExists(graph, k);
      var i: nat :| FirstStopped(graph, i);
      StoppedLoopAnswers(state, i);
      StoppedStatus(graph, i);
      OneFirstStopped(graph, i);
    } else if !NoneBlocked(graph) {
      var k :| 0 <= k < |graph.nodes| && NodeBlocked(graph, graph.nodes[k]);
      FirstBlockedExists(graph, k);
      var i: nat :| FirstBlocked(graph, i);
      BlockedNodeAnswers(state, i);
      OneFirstBlocked(graph, i);
    } else {
      NoPathAnswers(state);
    }
  }

  lemma StoppedStatus(graph: Graph, i: nat)
    requires FirstStopped(graph, i)
    ensures graph.loops[i].id in graph.loopRuntimes
    ensures graph.loopRuntimes[graph.loops[i].id].status in {LoopRequiresRevision, LoopBlocked, LoopFailed}
  {
  }

  lemma OneFirstStopped(graph: Graph, i: nat)
    requires FirstStopped(graph, i)
    ensures forall j: nat :: FirstStopped(graph, j) ==> j == i
  {
    hide LoopStopped;
  }

  lemma OneFirstBlocked(graph: Graph, i: nat)
    requires FirstBlocked(graph, i)
    ensures forall j: nat :: FirstBlocked(graph, j) ==> j == i
  {
    hide NodeBlocked;
  }

  /**
   * A revision is eligible exactly for a stuck goal whose cause is repairable while an
   * attempt and budget are left, and exhausted exactly when the attempts are used up.
   */
  lemma EligibleExactly(state: State)
    ensures ClassifyGoalBlockage(state).RevisionEligible? <==>
      Stuck(state) && CauseRepairable(state.graph) && AttemptLeft(state.goal.value) && BudgetLeft(state.goal.value.budget)
    ensures ClassifyGoalBlockage(state).RevisionExhausted? <==>
      Stuck(state) && CauseRepairable(state.graph) && !AttemptLeft(state.goal.value)
  {
    hide WorkActions, HasActiveNode, HasWaitingNode, RetainsAttempt, TerminalBlocker, ClassifyStuck, CauseRepairable, AttemptLeft, BudgetLeft, Sound, Busy, KeepsAttempt, UnsafeAttempt;
    if Stuck(state) {
      StuckAnswers(state);
    } else if state.goal.Some? && ClassifyGoalBlockage(state) != NotBlocked {
      BlockageIsSound(state);
      if !Busy(state.graph) { NothingRetained(state.graph); }
    }
  }

  // The goal or its workflow has ended or is held; the id and reason of the blocker say by what.
  ghost predicate HeldBy(state: State, goal: Goal, id: string, reason: string) {
    match goal.status
    case BudgetLimitedGoal => id == "goal-budget" && reason == goal.stopReason.GetOr("The goal budget is exhausted.")
    case PausedGoal => id == "goal-pause:" + goal.pauseCause.GetOr("explicit") && reason == goal.stopReason.GetOr("The goal is paused.")
    case FailedGoal => id == "goal-" + "failed" && reason == goal.stopReason.GetOr("The goal is " + "failed" + ".")
    case CancelledGoal => id == "goal-" + "cancelled" && reason == goal.stopReason.GetOr("The goal is " + "cancelled" + ".")
    case CompletedGoal => id == "goal-" + "completed" && reason == goal.stopReason.GetOr("The goal is " + "completed" + ".")
    case _ =>
      match state.phase
      case PhaseFailed => id == "workflow-" + "failed" && reason == "The workflow is " + "failed" + "."
      case PhaseCancelled => id == "workflow-" + "cancelled" && reason == "The workflow is " + "cancelled" + "."
      case PhaseCompleted => id == "workflow-" + "completed" && reason == "The workflow is " + "completed" + "."
      case PhasePaused => id == "workflow-" + "paused" && reason == "The workflow is " + "paused" + "."
      case _ => false
  }

  lemma TerminalHeld(state: State, goal: Goal)
    requires !Alive(state, goal)
    ensures TerminalBlocker(state, goal).Some?
    ensures var blocker := TerminalBlocker(state, goal).value;
      blocker.kind == TerminalPolicy && HeldBy(state, goal, blocker.id, blocker.reason)
  {
    match goal.status {
      case FailedGoal =>
      case CancelledGoal =>
      case CompletedGoal =>
      case _ =>
        match state.phase {
          case PhaseFailed =>
          case PhaseCancelled =>
          case PhaseCompleted =>
          case _ =>
        }
    }
  }

  // Some node keeps an attempt, and the blocker names it.
  ghost predicate Retained(graph: Graph, blocker: BlockerIdentity) {
    exists i :: 0 <= i < |graph.nodes| && KeepsAttempt(graph, graph.nodes[i].id) && NamesRetained(blocker, graph.nodes[i].id)
  }

  ghost predicate NamesRetained(blocker: BlockerIdentity, nodeId: string) {
    && blocker.id == "active-attempt:" + nodeId
    && blocker.reason == "Node '" + nodeId + "' retains an active attempt or check which cannot be safely invalidated."
  }

  lemma RetainedIsClassified(state: State)
    requires state.goal.Some? && state.goal.value.pendingContinuation.None? && Alive(state, state.goal.value)
    requires WorkActions(state) == [] && !Busy(state.graph) && UnsafeAttempt(state.graph, state.graph.nodes).Some?
    ensures var b, id := ClassifyGoalBlockage(state), UnsafeAttempt(state.graph, state.graph.nodes).value;
      b.RevisionNotAllowed? && b.blocker.kind == TerminalPolicy && NamesRetained(b.blocker, id)
  {
    hide WorkActions, HasActiveNode, HasWaitingNode, UnsafeAttempt, LoopBlockage, NodeBlockage, Busy, TerminalBlocker;
    BusyExactly(state.graph);
    TerminalSource(state, state.goal.value);
  }

  /**
   * A goal that cannot proceed and is not stuck is never offered a revision: it is held by
   * its own status or its workflow's phase, or else retains an attempt of some node.
   */
  lemma HeldAnswers(state: State)
    requires state.goal.Some? && !CanProceed(state, state.goal.value) && !Stuck(state)
    ensures ClassifyGoalBlockage(state).RevisionNotAllowed?
    ensures var blocker := ClassifyGoalBlockage(state).blocker;
      && blocker.kind == TerminalPolicy
      && if Alive(state, state.goal.value) then Retained(state.graph, blocker)
         else HeldBy(state, state.goal.value, blocker.id, blocker.reason)
  {
    hide WorkActions, HasActiveNode, HasWaitingNode, RetainsAttempt, KeepsAttempt, UnsafeAttempt, LoopBlockage, NodeBlockage, Busy, TerminalBlocker, HeldBy, ClassifyStuck, NamesRetained;
    BusyExactly(state.graph);
    TerminalSource(state, state.goal.value);
    if Alive(state, state.goal.value) {
      NothingRetained(state.graph);
      UnsafeNode(state.graph, state.graph.nodes);
      RetainedIsClassified(state);
      var id := UnsafeAttempt(state.graph, state.graph.nodes).value;
      var i :| 0 <= i < |state.graph.nodes| && RetainsAttempt(state.graph, state.graph.nodes[i]) && id == state.graph.nodes[i].id;
      RetainsExactly(state.graph, i);
    } else {
      TerminalHeld(state, state.goal.value);
    }
  }

  lemma {:induction false} UnsafeNode(graph: Graph, nodes: seq<NodeDefinition>)
    ensures UnsafeAttempt(graph, nodes).Some? ==>
      exists i :: 0 <= i < |nodes| && RetainsAttempt(graph, nodes[i]) && UnsafeAttempt(graph, nodes) == Some(nodes[i].id)
  {
    hide RetainsAttempt;
    if nodes != [] && !RetainsAttempt(graph, nodes[0]) {
      UnsafeNode(graph, nodes[1..]);
      if UnsafeAttempt(graph, nodes[1..]).Some? {
        var i :| 0 <= i < |nodes[1..]| && RetainsAttempt(graph, nodes[1..][i]) && UnsafeAttempt(graph, nodes[1..]) == Some(nodes[1..][i].id);
        assert nodes[i + 1] == nodes[1..][i];
      }
    }
  }
}
