/** The part of the workflow state that action selection, start policies and action dispatch read. */
module Workflow {
  import opened Wrappers

  // A host date text is either unparseable or a number of milliseconds.
  datatype Timestamp = Unparseable | Millis(at: int)

  datatype NodeStatus =
    | Pending | Ready | Starting | Running | AwaitingEvidence | AwaitingResponse | WaitingForChild
    | Verifying | Succeeded | Failed | Blocked | Cancelled | Skipped | Stale

  // A definition without a kind is a task.
  datatype NodeKind = TaskNode | GateNode | CheckNode | InteractionNode | CodeNode | EffectNode

  datatype AttemptStatus = AttemptRunning | AttemptSubmitted | AttemptVerifying | AttemptSucceeded | AttemptFailed | AttemptCancelled

  datatype ResultStatus = PassedResult | FailedResult | TimedOutResult | CancelledResult | InterruptedResult | ErrorResult

  datatype StepResult = StepResult(status: ResultStatus, completedAt: Timestamp)

  datatype DurableState = EffectRequested | EffectObserved | EffectIndeterminate

  datatype Attempt = Attempt(
    attemptId: string,
    status: AttemptStatus,
    completedAt: Option<Timestamp>,
    checkResult: Option<StepResult>,
    codeResult: Option<StepResult>,
    effectState: Option<DurableState>)

  datatype BlockerKind = RepositoryWork | ExternalDependency | Safeguard | UnknownBlocker

  // The attempts of a node, keyed by their id.
  datatype NodeRuntime = NodeRuntime(
    status: NodeStatus,
    attemptCount: int,
    currentAttemptId: Option<string>,
    attempts: seq<Attempt>,
    blockedReason: Option<string>,
    blockerKind: Option<BlockerKind>)

  datatype RetryPolicy = RetryPolicy(maxAttempts: int, retryOn: seq<ResultStatus>, backoffMs: Option<int>)

  datatype StepDefinition = StepDefinition(retry: Option<RetryPolicy>)

  datatype EffectDefinition = EffectDefinition(failWorkflowOnIndeterminate: bool)

  datatype NodeDefinition = NodeDefinition(
    id: string,
    kind: NodeKind,
    check: Option<StepDefinition>,
    code: Option<StepDefinition>,
    effect: Option<EffectDefinition>,
    interaction: bool)

  datatype LoopStatus = LoopPending | LoopRunning | LoopBlocked | LoopSucceeded | LoopFailed | LoopRequiresRevision

  datatype ExitReason = ExitSuccess | ExitMaxIterations | ExitNoProgress | ExitInvalidEvaluations | ExitEvaluationBudget | ExitEvaluationError

  datatype LoopRuntime = LoopRuntime(status: LoopStatus, blockedReason: Option<string>, exitReason: Option<ExitReason>)

  datatype LoopDefinition = LoopDefinition(id: string, nodes: seq<string>, blocksDependants: bool)

  datatype Phase = PhaseRunning | PhasePaused | PhaseBlocked | PhaseCompleted | PhaseFailed | PhaseCancelled

  // The graph and its runtime records.
  datatype Graph = Graph(
    nodes: seq<NodeDefinition>,
    loops: seq<LoopDefinition>,
    nodeRuntimes: map<string, NodeRuntime>,
    loopRuntimes: map<string, LoopRuntime>)

  // An optional text that the host language treats as present.
  predicate Present(text: Option<string>) {
    text.Some? && text.value != ""
  }

  function FindAttempt(attempts: seq<Attempt>, id: string): (r: Option<Attempt>)
    ensures r.Some? ==> r.value in attempts && r.value.attemptId == id
    ensures r.None? <==> forall i :: 0 <= i < |attempts| ==> attempts[i].attemptId != id
  {
    if attempts == [] then None
    else if attempts[0].attemptId == id then Some(attempts[0])
    else FindAttempt(attempts[1..], id)
  }

  // The loop that a node belongs to: the first that lists it.
  function LoopOf(loops: seq<LoopDefinition>, nodeId: string): (r: Option<string>)
    ensures r.Some? ==> exists i :: 0 <= i < |loops| && nodeId in loops[i].nodes && loops[i].id == r.value
    ensures r.None? <==> forall i :: 0 <= i < |loops| ==> nodeId !in loops[i].nodes
  {
    if loops == [] then None
    else if nodeId in loops[0].nodes then Some(loops[0].id)
    else LoopOf(loops[1..], nodeId)
  }

  function StatusOf(graph: Graph, nodeId: string): NodeStatus {
    if nodeId in graph.nodeRuntimes then graph.nodeRuntimes[nodeId].status else Pending
  }
}
