/** Which actions a goal can take next, and the separately written test that an action is still runnable. */
module GoalRunnable {
  import opened Wrappers
  import opened Workflow
  import opened StartPolicies

  datatype WorkKind =
    | ContinueActiveTask
    | StartReadyTask
    | RunReadyCheck
    | RunReadyCode
    | RunReadyEffect
    | ReconcileIndeterminateEffect
    | EvaluateReadyGate
    | RequestReadyInteraction

  datatype WorkAction = WorkAction(kind: WorkKind, nodeId: string, loopId: Option<string>)

  predicate IsActive(status: NodeStatus) {
    status in {Starting, Running, AwaitingEvidence, Verifying}
  }

  predicate LoopAllowsWork(graph: Graph, nodeId: string) {
    var loopId := LoopOf(graph.loops, nodeId);
    if !Present(loopId) then true
    else loopId.value in graph.loopRuntimes && graph.loopRuntimes[loopId.value].status in {LoopPending, LoopRunning}
  }

  // An action names its loop only when the loop has a non-empty id.
  function ActionFor(graph: Graph, kind: WorkKind, nodeId: string): WorkAction {
    var loopId := LoopOf(graph.loops, nodeId);
    WorkAction(kind, nodeId, if Present(loopId) then loopId else None)
  }

  // ---------------------------------------------------------------------
  // Enumeration
  // ---------------------------------------------------------------------

  predicate NeedsReconcile(graph: Graph, node: NodeDefinition) {
    && node.kind == EffectNode && node.effect.Some?
    && node.id in graph.nodeRuntimes
    && var runtime := graph.nodeRuntimes[node.id];
    && IndeterminateAttempts(runtime.attempts) != []
    && (runtime.status == Blocked || runtime.status == Failed)
    && !(runtime.status == Failed && node.effect.value.failWorkflowOnIndeterminate)
  }

  function ReconcileActions(graph: Graph, nodes: seq<NodeDefinition>): seq<WorkAction> {
    if nodes == [] then []
    else
      var rest := ReconcileActions(graph, nodes[1..]);
      if NeedsReconcile(graph, nodes[0]) then [ActionFor(graph, ReconcileIndeterminateEffect, nodes[0].id)] + rest else rest
  }

  /** `working` is an active goal in a running workflow. */
  method EnumerateIndeterminateEffectActions(graph: Graph, working: bool) returns (actions: seq<WorkAction>)
    ensures actions == if working then ReconcileActions(graph, graph.nodes) else []
  {
    actions := [];
    if !working {
      return;
    }
    var nodes := graph.nodes;
    for i := 0 to |nodes|
      invariant actions + ReconcileActions(graph, nodes[i..]) == ReconcileActions(graph, nodes)
    {
      assert nodes[i..][0] == nodes[i] && nodes[i..][1..] == nodes[i + 1..];
      var node := nodes[i];
      if node.kind != EffectNode || node.effect.None? {
        continue;
      }
      if node.id !in graph.nodeRuntimes {
        continue;
      }
      var runtime := graph.nodeRuntimes[node.id];
      var indeterminate := CollectIndeterminateAttempts(runtime.attempts);
      if indeterminate == [] {
        continue;
      }
      if runtime.status != Blocked && runtime.status != Failed {
        continue;
      }
      if runtime.status == Failed && node.effect.value.failWorkflowOnIndeterminate {
        continue;
      }
      actions := actions + [ActionFor(graph, ReconcileIndeterminateEffect, node.id)];
    }
  }

  function ActionForReadyNode(graph: Graph, node: NodeDefinition): Option<WorkAction> {
    if node.id !in graph.nodeRuntimes || !LoopAllowsWork(graph, node.id) then None
    else
      var runtime := graph.nodeRuntimes[node.id];
      if node.kind == TaskNode && runtime.status == Ready then Some(ActionFor(graph, StartReadyTask, node.id))
      else if node.kind == GateNode && runtime.status == Ready then Some(ActionFor(graph, EvaluateReadyGate, node.id))
      else if node.kind == CheckNode && node.check.Some? && CanStartWithoutWaiting(CheckStep, runtime, node.check.value) then
        Some(ActionFor(graph, RunReadyCheck, node.id))
      else if node.kind == CodeNode && node.code.Some? && CanStartWithoutWaiting(CodeStep, runtime, node.code.value) then
        Some(ActionFor(graph, RunReadyCode, node.id))
      else if node.kind == EffectNode && node.effect.Some? && EffectCanStartWithoutWaiting(runtime) then
        Some(ActionFor(graph, RunReadyEffect, node.id))
      else if node.kind == InteractionNode && runtime.status == Ready && node.interaction then
        Some(ActionFor(graph, RequestReadyInteraction, node.id))
      else None
  }

  function ReadyActions(graph: Graph, nodes: seq<NodeDefinition>): seq<WorkAction> {
    if nodes == [] then []
    else
      var rest := ReadyActions(graph, nodes[1..]);
      match ActionForReadyNode(graph, nodes[0])
      case None => rest
      case Some(action) => [action] + rest
  }

  predicate IsActiveNode(graph: Graph, node: NodeDefinition) {
    LoopAllowsWork(graph, node.id) && IsActive(StatusOf(graph, node.id))
  }

  function ActiveNodes(graph: Graph, nodes: seq<NodeDefinition>): seq<NodeDefinition> {
    if nodes == [] then []
    else (if IsActiveNode(graph, nodes[0]) then [nodes[0]] else []) + ActiveNodes(graph, nodes[1..])
  }

  function RootWorkActions(graph: Graph, working: bool): seq<WorkAction> {
    var reconcile := if working then ReconcileActions(graph, graph.nodes) else [];
    if reconcile != [] then reconcile
    else
      var active := ActiveNodes(graph, graph.nodes);
      if |active| == 1 then
        if active[0].kind != TaskNode then [] else [ActionFor(graph, ContinueActiveTask, active[0].id)]
      else if |active| > 1 then []
      else ReadyActions(graph, graph.nodes)
  }

  // ---------------------------------------------------------------------
  // The separate test
  // ---------------------------------------------------------------------

  function FindNode(nodes: seq<NodeDefinition>, id: string): (r: Option<NodeDefinition>)
    ensures r.Some? ==> r.value in nodes && r.value.id == id
    ensures r.None? <==> forall i :: 0 <= i < |nodes| ==> nodes[i].id != id
  {
    if nodes == [] then None
    else if nodes[0].id == id then Some(nodes[0])
    else FindNode(nodes[1..], id)
  }

  predicate RootWorkActionIsRunnable(graph: Graph, action: WorkAction) {
    var found := FindNode(graph.nodes, action.nodeId);
    && found.Some? && action.nodeId in graph.nodeRuntimes
    && LoopOf(graph.loops, action.nodeId) == action.loopId && LoopAllowsWork(graph, action.nodeId)
    && var node, runtime := found.value, graph.nodeRuntimes[action.nodeId];
       match action.kind
       case ContinueActiveTask => node.kind == TaskNode && IsActive(runtime.status)
       case StartReadyTask => node.kind == TaskNode && runtime.status == Ready
       case EvaluateReadyGate => node.kind == GateNode && runtime.status == Ready
       case RequestReadyInteraction => node.kind == InteractionNode && node.interaction && runtime.status == Ready
       case RunReadyCode => node.kind == CodeNode && node.code.Some? && CanStartWithoutWaiting(CodeStep, runtime, node.code.value)
       case RunReadyEffect => node.kind == EffectNode && node.effect.Some? && EffectCanStartWithoutWaiting(runtime)
       case ReconcileIndeterminateEffect =>
         && node.kind == EffectNode && node.effect.Some?
         && (runtime.status == Blocked || runtime.status == Failed)
         && IndeterminateAttempts(runtime.attempts) != []
         && !(runtime.status == Failed && node.effect.value.failWorkflowOnIndeterminate)
       case RunReadyCheck => node.kind == CheckNode && node.check.Some? && CanStartWithoutWaiting(CheckStep, runtime, node.check.value)
  }

  // ---------------------------------------------------------------------
  // Agreement
  // ---------------------------------------------------------------------

  ghost predicate UniqueNodeIds(graph: Graph) {
    forall i, j :: 0 <= i < j < |graph.nodes| ==> graph.nodes[i].id != graph.nodes[j].id
  }

  // The first loop that lists the node has no id text.
  predicate InNamelessLoop(graph: Graph, nodeId: string) {
    LoopOf(graph.loops, nodeId) == Some("")
  }

  lemma FindsTheNode(graph: Graph, node: NodeDefinition)
    requires UniqueNodeIds(graph) && node in graph.nodes
    ensures FindNode(graph.nodes, node.id) == Some(node)
  {
    var found := FindNode(graph.nodes, node.id);
    var i :| 0 <= i < |graph.nodes| && graph.nodes[i] == node;
    assert found.Some?;
    var j :| 0 <= j < |graph.nodes| && graph.nodes[j] == found.value;
    assert i == j;
  }

  lemma {:induction false} ReconcileMembers(graph: Graph, nodes: seq<NodeDefinition>, action: WorkAction)
    ensures action in ReconcileActions(graph, nodes)
      <==> exists node :: node in nodes && NeedsReconcile(graph, node) && action == ActionFor(graph, ReconcileIndeterminateEffect, node.id)
  {
    if nodes != [] {
      ReconcileMembers(graph, nodes[1..], action);
      assert nodes == [nodes[0]] + nodes[1..];
    }
  }

  lemma {:induction false} ReadyMembers(graph: Graph, nodes: seq<NodeDefinition>, action: WorkAction)
    ensures action in ReadyActions(graph, nodes) <==> exists node :: node in nodes && ActionForReadyNode(graph, node) == Some(action)
  {
    hide ActionForReadyNode;
    if nodes != [] {
      ReadyMembers(graph, nodes[1..], action);
      assert nodes == [nodes[0]] + nodes[1..];
    }
  }

  lemma {:induction false} ActiveMembers(graph: Graph, nodes: seq<NodeDefinition>, node: NodeDefinition)
    ensures node in ActiveNodes(graph, nodes) <==> node in nodes && IsActiveNode(graph, node)
  {
    if nodes != [] {
      ActiveMembers(graph, nodes[1..], node);
      assert nodes == [nodes[0]] + nodes[1..];
    }
  }

  lemma ReconcileRunnable(graph: Graph, node: NodeDefinition)
    requires UniqueNodeIds(graph) && node in graph.nodes && NeedsReconcile(graph, node)
    ensures RootWorkActionIsRunnable(graph, ActionFor(graph, ReconcileIndeterminateEffect, node.id))
      <==> !InNamelessLoop(graph, node.id) && LoopAllowsWork(graph, node.id)
  {
    FindsTheNode(graph, node);
  }

  lemma ReadyRunnable(graph: Graph, node: NodeDefinition)
    requires UniqueNodeIds(graph) && node in graph.nodes && ActionForReadyNode(graph, node).Some?
    ensures RootWorkActionIsRunnable(graph, ActionForReadyNode(graph, node).value) <==> !InNamelessLoop(graph, node.id)
    ensures ActionForReadyNode(graph, node).value.nodeId == node.id && LoopAllowsWork(graph, node.id)
  {
    hide LoopAllowsWork, CanStartWithoutWaiting, IndeterminateAttempts, UniqueNodeIds;
    FindsTheNode(graph, node);
  }

  lemma ActiveRunnable(graph: Graph, node: NodeDefinition)
    requires UniqueNodeIds(graph) && node in graph.nodes && IsActiveNode(graph, node) && node.kind == TaskNode
    ensures RootWorkActionIsRunnable(graph, ActionFor(graph, ContinueActiveTask, node.id)) <==> !InNamelessLoop(graph, node.id)
  {
    FindsTheNode(graph, node);
  }

  /**
   * Every enumerated action is runnable, except where its node is in a loop
   * without an id, and except a reconciliation whose loop is neither pending nor
   * running: the enumerator does not make that last test.
   */
  lemma EnumeratedActionsRunnable(graph: Graph, working: bool, action: WorkAction)
    requires UniqueNodeIds(graph) && action in RootWorkActions(graph, working)
    ensures RootWorkActionIsRunnable(graph, action)
      <==> !InNamelessLoop(graph, action.nodeId) && (action.kind == ReconcileIndeterminateEffect ==> LoopAllowsWork(graph, action.nodeId))
  {
    hide RootWorkActionIsRunnable, LoopAllowsWork, NeedsReconcile, ActionForReadyNode;
    var reconcile := if working then ReconcileActions(graph, graph.nodes) else [];
    if reconcile != [] {
      ReconcileMembers(graph, graph.nodes, action);
      var node :| node in graph.nodes && NeedsReconcile(graph, node) && action == ActionFor(graph, ReconcileIndeterminateEffect, node.id);
      ReconcileRunnable(graph, node);
    } else {
      var active := ActiveNodes(graph, graph.nodes);
      if |active| == 1 {
        ActiveMembers(graph, graph.nodes, active[0]);
        ActiveRunnable(graph, active[0]);
      } else {
        ReadyMembers(graph, graph.nodes, action);
        var node :| node in graph.nodes && ActionForReadyNode(graph, node) == Some(action);
        ReadyRunnable(graph, node);
        ReadyKind(graph, node);
      }
    }
  }

  lemma ReadyKind(graph: Graph, node: NodeDefinition)
    requires ActionForReadyNode(graph, node).Some?
    ensures ActionForReadyNode(graph, node).value.kind !in {ContinueActiveTask, ReconcileIndeterminateEffect}
  {
  }

  /** A reconciliation is offered for a node whose loop is blocked, and the test refuses it. */
  lemma ReconcileInBlockedLoopIsOffered()
    ensures exists graph, action :: UniqueNodeIds(graph) && action in RootWorkActions(graph, true) && !RootWorkActionIsRunnable(graph, action)
  {
    var node := NodeDefinition("n", EffectNode, None, None, Some(EffectDefinition(false)), false);
    var attempt := Attempt("a", AttemptFailed, None, None, None, Some(EffectIndeterminate));
    var runtime := NodeRuntime(Blocked, 1, Some("a"), [attempt], None, None);
    var graph := Graph([node], [LoopDefinition("l", ["n"], true)], map["n" := runtime], map["l" := LoopRuntime(LoopBlocked, None, None)]);
    assert Indeterminate([attempt])[0] == "a";
    NoneIndeterminate([attempt]);
    assert NeedsReconcile(graph, graph.nodes[0]);
    var action := ActionFor(graph, ReconcileIndeterminateEffect, "n");
    assert ReconcileActions(graph, graph.nodes)[0] == action;
    assert action in RootWorkActions(graph, true);
    assert !LoopAllowsWork(graph, "n");
  }

  // Nothing is to be reconciled and no node is active.
  ghost predicate Idle(graph: Graph, working: bool) {
    (working ==> forall node :: node in graph.nodes ==> !NeedsReconcile(graph, node))
    && forall node :: node in graph.nodes ==> !IsActiveNode(graph, node)
  }

  lemma IdleEnumeratesReady(graph: Graph, working: bool)
    requires Idle(graph, working)
    ensures RootWorkActions(graph, working) == ReadyActions(graph, graph.nodes)
  {
    hide NeedsReconcile, IsActiveNode, ReadyActions;
    var reconcile, active := ReconcileActions(graph, graph.nodes), ActiveNodes(graph, graph.nodes);
    if working && reconcile != [] {
      ReconcileMembers(graph, graph.nodes, reconcile[0]);
    }
    if active != [] {
      ActiveMembers(graph, graph.nodes, active[0]);
    }
  }

  /** While the goal is idle the enumerator and the test agree on every action, so no ready work is missed. */
  lemma IdleEnumerationIsComplete(graph: Graph, action: WorkAction)
    requires UniqueNodeIds(graph) && Idle(graph, true)
    requires forall loop :: loop in graph.loops ==> loop.id != ""
    ensures action in RootWorkActions(graph, true) <==> RootWorkActionIsRunnable(graph, action)
  {
    IdleEnumeratesReady(graph, true);
    ReadyMembers(graph, graph.nodes, action);
    assert !InNamelessLoop(graph, action.nodeId);
    if action in ReadyActions(graph, graph.nodes) {
      EnumeratedActionsRunnable(graph, true, action);
      var node :| node in graph.nodes && ActionForReadyNode(graph, node) == Some(action);
      ReadyKind(graph, node);
    }
    if RootWorkActionIsRunnable(graph, action) {
      var node := FindNode(graph.nodes, action.nodeId).value;
      RunnableIsReady(graph, node, action);
    }
  }

  lemma RunnableIsReady(graph: Graph, node: NodeDefinition, action: WorkAction)
    requires node in graph.nodes && FindNode(graph.nodes, action.nodeId) == Some(node) && RootWorkActionIsRunnable(graph, action)
    requires !NeedsReconcile(graph, node) && !IsActiveNode(graph, node) && !InNamelessLoop(graph, node.id)
    ensures ActionForReadyNode(graph, node) == Some(action)
  {
  }

  // ---------------------------------------------------------------------
  // Shape of the list
  // ---------------------------------------------------------------------

  ghost predicate DistinctNodes(actions: seq<WorkAction>) {
    forall i, j :: 0 <= i < j < |actions| ==> actions[i].nodeId != actions[j].nodeId
  }

  lemma {:induction false} ReconcileDistinct(graph: Graph, nodes: seq<NodeDefinition>)
    requires forall i, j :: 0 <= i < j < |nodes| ==> nodes[i].id != nodes[j].id
    ensures DistinctNodes(ReconcileActions(graph, nodes))
  {
    hide NeedsReconcile;
    if nodes != [] {
      ReconcileDistinct(graph, nodes[1..]);
      var rest := ReconcileActions(graph, nodes[1..]);
      forall j | 0 <= j < |rest| ensures rest[j].nodeId != nodes[0].id {
        ReconcileMembers(graph, nodes[1..], rest[j]);
      }
    }
  }

  lemma {:induction false} ReadyDistinct(graph: Graph, nodes: seq<NodeDefinition>)
    requires forall i, j :: 0 <= i < j < |nodes| ==> nodes[i].id != nodes[j].id
    ensures DistinctNodes(ReadyActions(graph, nodes))
  {
    hide ActionForReadyNode;
    if nodes != [] {
      ReadyDistinct(graph, nodes[1..]);
      var rest := ReadyActions(graph, nodes[1..]);
      forall j | 0 <= j < |rest| ensures rest[j].nodeId != nodes[0].id {
        ReadyMembers(graph, nodes[1..], rest[j]);
        var node :| node in nodes[1..] && ActionForReadyNode(graph, node) == Some(rest[j]);
        ReadyNode(graph, node);
      }
      if ActionForReadyNode(graph, nodes[0]).Some? {
        ReadyNode(graph, nodes[0]);
      }
    }
  }

  lemma ReadyNode(graph: Graph, node: NodeDefinition)
    requires ActionForReadyNode(graph, node).Some?
    ensures ActionForReadyNode(graph, node).value.nodeId == node.id
  {
  }

  /** At most one action is offered per node, and reconciliation, continuation and new work are never offered together. */
  lemma EnumerationShape(graph: Graph, working: bool)
    requires UniqueNodeIds(graph)
    ensures DistinctNodes(RootWorkActions(graph, working))
    ensures var actions := RootWorkActions(graph, working);
      || (forall a :: a in actions ==> a.kind == ReconcileIndeterminateEffect)
      || (|actions| == 1 && actions[0].kind == ContinueActiveTask)
      || (forall a :: a in actions ==> a.kind !in {ContinueActiveTask, ReconcileIndeterminateEffect})
  {
    hide NeedsReconcile, ActionForReadyNode, IsActiveNode;
    ReconcileDistinct(graph, graph.nodes);
    ReadyDistinct(graph, graph.nodes);
    forall a | a in ReconcileActions(graph, graph.nodes) ensures a.kind == ReconcileIndeterminateEffect {
      ReconcileMembers(graph, graph.nodes, a);
    }
    forall a | a in ReadyActions(graph, graph.nodes) ensures a.kind !in {ContinueActiveTask, ReconcileIndeterminateEffect} {
      ReadyMembers(graph, graph.nodes, a);
      var node :| node in graph.nodes && ActionForReadyNode(graph, node) == Some(a);
      ReadyKind(graph, node);
    }
  }

  ghost predicate Accepted(graph: Graph, action: WorkAction, node: NodeDefinition, attemptId: string, at: Timestamp)
    requires action.nodeId in graph.nodeRuntimes
  {
    var runtime := graph.nodeRuntimes[action.nodeId];
    match action.kind
    case RunReadyCheck => node.check.Some? && EvaluateStart(CheckStep, runtime, node.check.value, attemptId, at).Eligible?
    case RunReadyCode => node.code.Some? && EvaluateStart(CodeStep, runtime, node.code.value, attemptId, at).Eligible?
    case RunReadyEffect => EvaluateEffectStart(runtime, attemptId).Eligible?
    case _ => true
  }

  lemma ReadyOfferAccepted(graph: Graph, node: NodeDefinition, attemptId: string, at: Timestamp)
    requires ActionForReadyNode(graph, node).Some?
    requires node.id in graph.nodeRuntimes && FindAttempt(graph.nodeRuntimes[node.id].attempts, attemptId).None?
    ensures Accepted(graph, ActionForReadyNode(graph, node).value, node, attemptId, at)
  {
    hide EvaluateStart, CanStartWithoutWaiting;
    var runtime := graph.nodeRuntimes[node.id];
    match ActionForReadyNode(graph, node).value.kind {
      case RunReadyCheck => StartsAtAnyTime(CheckStep, runtime, node.check.value, attemptId);
      case RunReadyCode => StartsAtAnyTime(CodeStep, runtime, node.code.value, attemptId);
      case _ =>
    }
  }

  /** An offered check, code or effect node is accepted by its start policy for every unused attempt id at every time. */
  lemma OffersAreAccepted(graph: Graph, working: bool, action: WorkAction, attemptId: string, at: Timestamp)
    requires UniqueNodeIds(graph) && action in RootWorkActions(graph, working)
    requires action.nodeId in graph.nodeRuntimes && FindAttempt(graph.nodeRuntimes[action.nodeId].attempts, attemptId).None?
    ensures var node := FindNode(graph.nodes, action.nodeId);
      node.Some? && Accepted(graph, action, node.value, attemptId, at)
  {
    hide EvaluateStart, EvaluateEffectStart, NeedsReconcile, IsActiveNode, ActionForReadyNode, ReadyActions, ReconcileActions, ActiveNodes, LoopOf;
    ReconcileMembers(graph, graph.nodes, action);
    ReadyMembers(graph, graph.nodes, action);
    if action in ReadyActions(graph, graph.nodes) {
      var node :| node in graph.nodes && ActionForReadyNode(graph, node) == Some(action);
      ReadyNode(graph, node);
      FindsTheNode(graph, node);
      ReadyOfferAccepted(graph, node, attemptId, at);
    } else if action in ReconcileActions(graph, graph.nodes) {
      var node :| node in graph.nodes && NeedsReconcile(graph, node) && action == ActionFor(graph, ReconcileIndeterminateEffect, node.id);
      FindsTheNode(graph, node);
    } else {
      var active := ActiveNodes(graph, graph.nodes);
      assert |active| == 1 && action == ActionFor(graph, ContinueActiveTask, active[0].id);
      ActiveMembers(graph, graph.nodes, active[0]);
      FindsTheNode(graph, active[0]);
    }
  }
}
