/**
 * What work a graph offers, said of its definitions and records: which nodes, for
 * what, and in which order. The enumerator computes exactly this, and the separate
 * runnable test decides exactly the same conditions for one action.
 */
module WorkOffers {
  import opened Wrappers
  import opened Workflow
  import opened StartPolicies
  import opened GoalRunnable

  // ---------------------------------------------------------------------
  // Reference semantics
  // ---------------------------------------------------------------------

  // Loop i is the first that lists the node.
  ghost predicate FirstLoop(loops: seq<LoopDefinition>, nodeId: string, i: nat) {
    i < |loops| && nodeId in loops[i].nodes && forall j :: 0 <= j < i ==> nodeId !in loops[j].nodes
  }

  // The loop of the node has an id and is neither pending nor running.
  ghost predicate LoopHolds(graph: Graph, nodeId: string) {
    exists i: nat :: FirstLoop(graph.loops, nodeId, i) && graph.loops[i].id != "" && !LoopLive(graph, graph.loops[i].id)
  }

  ghost predicate LoopLive(graph: Graph, loopId: string) {
    loopId in graph.loopRuntimes && graph.loopRuntimes[loopId].status in {LoopPending, LoopRunning}
  }

  // The action names the loop of its node, where that loop has an id.
  ghost predicate NamesLoop(graph: Graph, nodeId: string, loopId: Option<string>) {
    match loopId
    case None => forall i: nat :: FirstLoop(graph.loops, nodeId, i) ==> graph.loops[i].id == ""
    case Some(id) => id != "" && exists i: nat :: FirstLoop(graph.loops, nodeId, i) && graph.loops[i].id == id
  }

  ghost predicate ActionNames(graph: Graph, nodeId: string, kind: WorkKind, action: WorkAction) {
    action.kind == kind && action.nodeId == nodeId && NamesLoop(graph, nodeId, action.loopId)
  }

  // The id, empty or not, of the loop of the node, where there is one.
  ghost predicate IsLoop(graph: Graph, nodeId: string, loopId: Option<string>) {
    match loopId
    case None => forall i: nat :: !FirstLoop(graph.loops, nodeId, i)
    case Some(id) => exists i: nat :: FirstLoop(graph.loops, nodeId, i) && graph.loops[i].id == id
  }

  // An effect node that ended without a known outcome, and may still be settled.
  ghost predicate Reconcilable(graph: Graph, node: NodeDefinition) {
    && node.kind == EffectNode && node.effect.Some? && node.id in graph.nodeRuntimes
    && var runtime := graph.nodeRuntimes[node.id];
    && (exists i :: 0 <= i < |runtime.attempts| && runtime.attempts[i].effectState == Some(EffectIndeterminate))
    && (runtime.status == Blocked || (runtime.status == Failed && !node.effect.value.failWorkflowOnIndeterminate))
  }

  // A recorded node that is at work and not held by its loop.
  ghost predicate AtWork(graph: Graph, node: NodeDefinition) {
    && !LoopHolds(graph, node.id) && node.id in graph.nodeRuntimes
    && graph.nodeRuntimes[node.id].status in {Starting, Running, AwaitingEvidence, Verifying}
  }

  // The new work that a node has to offer.
  ghost predicate Offers(graph: Graph, node: NodeDefinition, kind: WorkKind) {
    && !LoopHolds(graph, node.id) && node.id in graph.nodeRuntimes
    && var runtime := graph.nodeRuntimes[node.id];
       match node.kind
       case TaskNode => kind == StartReadyTask && runtime.status == Ready
       case GateNode => kind == EvaluateReadyGate && runtime.status == Ready
       case CheckNode => kind == RunReadyCheck && node.check.Some? && CanStartWithoutWaiting(CheckStep, runtime, node.check.value)
       case CodeNode => kind == RunReadyCode && node.code.Some? && CanStartWithoutWaiting(CodeStep, runtime, node.code.value)
       case EffectNode => kind == RunReadyEffect && node.effect.Some? && runtime.status == Ready
       case InteractionNode => kind == RequestReadyInteraction && node.interaction && runtime.status == Ready
  }

  // The list has one action for each of these nodes, in their order.
  ghost predicate ActionsFor(graph: Graph, nodes: seq<NodeDefinition>, kindOf: (NodeDefinition, WorkKind) -> bool, actions: seq<WorkAction>) {
    |actions| == |nodes| && forall i :: 0 <= i < |nodes| ==> ActionOf(graph, nodes[i], kindOf, actions[i])
  }

  ghost predicate ActionOf(graph: Graph, node: NodeDefinition, kindOf: (NodeDefinition, WorkKind) -> bool, action: WorkAction) {
    kindOf(node, action.kind) && action.nodeId == node.id && NamesLoop(graph, node.id, action.loopId)
  }

  // The nodes that satisfy a test, in definition order.
  ghost function Chosen(nodes: seq<NodeDefinition>, test: NodeDefinition -> bool): seq<NodeDefinition> {
    if nodes == [] then [] else (if test(nodes[0]) then [nodes[0]] else []) + Chosen(nodes[1..], test)
  }

  // ---------------------------------------------------------------------
  // Loops
  // ---------------------------------------------------------------------

  lemma {:induction false} LoopOfIsFirst(loops: seq<LoopDefinition>, nodeId: string)
    ensures match LoopOf(loops, nodeId)
            case None => forall i: nat :: !FirstLoop(loops, nodeId, i)
            case Some(id) => exists i: nat :: FirstLoop(loops, nodeId, i) && loops[i].id == id
  {
    if loops != [] {
      if nodeId in loops[0].nodes {
        assert FirstLoop(loops, nodeId, 0);
      } else {
        LoopOfIsFirst(loops[1..], nodeId);
        if LoopOf(loops[1..], nodeId).Some? {
          var i: nat :| FirstLoop(loops[1..], nodeId, i) && loops[1..][i].id == LoopOf(loops[1..], nodeId).value;
          forall j | 0 <= j < i + 1 ensures nodeId !in loops[j].nodes {
            if j > 0 { assert loops[j] == loops[1..][j - 1]; }
          }
          assert FirstLoop(loops, nodeId, i + 1);
        }
      }
    }
  }

  lemma OneFirstLoop(loops: seq<LoopDefinition>, nodeId: string, i: nat, j: nat)
    requires FirstLoop(loops, nodeId, i) && FirstLoop(loops, nodeId, j)
    ensures i == j
  {
  }

  lemma LoopExactly(graph: Graph, nodeId: string)
    ensures LoopAllowsWork(graph, nodeId) <==> !LoopHolds(graph, nodeId)
    ensures forall kind :: ActionNames(graph, nodeId, kind, ActionFor(graph, kind, nodeId))
    ensures forall loopId :: IsLoop(graph, nodeId, loopId) <==> loopId == LoopOf(graph.loops, nodeId)
  {
    hide FirstLoop;
    LoopOfIsFirst(graph.loops, nodeId);
    forall i: nat, j: nat | FirstLoop(graph.loops, nodeId, i) && FirstLoop(graph.loops, nodeId, j) ensures i == j {
      OneFirstLoop(graph.loops, nodeId, i, j);
    }
  }

  // ---------------------------------------------------------------------
  // The enumerator
  // ---------------------------------------------------------------------

  lemma ReconcilableExactly(graph: Graph, node: NodeDefinition)
    ensures NeedsReconcile(graph, node) <==> Reconcilable(graph, node)
  {
    if node.id in graph.nodeRuntimes {
      var attempts := graph.nodeRuntimes[node.id].attempts;
      NoneIndeterminate(attempts);
      if exists i :: 0 <= i < |attempts| && attempts[i].effectState == Some(EffectIndeterminate) {
        var i :| 0 <= i < |attempts| && attempts[i].effectState == Some(EffectIndeterminate);
        assert NamesIndeterminate(attempts, attempts[i].attemptId);
      }
      if Indeterminate(attempts) != [] {
        assert Indeterminate(attempts)[0] in Indeterminate(attempts);
      }
    }
  }

  lemma AtWorkExactly(graph: Graph, node: NodeDefinition)
    ensures IsActiveNode(graph, node) <==> AtWork(graph, node)
  {
    hide LoopHolds, LoopAllowsWork;
    LoopExactly(graph, node.id);
  }

  lemma OffersExactly(graph: Graph, node: NodeDefinition)
    ensures match ActionForReadyNode(graph, node)
            case None => forall kind :: !Offers(graph, node, kind)
            case Some(action) => ActionOf(graph, node, (n, kind) => Offers(graph, n, kind), action)
  {
    hide LoopHolds, LoopAllowsWork, CanStartWithoutWaiting, NamesLoop, ActionFor;
    LoopExactly(graph, node.id);
  }

  lemma {:induction false} ReconcileInOrder(graph: Graph, nodes: seq<NodeDefinition>)
    ensures ActionsFor(graph, Chosen(nodes, node => Reconcilable(graph, node)),
                       (_, kind) => kind == ReconcileIndeterminateEffect, ReconcileActions(graph, nodes))
  {
    hide Reconcilable, NeedsReconcile, ActionFor, NamesLoop, LoopAllowsWork, LoopHolds;
    if nodes != [] {
      ReconcileInOrder(graph, nodes[1..]);
      ReconcilableExactly(graph, nodes[0]);
      LoopExactly(graph, nodes[0].id);
    }
  }

  lemma {:induction false} ReadyInOrder(graph: Graph, nodes: seq<NodeDefinition>)
    ensures ActionsFor(graph, Chosen(nodes, node => exists kind :: Offers(graph, node, kind)),
                       (node, kind) => Offers(graph, node, kind), ReadyActions(graph, nodes))
  {
    hide Offers, ActionForReadyNode, NamesLoop;
    if nodes != [] {
      ReadyInOrder(graph, nodes[1..]);
      OffersExactly(graph, nodes[0]);
    }
  }

  lemma {:induction false} ActiveInOrder(graph: Graph, nodes: seq<NodeDefinition>)
    ensures ActiveNodes(graph, nodes) == Chosen(nodes, node => AtWork(graph, node))
  {
    hide AtWork, IsActiveNode;
    if nodes != [] {
      ActiveInOrder(graph, nodes[1..]);
      AtWorkExactly(graph, nodes[0]);
    }
  }

  /**
   * The work of a running goal: while an effect is to be reconciled, that alone, for each
   * such node; else, while one node is at work, its continuation if it is a task; else,
   * while none is, the new work of every node; always in definition order.
   */
  lemma EnumerationExactly(graph: Graph)
    ensures var reconcile := Chosen(graph.nodes, node => Reconcilable(graph, node));
      var atWork := Chosen(graph.nodes, node => AtWork(graph, node));
      var actions := RootWorkActions(graph, true);
      if reconcile != [] then ActionsFor(graph, reconcile, (_, kind) => kind == ReconcileIndeterminateEffect, actions)
      else if |atWork| == 1 && atWork[0].kind == TaskNode then ActionsFor(graph, atWork, (_, kind) => kind == ContinueActiveTask, actions)
      else if |atWork| >= 1 then actions == []
      else ActionsFor(graph, Chosen(graph.nodes, node => exists kind :: Offers(graph, node, kind)),
                      (node, kind) => Offers(graph, node, kind), actions)
  {
    hide Reconcilable, AtWork, Offers, ReconcileActions, ReadyActions, ActiveNodes, Chosen, NamesLoop, LoopAllowsWork, LoopHolds, ActionFor;
    ReconcileInOrder(graph, graph.nodes);
    ActiveInOrder(graph, graph.nodes);
    ReadyInOrder(graph, graph.nodes);
    var active := ActiveNodes(graph, graph.nodes);
    if |active| == 1 {
      LoopExactly(graph, active[0].id);
    }
  }

  // ---------------------------------------------------------------------
  // The runnable test
  // ---------------------------------------------------------------------

  // The conditions under which an action of this kind may run on its node.
  ghost predicate MayRun(graph: Graph, node: NodeDefinition, kind: WorkKind) {
    match kind
    case ContinueActiveTask => node.kind == TaskNode && AtWork(graph, node)
    case ReconcileIndeterminateEffect => Reconcilable(graph, node) && !LoopHolds(graph, node.id)
    case _ => Offers(graph, node, kind)
  }

  /** An action is runnable exactly when a node of its id may run it and it names the id of that node's loop, empty ids included. */
  lemma RunnableExactly(graph: Graph, action: WorkAction)
    requires UniqueNodeIds(graph)
    ensures RootWorkActionIsRunnable(graph, action) <==>
      && IsLoop(graph, action.nodeId, action.loopId)
      && exists node :: node in graph.nodes && node.id == action.nodeId && MayRun(graph, node, action.kind)
  {
    hide LoopHolds, LoopAllowsWork, CanStartWithoutWaiting, IsLoop, UniqueNodeIds, IndeterminateAttempts, MayRun, RootWorkActionIsRunnable;
    if exists node :: node in graph.nodes && node.id == action.nodeId {
      var node :| node in graph.nodes && node.id == action.nodeId;
      forall other | other in graph.nodes && other.id == action.nodeId ensures other == node {
        FindsTheNode(graph, node);
        FindsTheNode(graph, other);
      }
      RunnableNode(graph, node, action);
    } else {
      UnknownNode(graph, action);
    }
  }

  lemma RunnableNode(graph: Graph, node: NodeDefinition, action: WorkAction)
    requires UniqueNodeIds(graph) && node in graph.nodes && action.nodeId == node.id
    ensures RootWorkActionIsRunnable(graph, action) <==> IsLoop(graph, node.id, action.loopId) && MayRun(graph, node, action.kind)
  {
    hide LoopHolds, LoopAllowsWork, CanStartWithoutWaiting, IsLoop, UniqueNodeIds, IndeterminateAttempts;
    FindsTheNode(graph, node);
    LoopExactly(graph, node.id);
    ReconcilableExactly(graph, node);
  }

  lemma UnknownNode(graph: Graph, action: WorkAction)
    requires forall node :: node in graph.nodes ==> node.id != action.nodeId
    ensures !RootWorkActionIsRunnable(graph, action)
  {
    assert FindNode(graph.nodes, action.nodeId).None?;
  }
}
