/** Continuation actions: graph work, or the request to revise a blocked workflow. */
module GoalActions {
  import opened GoalRunnable

  datatype BlockageKind = BlockedNode | BlockedLoop | LoopDependants | LegacyDefinition | DefinitionNoPath | External | TerminalPolicy

  datatype BlockerIdentity = BlockerIdentity(
    kind: BlockageKind,
    id: string,
    reason: string,
    sourceRevision: int,
    sourceSequence: int,
    sourceSnapshotHash: string)

  datatype GoalAction = Work(work: WorkAction) | RequestRevision(blocker: BlockerIdentity)

  predicate BlockerIdentityMatches(left: BlockerIdentity, right: BlockerIdentity) {
    && left.kind == right.kind
    && left.id == right.id
    && left.reason == right.reason
    && left.sourceRevision == right.sourceRevision
    && left.sourceSequence == right.sourceSequence
    && left.sourceSnapshotHash == right.sourceSnapshotHash
  }

  /** The match is equality of actions: no field is left out of it. */
  predicate ActionMatches(left: GoalAction, right: GoalAction): (r: bool)
    ensures r <==> left == right
  {
    if left.RequestRevision? || right.RequestRevision? then
      left.RequestRevision? && right.RequestRevision? && BlockerIdentityMatches(left.blocker, right.blocker)
    else
      left.work.kind == right.work.kind && left.work.nodeId == right.work.nodeId && left.work.loopId == right.work.loopId
  }
}
