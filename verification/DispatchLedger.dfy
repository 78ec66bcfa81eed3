/** Laws of the dispatch ledger over every accepted event sequence. */
module DispatchLedger {
  import opened Wrappers
  import opened Workflow
  import opened Counting
  import opened Ordinals
  import opened Text
  import opened GoalActions
  import opened ActionDispatch

  // ---------------------------------------------------------------------
  // The accepted traces
  // ---------------------------------------------------------------------

  // The selection that opened the triple an index belongs to.
  function OpenedBy(events: seq<LifecycleEvent>, i: nat): LifecycleEvent
    requires i < |events|
  {
    events[i - i % 3]
  }

  ghost predicate InOrder(events: seq<LifecycleEvent>, i: nat)
    requires 0 < i < |events|
  {
    events[i].timestamp.Millis? && !Before(events[i].timestamp, events[i - 1].timestamp)
  }

  // The event at an index continues the repeated triple selected, dispatched, finished.
  ghost predicate Fits(events: seq<LifecycleEvent>, i: nat)
    requires i < |events|
  {
    var opening := OpenedBy(events, i);
    if i % 3 == 0 then
      && events[i].Selected? && events[i].timestamp.Millis?
      && DispatchProblem(events[i].dispatch).None? && events[i].dispatch.schedulerOrdinal == i / 3 + 1
    else
      && opening.Selected? && InOrder(events, i)
      && (if i % 3 == 1 then events[i].Dispatched? else events[i].Finished?)
      && events[i].dispatchId == opening.dispatch.dispatchId
  }

  ghost predicate Protocol(events: seq<LifecycleEvent>) {
    forall i :: 0 <= i < |events| ==> Fits(events, i)
  }

  ghost function PendingAfter(events: seq<LifecycleEvent>): Option<PendingDispatch>
    requires Protocol(events)
  {
    var n := |events|;
    if n % 3 == 0 then None
    else
      TripleShape(events, n - n % 3);
      var opening := events[n - n % 3];
      Some(PendingDispatch(opening.dispatch, opening.timestamp, if n % 3 == 1 then None else Some(events[n - 1].timestamp)))
  }

  lemma TripleShape(events: seq<LifecycleEvent>, i: nat)
    requires Protocol(events) && i < |events|
    ensures if i % 3 == 0 then events[i].Selected? else if i % 3 == 1 then events[i].Dispatched? else events[i].Finished?
  {
    hide DispatchProblem, InOrder;
    assert Fits(events, i);
  }

  ghost function OutcomeAfter(events: seq<LifecycleEvent>): Option<DispatchOutcome>
    requires Protocol(events)
  {
    var done := |events| - |events| % 3;
    if done == 0 then None
    else
      TripleShape(events, done - 3);
      TripleShape(events, done - 1);
      var opening, closing := events[done - 3], events[done - 1];
      Some(DispatchOutcome(opening.dispatch, closing.status, opening.timestamp, events[done - 2].timestamp, closing.timestamp, closing.reason))
  }

  ghost function RuntimeAfter(events: seq<LifecycleEvent>): Runtime
    requires Protocol(events)
  {
    Runtime((|events| + 2) / 3, PendingAfter(events), OutcomeAfter(events))
  }

  // ---------------------------------------------------------------------
  // Acceptance
  // ---------------------------------------------------------------------

  lemma {:induction false} ApplyAllConcat(runtime: Runtime, a: seq<LifecycleEvent>, b: seq<LifecycleEvent>)
    ensures ApplyAll(runtime, a + b) == match ApplyAll(runtime, a) case Err(e) => Err(e) case Ok(next) => ApplyAll(next, b)
    decreases |a|
  {
    hide Apply;
    if a == [] {
      assert a + b == b;
    } else {
      assert (a + b)[0] == a[0] && (a + b)[1..] == a[1..] + b;
      match Apply(runtime, a[0]) {
        case Err(_) =>
        case Ok(next) => ApplyAllConcat(next, a[1..], b);
      }
    }
  }

  lemma ApplyAllOne(runtime: Runtime, event: LifecycleEvent)
    ensures ApplyAll(runtime, [event]) == Apply(runtime, event)
  {
    hide Apply;
    match Apply(runtime, event) {
      case Err(_) =>
      case Ok(next) => assert ApplyAll(next, []) == Ok(next);
    }
  }

  lemma FitsPrefix(events: seq<LifecycleEvent>, event: LifecycleEvent, i: nat)
    requires i < |events|
    ensures Fits(events + [event], i) <==> Fits(events, i)
  {
  }

  lemma ProtocolGrows(events: seq<LifecycleEvent>, event: LifecycleEvent)
    ensures Protocol(events + [event]) <==> Protocol(events) && Fits(events + [event], |events|)
  {
    hide Fits;
    forall i | 0 <= i < |events| ensures Fits(events + [event], i) <==> Fits(events, i) {
      FitsPrefix(events, event, i);
    }
  }

  lemma LedgerStep(events: seq<LifecycleEvent>, event: LifecycleEvent)
    requires Protocol(events)
    ensures Fits(events + [event], |events|) <==> Refusal(RuntimeAfter(events), event).None?
    ensures Fits(events + [event], |events|) ==>
      Protocol(events + [event]) && Next(RuntimeAfter(events), event) == RuntimeAfter(events + [event])
  {
    hide DispatchProblem;
    var n := |events|;
    var all := events + [event];
    ProtocolGrows(events, event);
    if n % 3 != 0 {
      assert Fits(events, n - n % 3);
      assert all[n - n % 3] == events[n - n % 3];
      assert OpenedBy(all, n) == events[n - n % 3];
      assert all[n - 1] == events[n - 1];
      if n % 3 == 2 {
        assert Fits(events, n - 1);
        assert all[n - 2] == events[n - 2];
      }
    }
    if Fits(all, n) {
      var done := n - n % 3;
      if done > 0 {
        assert all[done - 3] == events[done - 3] && all[done - 2] == events[done - 2] && all[done - 1] == events[done - 1];
      }
    }
  }

  /**
   * The ledger accepts exactly the repetitions of selected, dispatched, finished
   * in which a triple keeps one id and ordered timestamps and the ordinals count
   * up from 1; and the runtime is then read off the trace.
   */
  lemma {:induction false} AcceptedTraces(events: seq<LifecycleEvent>)
    ensures ApplyAll(FRESH, events).Ok? <==> Protocol(events)
    ensures Protocol(events) ==> ApplyAll(FRESH, events) == Ok(RuntimeAfter(events))
    decreases |events|
  {
    hide Fits, Refusal, Next, PendingAfter, OutcomeAfter;
    if events == [] {
      assert RuntimeAfter(events) == FRESH by { EmptyRuntime(); }
    } else {
      var before, last := events[..|events| - 1], events[|events| - 1];
      assert events == before + [last];
      AcceptedTraces(before);
      ApplyAllConcat(FRESH, before, [last]);
      ProtocolGrows(before, last);
      if Protocol(before) {
        ApplyAllOne(RuntimeAfter(before), last);
        LedgerStep(before, last);
      }
    }
  }

  lemma EmptyRuntime()
    ensures RuntimeAfter([]) == FRESH
  {
  }

  // ---------------------------------------------------------------------
  // The counts
  // ---------------------------------------------------------------------

  function Selections(events: seq<LifecycleEvent>): nat {
    Count((event: LifecycleEvent) => event.Selected?, events)
  }

  function Terminals(events: seq<LifecycleEvent>): nat {
    Count((event: LifecycleEvent) => event.Finished?, events)
  }

  lemma {:induction false} TraceCounts(events: seq<LifecycleEvent>)
    requires Protocol(events)
    ensures Selections(events) == (|events| + 2) / 3 && Terminals(events) == |events| / 3
    decreases |events|
  {
    hide Fits;
    if events != [] {
      var n := |events| - 1;
      var before, last := events[..n], events[n];
      assert events == before + [last];
      ProtocolGrows(before, last);
      TraceCounts(before);
      CountConcat((event: LifecycleEvent) => event.Selected?, before, [last]);
      CountConcat((event: LifecycleEvent) => event.Finished?, before, [last]);
      TripleShape(events, n);
    }
  }

  ghost predicate Balanced(runtime: Runtime, selections: int, terminals: int) {
    && runtime.schedulerOrdinal == selections
    && selections == terminals + (if runtime.pending.Some? then 1 else 0)
    && (runtime.pending.Some? ==> runtime.pending.value.dispatch.schedulerOrdinal == selections)
    && (runtime.lastOutcome.None? <==> terminals == 0)
    && (runtime.lastOutcome.Some? ==> runtime.lastOutcome.value.dispatch.schedulerOrdinal == terminals)
    && ValidatorError(runtime).None?
  }

  lemma RuntimeBalanced(events: seq<LifecycleEvent>)
    requires Protocol(events)
    ensures Balanced(RuntimeAfter(events), (|events| + 2) / 3, |events| / 3)
  {
    hide Blank;
    var n := |events|;
    var done := n - n % 3;
    if done > 0 {
      assert Fits(events, done - 3) && Fits(events, done - 2) && Fits(events, done - 1);
      assert OpenedBy(events, done - 2) == OpenedBy(events, done - 1) == events[done - 3];
      assert (done - 3) / 3 + 1 == n / 3;
    }
    if n % 3 != 0 {
      assert Fits(events, done);
      assert done / 3 + 1 == (n + 2) / 3;
      if n % 3 == 2 {
        assert Fits(events, done + 1);
      }
    }
    OrdinalIsSafe(events);
  }

  lemma OrdinalIsSafe(events: seq<LifecycleEvent>)
    requires Protocol(events)
    ensures (|events| + 2) / 3 <= MAX_SAFE_INTEGER
  {
    hide Blank;
    if events != [] {
      var last := |events| - 1 - (|events| - 1) % 3;
      assert Fits(events, last);
      assert last / 3 + 1 == (|events| + 2) / 3;
    }
  }

  /**
   * Over every accepted lifecycle sequence: the ordinal is the number of selections,
   * which are the terminal events plus the pending one; the last outcome is the last
   * terminal one; and the validator finds nothing wrong.
   */
  lemma LedgerIsBalanced(events: seq<LifecycleEvent>)
    requires ApplyAll(FRESH, events).Ok?
    ensures Balanced(ApplyAll(FRESH, events).value, Selections(events), Terminals(events))
  {
    hide Protocol, RuntimeAfter, Balanced, Selections, Terminals;
    AcceptedTraces(events);
    TraceCounts(events);
    RuntimeBalanced(events);
  }

  // ---------------------------------------------------------------------
  // Goal events
  // ---------------------------------------------------------------------

  lemma {:induction false} FoldConcat(runtime: Runtime, a: seq<GoalEvent>, b: seq<GoalEvent>, workflow: bool)
    ensures Fold(runtime, a + b, workflow) == match Fold(runtime, a, workflow) case Err(e) => Err(e) case Ok(next) => Fold(next, b, workflow)
    decreases |a|
  {
    hide ApplyEvent;
    if a == [] {
      assert a + b == b;
    } else {
      assert (a + b)[0] == a[0] && (a + b)[1..] == a[1..] + b;
      match ApplyEvent(runtime, a[0], workflow) {
        case Err(_) =>
        case Ok(next) => FoldConcat(next, a[1..], b, workflow);
      }
    }
  }

  lemma FoldOne(runtime: Runtime, event: LifecycleEvent)
    requires Refusal(runtime, event).None?
    ensures Fold(runtime, [Action(event)], true) == Ok(Next(runtime, event))
  {
    hide ApplyEvent, Refusal, Next;
    ActionStep(runtime, event);
    assert Fold(Next(runtime, event), [], true) == Ok(Next(runtime, event));
  }

  // The runtime with the lifecycle events recorded since the goal started.
  datatype Journal = Journal(runtime: Runtime, history: seq<LifecycleEvent>)

  const EMPTY := Journal(FRESH, [])

  function Record(journal: Journal, event: GoalEvent): Result<Journal, DispatchError> {
    match ApplyGoalEvent(journal.runtime, event)
    case Err(e) => Err(e)
    case Ok(next) => Ok(Journal(next, journal.history + Project(journal.runtime, event)))
  }

  function RecordWorkflow(journal: Journal, event: GoalEvent): Result<Journal, DispatchError> {
    match event
    case GoalStarted(_) => Ok(EMPTY)
    case GoalStopped(GoalCompleted, _, _) => Ok(journal)
    case GoalStopped(GoalFailed, _, _) => Ok(journal)
    case _ => Record(journal, event)
  }

  function RecordEvent(journal: Journal, event: GoalEvent, workflow: bool): Result<Journal, DispatchError> {
    if workflow then RecordWorkflow(journal, event) else Record(journal, event)
  }

  function RecordAll(journal: Journal, events: seq<GoalEvent>, workflow: bool): Result<Journal, DispatchError>
    decreases |events|
  {
    if events == [] then Ok(journal)
    else
      match RecordEvent(journal, events[0], workflow)
      case Err(e) => Err(e)
      case Ok(next) => RecordAll(next, events[1..], workflow)
  }

  lemma EventJournalsRuntime(journal: Journal, event: GoalEvent, workflow: bool)
    ensures RecordEvent(journal, event, workflow).Ok? <==> ApplyEvent(journal.runtime, event, workflow).Ok?
    ensures RecordEvent(journal, event, workflow).Ok? ==>
      RecordEvent(journal, event, workflow).value.runtime == ApplyEvent(journal.runtime, event, workflow).value
  {
    hide ApplyGoalEvent, Project;
  }

  // A journal only annotates the runtime that the events fold to.
  lemma {:induction false} RunJournalsRuntime(journal: Journal, events: seq<GoalEvent>, workflow: bool)
    ensures RecordAll(journal, events, workflow).Ok? <==> Fold(journal.runtime, events, workflow).Ok?
    ensures RecordAll(journal, events, workflow).Ok? ==>
      RecordAll(journal, events, workflow).value.runtime == Fold(journal.runtime, events, workflow).value
    decreases |events|
  {
    hide RecordEvent, ApplyEvent;
    if events != [] {
      EventJournalsRuntime(journal, events[0], workflow);
      if RecordEvent(journal, events[0], workflow).Ok? {
        RunJournalsRuntime(RecordEvent(journal, events[0], workflow).value, events[1..], workflow);
      }
    }
  }

  ghost predicate Replays(journal: Journal) {
    ApplyAll(FRESH, journal.history) == Ok(journal.runtime)
  }

  lemma RecordReplays(journal: Journal, event: GoalEvent)
    requires Replays(journal) && Record(journal, event).Ok?
    ensures Replays(Record(journal, event).value)
  {
    ApplyAllConcat(FRESH, journal.history, Project(journal.runtime, event));
  }

  lemma {:induction false} RunsReplay(journal: Journal, events: seq<GoalEvent>, workflow: bool)
    requires Replays(journal) && RecordAll(journal, events, workflow).Ok?
    ensures Replays(RecordAll(journal, events, workflow).value)
    decreases |events|
  {
    hide Record, Replays;
    if events != [] {
      var stepped := RecordEvent(journal, events[0], workflow);
      if Record(journal, events[0]).Ok? {
        RecordReplays(journal, events[0]);
      }
      EmptyReplays();
      RunsReplay(stepped.value, events[1..], workflow);
    }
  }

  lemma EmptyReplays()
    ensures Replays(EMPTY)
  {
  }

  /** Every accepted run of goal events, module or workflow, leaves a ledger that is valid and balances what was recorded since the goal started. */
  lemma GoalRunsAreBalanced(events: seq<GoalEvent>, workflow: bool)
    requires Fold(FRESH, events, workflow).Ok?
    ensures RecordAll(EMPTY, events, workflow).Ok?
    ensures var history := RecordAll(EMPTY, events, workflow).value.history;
      Balanced(Fold(FRESH, events, workflow).value, Selections(history), Terminals(history))
  {
    hide Balanced, RecordAll, Fold;
    RunJournalsRuntime(EMPTY, events, workflow);
    EmptyReplays();
    RunsReplay(EMPTY, events, workflow);
    LedgerIsBalanced(RecordAll(EMPTY, events, workflow).value.history);
  }

  // ---------------------------------------------------------------------
  // What each event does
  // ---------------------------------------------------------------------

  // The first field of the dispatch that is not well formed.
  ghost predicate FieldFault(d: Dispatch, error: DispatchError) {
    match error
    case IdRequired => Blank(d.dispatchId)
    case InvalidAction => !Blank(d.dispatchId) && d.action.None?
    case InvalidLane => !Blank(d.dispatchId) && d.action.Some? && d.lane == UnknownLane
    case HashRequired => !Blank(d.dispatchId) && d.action.Some? && d.lane != UnknownLane && Blank(d.selectedSnapshotHash)
    case InvalidSequence =>
      && !Blank(d.dispatchId) && d.action.Some? && d.lane != UnknownLane && !Blank(d.selectedSnapshotHash)
      && !(0 <= d.selectedSequence <= MAX_SAFE_INTEGER)
    case InvalidOrdinal => FieldsFit(d) && !(1 <= d.schedulerOrdinal <= MAX_SAFE_INTEGER)
    case _ => false
  }

  // Every field before the ordinal is well formed.
  predicate FieldsFit(d: Dispatch) {
    && !Blank(d.dispatchId) && d.action.Some? && d.lane != UnknownLane && !Blank(d.selectedSnapshotHash)
    && 0 <= d.selectedSequence <= MAX_SAFE_INTEGER
  }

  predicate WellFormed(d: Dispatch) {
    FieldsFit(d) && 1 <= d.schedulerOrdinal <= MAX_SAFE_INTEGER
  }

  // The reason for which a lifecycle event is refused: the first of these that holds.
  ghost predicate RefusedFor(runtime: Runtime, event: LifecycleEvent, error: DispatchError) {
    var at := event.timestamp;
    match error
    case InvalidTimestamp => at.Unparseable?
    case StillPending => at.Millis? && event.Selected? && runtime.pending.Some?
    case NonContiguousOrdinal =>
      && at.Millis? && event.Selected? && runtime.pending.None? && WellFormed(event.dispatch)
      && event.dispatch.schedulerOrdinal != runtime.schedulerOrdinal + 1
    case NoPendingDispatch => at.Millis? && !event.Selected? && runtime.pending.None?
    case DifferentDispatch => at.Millis? && !event.Selected? && runtime.pending.Some? && !OfPending(runtime, event)
    case AlreadyDispatched => at.Millis? && event.Dispatched? && OfPending(runtime, event) && runtime.pending.value.dispatchedAt.Some?
    case DispatchedBeforeSelected =>
      && at.Millis? && event.Dispatched? && OfPending(runtime, event) && runtime.pending.value.dispatchedAt.None?
      && Precedes(at, runtime.pending.value.selectedAt)
    case NotDispatched => at.Millis? && event.Finished? && OfPending(runtime, event) && runtime.pending.value.dispatchedAt.None?
    case CompletedBeforeDispatched =>
      && at.Millis? && event.Finished? && OfPending(runtime, event)
      && runtime.pending.value.dispatchedAt.Some? && Precedes(at, runtime.pending.value.dispatchedAt.value)
    case PendingOrdinalMismatch => false
    case OutcomeAheadOfOrdinal => false
    case _ => at.Millis? && event.Selected? && runtime.pending.None? && FieldFault(event.dispatch, error)
  }

  // The event names the pending dispatch.
  predicate OfPending(runtime: Runtime, event: LifecycleEvent)
    requires !event.Selected?
  {
    runtime.pending.Some? && event.dispatchId == runtime.pending.value.dispatch.dispatchId
  }

  // Both times parse and the first is the earlier one.
  predicate Precedes(a: Timestamp, b: Timestamp) {
    match (a, b)
    case (Millis(x), Millis(y)) => x < y
    case _ => false
  }

  /** Each refusal of a lifecycle event is the answer exactly for its own reason, in this order of precedence. */
  lemma RefusalExactly(runtime: Runtime, event: LifecycleEvent, error: DispatchError)
    ensures Apply(runtime, event) == Err(error) <==> RefusedFor(runtime, event, error)
  {
    hide Blank;
  }

  // The pending dispatch with this id was dispatched no later than the time.
  predicate Closable(runtime: Runtime, dispatchId: string, at: Timestamp) {
    && runtime.pending.Some? && runtime.pending.value.dispatch.dispatchId == dispatchId && at.Millis?
    && runtime.pending.value.dispatchedAt.Some? && !Precedes(at, runtime.pending.value.dispatchedAt.value)
  }

  // The ledger with its pending dispatch closed.
  ghost function ClosedLedger(ledger: Runtime, status: TerminalStatus, at: Timestamp, reason: Option<string>): Runtime
    requires ledger.pending.Some? && ledger.pending.value.dispatchedAt.Some?
  {
    var pending := ledger.pending.value;
    Runtime(ledger.schedulerOrdinal, None,
            Some(DispatchOutcome(pending.dispatch, status, pending.selectedAt, pending.dispatchedAt.value, at, reason)))
  }

  // The answer to an event that closes a dispatch: accepted exactly where it can be closed, and closed so.
  ghost predicate Closes(runtime: Runtime, r: Result<Runtime, DispatchError>, dispatchId: string, status: TerminalStatus, at: Timestamp, reason: Option<string>) {
    && (r.Ok? <==> Closable(runtime, dispatchId, at))
    && (r.Ok? ==> r.value == ClosedLedger(runtime, status, at, reason))
  }

  /**
   * What a goal event does to the dispatch ledger. A requested turn of the model selects
   * and dispatches at once; a recorded turn completes it; an abandoned turn and a stop
   * interrupt what is pending, for their own reason; nothing else touches it.
   */
  lemma GoalEventExactly(runtime: Runtime, event: GoalEvent)
    ensures var r := ApplyGoalEvent(runtime, event);
      match event
      case Action(lifecycle) => r == Apply(runtime, lifecycle)
      case ContinuationRequested(operationId, action, sequence, hash, ordinal, at) =>
        var dispatch := Dispatch(operationId.GetOr(""), action, Model, sequence, hash.GetOr(""), ordinal);
        && (r.Ok? <==> at.Millis? && runtime.pending.None? && WellFormed(dispatch) && ordinal == runtime.schedulerOrdinal + 1)
        && (r.Ok? ==> r.value == Runtime(ordinal, Some(PendingDispatch(dispatch, at, Some(at))), runtime.lastOutcome))
      case TurnRecorded(operationId, at) => Closes(runtime, r, operationId.GetOr(""), ActionCompleted, at, None)
      case ContinuationAbandoned(operationId, reason, at) =>
        Closes(runtime, r, operationId.GetOr(""), ActionInterrupted, at, Some(reason.GetOr("The model dispatch was abandoned.")))
      case GoalStopped(_, reason, at) =>
        if runtime.pending.None? then r == Ok(runtime)
        else Closes(runtime, r, runtime.pending.value.dispatch.dispatchId, ActionInterrupted, at,
                    Some(reason.GetOr("The goal stopped before the action dispatch completed.")))
      case _ => r == Ok(runtime)
  {
    hide Blank;
    var events := Project(runtime, event);
    if |events| == 1 {
      ApplyAllOne(runtime, events[0]);
    } else if event.ContinuationRequested? {
      assert events == [events[0]] + [events[1]];
      ApplyAllConcat(runtime, [events[0]], [events[1]]);
      ApplyAllOne(runtime, events[0]);
      if Apply(runtime, events[0]).Ok? {
        ApplyAllOne(Apply(runtime, events[0]).value, events[1]);
      }
    }
  }

  // The pending dispatch of a stored runtime is well formed, with parseable times in order and the current ordinal.
  ghost predicate CoherentPending(runtime: Runtime, pending: PendingDispatch) {
    && WellFormed(pending.dispatch) && pending.selectedAt.Millis? && pending.dispatch.schedulerOrdinal == runtime.schedulerOrdinal
    && (pending.dispatchedAt.Some? ==> pending.dispatchedAt.value.Millis? && !Precedes(pending.dispatchedAt.value, pending.selectedAt))
  }

  ghost predicate CoherentOutcome(runtime: Runtime, outcome: DispatchOutcome) {
    && WellFormed(outcome.dispatch) && outcome.selectedAt.Millis? && outcome.dispatchedAt.Millis? && outcome.completedAt.Millis?
    && !Precedes(outcome.dispatchedAt, outcome.selectedAt) && !Precedes(outcome.completedAt, outcome.dispatchedAt)
    && outcome.dispatch.schedulerOrdinal <= runtime.schedulerOrdinal
  }

  // A stored runtime is coherent: a safe ordinal, and a pending dispatch and last outcome that fit it.
  ghost predicate Coherent(runtime: Runtime) {
    && 0 <= runtime.schedulerOrdinal <= MAX_SAFE_INTEGER
    && (runtime.pending.Some? ==> CoherentPending(runtime, runtime.pending.value))
    && (runtime.lastOutcome.Some? ==> CoherentOutcome(runtime, runtime.lastOutcome.value))
  }

  // The first thing that is wrong with a pending dispatch.
  ghost predicate PendingFault(runtime: Runtime, pending: PendingDispatch, error: DispatchError) {
    var current := pending.dispatch.schedulerOrdinal == runtime.schedulerOrdinal;
    match error
    case InvalidTimestamp =>
      WellFormed(pending.dispatch) && (pending.selectedAt.Unparseable? || (current && pending.dispatchedAt == Some(Unparseable)))
    case PendingOrdinalMismatch => WellFormed(pending.dispatch) && pending.selectedAt.Millis? && !current
    case DispatchedBeforeSelected =>
      && WellFormed(pending.dispatch) && current
      && pending.dispatchedAt.Some? && Precedes(pending.dispatchedAt.value, pending.selectedAt)
    case _ => FieldFault(pending.dispatch, error)
  }

  // The first thing that is wrong with an outcome.
  ghost predicate OutcomeFault(runtime: Runtime, outcome: DispatchOutcome, error: DispatchError) {
    var timed := outcome.selectedAt.Millis? && outcome.dispatchedAt.Millis? && outcome.completedAt.Millis?;
    match error
    case InvalidTimestamp => WellFormed(outcome.dispatch) && !timed
    case DispatchedBeforeSelected => WellFormed(outcome.dispatch) && timed && Precedes(outcome.dispatchedAt, outcome.selectedAt)
    case CompletedBeforeDispatched =>
      && WellFormed(outcome.dispatch) && timed && !Precedes(outcome.dispatchedAt, outcome.selectedAt)
      && Precedes(outcome.completedAt, outcome.dispatchedAt)
    case OutcomeAheadOfOrdinal =>
      && WellFormed(outcome.dispatch) && timed && !Precedes(outcome.dispatchedAt, outcome.selectedAt)
      && !Precedes(outcome.completedAt, outcome.dispatchedAt) && outcome.dispatch.schedulerOrdinal > runtime.schedulerOrdinal
    case _ => FieldFault(outcome.dispatch, error)
  }

  ghost predicate RuntimeFault(runtime: Runtime, error: DispatchError) {
    if !(0 <= runtime.schedulerOrdinal <= MAX_SAFE_INTEGER) then error == InvalidOrdinal
    else if runtime.pending.Some? && !CoherentPending(runtime, runtime.pending.value) then PendingFault(runtime, runtime.pending.value, error)
    else runtime.lastOutcome.Some? && OutcomeFault(runtime, runtime.lastOutcome.value, error)
  }

  lemma FieldsExactly(d: Dispatch, error: DispatchError)
    ensures DispatchProblem(d).None? <==> WellFormed(d)
    ensures DispatchProblem(d) == Some(error) <==> FieldFault(d, error)
    ensures FieldFault(d, error) ==> !WellFormed(d)
  {
    hide Blank;
  }

  lemma PendingExactly(runtime: Runtime, pending: PendingDispatch, error: DispatchError)
    ensures PendingProblem(runtime, pending).None? <==> CoherentPending(runtime, pending)
    ensures PendingProblem(runtime, pending) == Some(error) <==> PendingFault(runtime, pending, error)
  {
    hide DispatchProblem, WellFormed, FieldFault;
    FieldsExactly(pending.dispatch, error);
    FieldErrors(pending.dispatch, error);
  }

  lemma OutcomeExactly(runtime: Runtime, outcome: DispatchOutcome, error: DispatchError)
    ensures OutcomeProblem(runtime, outcome).None? <==> CoherentOutcome(runtime, outcome)
    ensures OutcomeProblem(runtime, outcome) == Some(error) <==> OutcomeFault(runtime, outcome, error)
  {
    hide DispatchProblem, WellFormed, FieldFault;
    FieldsExactly(outcome.dispatch, error);
    FieldErrors(outcome.dispatch, error);
  }

  lemma FieldErrors(d: Dispatch, error: DispatchError)
    ensures FieldFault(d, error) ==> error in {IdRequired, InvalidAction, InvalidLane, HashRequired, InvalidSequence, InvalidOrdinal}
  {
    hide Blank;
  }

  /** The validator finds nothing wrong exactly with the coherent runtimes, and names the first thing that is wrong with any other. */
  lemma ValidatorExactly(runtime: Runtime, error: DispatchError)
    ensures ValidatorError(runtime).None? <==> Coherent(runtime)
    ensures ValidatorError(runtime) == Some(error) <==> RuntimeFault(runtime, error)
  {
    hide PendingProblem, OutcomeProblem, PendingFault, OutcomeFault, CoherentPending, CoherentOutcome;
    if runtime.pending.Some? { PendingExactly(runtime, runtime.pending.value, error); }
    if runtime.lastOutcome.Some? { OutcomeExactly(runtime, runtime.lastOutcome.value, error); }
  }

  // ---------------------------------------------------------------------
  // Stops
  // ---------------------------------------------------------------------

  // A pending dispatch has been dispatched, no later than now.
  predicate Settled(runtime: Runtime, now: int) {
    runtime.pending.Some? ==>
      var at := runtime.pending.value.dispatchedAt;
      at.Some? && at.value.Millis? && at.value.at <= now
  }

  /** A stop is accepted exactly when nothing is pending or the pending dispatch was dispatched no later; then nothing is pending. */
  lemma StopClosesDispatch(runtime: Runtime, kind: StopKind, reason: Option<string>, timestamp: Timestamp)
    ensures var stopped := ApplyGoalEvent(runtime, GoalStopped(kind, reason, timestamp));
      && (stopped.Ok? <==> runtime.pending.Some? ==>
            timestamp.Millis? && runtime.pending.value.dispatchedAt.Some? && !Before(timestamp, runtime.pending.value.dispatchedAt.value))
      && (stopped.Ok? ==> stopped.value.pending.None? && stopped.value.schedulerOrdinal == runtime.schedulerOrdinal)
  {
    var events := Project(runtime, GoalStopped(kind, reason, timestamp));
    if events != [] {
      ApplyAllOne(runtime, events[0]);
    }
  }

  // Each canonical selection is directly followed by its own dispatched event.
  ghost predicate Batched(events: seq<GoalEvent>)
    decreases |events|
  {
    if events == [] then true
    else if events[0].Action? && events[0].lifecycle.Selected? then
      && |events| >= 2 && events[1].Action?
      && events[1].lifecycle == Dispatched(events[0].lifecycle.dispatch.dispatchId, events[1].lifecycle.timestamp)
      && Batched(events[2..])
    else Batched(events[1..])
  }

  // Timestamps parse and never decrease, from the first time to the last.
  ghost predicate Ordered(events: seq<GoalEvent>, first: int, last: int)
    decreases |events|
  {
    if events == [] then first <= last
    else TimeOf(events[0]).Millis? && first <= TimeOf(events[0]).at && Ordered(events[1..], TimeOf(events[0]).at, last)
  }

  lemma StepSettles(runtime: Runtime, event: GoalEvent, now: int, workflow: bool)
    requires Settled(runtime, now) && ApplyEvent(runtime, event, workflow).Ok?
    requires TimeOf(event).Millis? && now <= TimeOf(event).at
    requires !(event.Action? && event.lifecycle.Selected?)
    ensures Settled(ApplyEvent(runtime, event, workflow).value, TimeOf(event).at)
  {
    hide DispatchProblem;
    var events := Project(runtime, event);
    if |events| == 1 {
      ApplyAllOne(runtime, events[0]);
    } else if |events| == 2 {
      assert events == [events[0]] + [events[1]];
      ApplyAllConcat(runtime, [events[0]], [events[1]]);
      ApplyAllOne(runtime, events[0]);
      if Apply(runtime, events[0]).Ok? {
        ApplyAllOne(Apply(runtime, events[0]).value, events[1]);
      }
    }
  }

  lemma SelectionSettles(runtime: Runtime, selected: LifecycleEvent, dispatched: LifecycleEvent, workflow: bool)
    requires selected.Selected? && dispatched.Dispatched? && dispatched.timestamp.Millis?
    requires ApplyEvent(runtime, Action(selected), workflow).Ok?
    requires ApplyEvent(ApplyEvent(runtime, Action(selected), workflow).value, Action(dispatched), workflow).Ok?
    ensures Settled(ApplyEvent(ApplyEvent(runtime, Action(selected), workflow).value, Action(dispatched), workflow).value, dispatched.timestamp.at)
  {
    hide DispatchProblem;
    ApplyAllOne(runtime, selected);
    ApplyAllOne(ApplyEvent(runtime, Action(selected), workflow).value, dispatched);
  }

  lemma {:induction false} BatchedRunsSettle(runtime: Runtime, events: seq<GoalEvent>, first: int, last: int, workflow: bool)
    requires Settled(runtime, first) && Batched(events) && Ordered(events, first, last)
    requires Fold(runtime, events, workflow).Ok?
    ensures Settled(Fold(runtime, events, workflow).value, last)
    decreases |events|
  {
    hide ApplyEvent;
    if events != [] {
      var at := TimeOf(events[0]).at;
      var next := ApplyEvent(runtime, events[0], workflow).value;
      if events[0].Action? && events[0].lifecycle.Selected? {
        assert events[1..][0] == events[1] && events[1..][1..] == events[2..];
        assert Fold(next, events[1..], workflow).Ok?;
        SelectionSettles(runtime, events[0].lifecycle, events[1].lifecycle, workflow);
        var after := ApplyEvent(next, events[1], workflow).value;
        BatchedRunsSettle(after, events[2..], TimeOf(events[1]).at, last, workflow);
      } else {
        StepSettles(runtime, events[0], first, workflow);
        BatchedRunsSettle(next, events[1..], at, last, workflow);
      }
    }
  }

  /**
   * When every selection is recorded together with its dispatched event and time
   * never runs backwards, any later stop is accepted and leaves nothing pending.
   */
  lemma BatchedStopsLeaveNothingPending(events: seq<GoalEvent>, workflow: bool, first: int, last: int, kind: StopKind, reason: Option<string>, at: int)
    requires Batched(events) && Ordered(events, first, last) && last <= at
    requires Fold(FRESH, events, workflow).Ok?
    ensures var stopped := ApplyGoalEvent(Fold(FRESH, events, workflow).value, GoalStopped(kind, reason, Millis(at)));
      stopped.Ok? && stopped.value.pending.None?
  {
    hide Fold, ApplyGoalEvent;
    BatchedRunsSettle(FRESH, events, first, last, workflow);
    StopClosesDispatch(Fold(FRESH, events, workflow).value, kind, reason, Millis(at));
  }

  /**
   * In the workflow projection the same stop leaves nothing pending if and only if
   * it is not a completed or failed goal or nothing was pending before it.
   */
  lemma WorkflowStopExactly(events: seq<GoalEvent>, first: int, last: int, kind: StopKind, reason: Option<string>, at: int)
    requires Batched(events) && Ordered(events, first, last) && last <= at
    requires Fold(FRESH, events, true).Ok?
    ensures var before := Fold(FRESH, events, true).value;
      var stopped := ApplyWorkflowEvent(before, GoalStopped(kind, reason, Millis(at)));
      stopped.Ok? && (stopped.value.pending.None? <==> kind !in {GoalCompleted, GoalFailed} || before.pending.None?)
  {
    hide Fold, ApplyGoalEvent;
    BatchedStopsLeaveNothingPending(events, true, first, last, kind, reason, at);
  }

  lemma ActionStep(runtime: Runtime, event: LifecycleEvent)
    requires Refusal(runtime, event).None?
    ensures ApplyEvent(runtime, Action(event), true) == Ok(Next(runtime, event))
  {
    hide Refusal, Next;
    ApplyAllOne(runtime, event);
  }

  /** A goal that completes while a check is dispatched keeps that dispatch pending. */
  lemma CompletedGoalKeepsDispatch(action: GoalAction, hash: string)
    requires !Blank(hash)
    ensures exists events ::
      && Batched(events) && Fold(FRESH, events, true).Ok?
      && events != [] && events[|events| - 1] == GoalStopped(GoalCompleted, None, Millis(1))
      && Fold(FRESH, events, true).value.pending.Some?
  {
    hide Blank, ApplyGoalEvent;
    var dispatch := Dispatch(hash, Some(action), Deterministic, 0, hash, 1);
    var selected, dispatched := Selected(dispatch, Millis(0)), Dispatched(hash, Millis(0));
    var stop := GoalStopped(GoalCompleted, None, Millis(1));
    var events := [Action(selected), Action(dispatched), stop];
    ActionStep(FRESH, selected);
    var first := Next(FRESH, selected);
    ActionStep(first, dispatched);
    var second := Next(first, dispatched);
    assert ApplyEvent(second, stop, true) == Ok(second);
    assert events[1..] == [Action(dispatched), stop] && events[2..] == [stop] && events[1..][1..] == [stop] && [stop][1..] == [];
    assert Fold(second, [stop], true) == Ok(second);
    assert Fold(first, events[1..], true) == Ok(second);
    assert Batched([]) && Batched([stop]);
    assert events[1] == Action(dispatched) && Batched(events[2..]);
  }
}
