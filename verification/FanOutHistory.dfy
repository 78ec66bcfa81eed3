/**
 * What a run of fan-out steps means for each branch: which step lists are
 * accepted, said of the steps alone, and what they leave behind.
 */
module FanOutHistory {
  import opened Wrappers
  import opened Text
  import opened Counting
  import opened DerivedFanOut
  import opened FanOutInterleaving
  import Runs = FanOutRuns

  // ---------------------------------------------------------------------
  // Accepted histories of one branch
  // ---------------------------------------------------------------------

  function EvidenceOf(step: Step): seq<Evidence> {
    match step
    case Start(_, _) => []
    case Complete(_, _, options) => options.evidence.GetOr([])
    case Append(_, evidence) => evidence
  }

  // A step that is well formed by itself.
  ghost predicate WellFormed(step: Step) {
    && (forall entry :: entry in EvidenceOf(step) ==> ValidEvidence(entry))
    && (step.Start? ==> !Blank(step.attemptId))
    && (step.Complete? ==> step.status.Terminal())
  }

  predicate IsMark(step: Step) {
    !step.Append?
  }

  // The steps that move the branch through its lifecycle.
  function Marks(steps: seq<Step>): seq<Step> {
    Filter(IsMark, steps)
  }

  predicate Names(options: CompleteOptions, attemptId: string) {
    options.attemptId.Some? && !Blank(options.attemptId.value) && Trim(options.attemptId.value) == Trim(attemptId)
  }

  // An attempt starts first or after a failure; it is completed once, by its own id; only a cancellation needs no attempt.
  predicate Follows(marks: seq<Step>, i: nat)
    requires i < |marks|
  {
    match marks[i]
    case Start(_, _) => i == 0 || (marks[i - 1].Complete? && marks[i - 1].status == Failed)
    case Complete(_, status, options) =>
      status.Terminal() && if i == 0 then status == Cancelled else marks[i - 1].Start? && Names(options, marks[i - 1].attemptId)
    case Append(_, _) => false
  }

  ghost predicate Lifecycle(marks: seq<Step>) {
    forall i :: 0 <= i < |marks| ==> Follows(marks, i)
  }

  ghost predicate History(steps: seq<Step>) {
    (forall step :: step in steps ==> WellFormed(step)) && Lifecycle(Marks(steps))
  }

  // ---------------------------------------------------------------------
  // What a history leaves
  // ---------------------------------------------------------------------

  function StatusAfter(marks: seq<Step>): Status {
    if marks == [] then Pending
    else
      match marks[|marks| - 1]
      case Complete(_, status, _) => status
      case _ => Running
  }

  // The id of the latest attempt.
  function AttemptAfter(marks: seq<Step>): Option<string> {
    var n := |marks|;
    if n >= 1 && marks[n - 1].Start? then Some(Trim(marks[n - 1].attemptId))
    else if n >= 2 && marks[n - 2].Start? then Some(Trim(marks[n - 2].attemptId))
    else None
  }

  function ReasonAfter(marks: seq<Step>): Option<string> {
    if marks == [] then None
    else
      match marks[|marks| - 1]
      case Complete(_, Failed, options) => Some(options.failureReason.GetOr("branch failed"))
      case _ => None
  }

  function AllEvidence(steps: seq<Step>): seq<Evidence> {
    if steps == [] then []
    else AllEvidence(steps[..|steps| - 1]) + CopyEvidence(EvidenceOf(steps[|steps| - 1]))
  }

  function Starts(steps: seq<Step>): nat {
    Count((step: Step) => step.Start?, steps)
  }

  function BranchAfter(born: Branch, steps: seq<Step>): Branch {
    var marks := Marks(steps);
    born.(status := StatusAfter(marks), attemptId := AttemptAfter(marks), attemptNumber := Starts(steps),
           evidence := AllEvidence(steps), failureReason := ReasonAfter(marks))
  }

  // ---------------------------------------------------------------------
  // One more step
  // ---------------------------------------------------------------------

  lemma {:induction false} LocalRunAppend(b: Branch, steps: seq<Step>, step: Step)
    ensures LocalRun(b, steps + [step]) ==
      match LocalRun(b, steps)
      case None => None
      case Some(next) => LocalRun(next, [step])
    decreases |steps|
  {
    hide LocalStep, ArgumentCodes;
    if steps == [] {
      assert steps + [step] == [step];
    } else {
      assert (steps + [step])[0] == steps[0] && (steps + [step])[1..] == steps[1..] + [step];
      if ArgumentCodes(steps[0]) == [] && LocalStep(b, steps[0]).Ok? {
        LocalRunAppend(LocalStep(b, steps[0]).value, steps[1..], step);
      }
    }
  }

  lemma LocalRunOne(b: Branch, step: Step)
    ensures LocalRun(b, [step]) == if ArgumentCodes(step) == [] && LocalStep(b, step).Ok? then Some(LocalStep(b, step).value) else None
  {
    hide LocalStep, ArgumentCodes;
    if ArgumentCodes(step) == [] && LocalStep(b, step).Ok? {
      assert LocalRun(LocalStep(b, step).value, []) == Some(LocalStep(b, step).value);
    }
  }

  lemma LifecycleGrows(marks: seq<Step>, mark: Step)
    ensures Lifecycle(marks + [mark]) <==> Lifecycle(marks) && Follows(marks + [mark], |marks|)
  {
    hide Names;
    var all := marks + [mark];
    forall i | 0 <= i < |marks| ensures Follows(all, i) <==> Follows(marks, i) {
      assert all[i] == marks[i];
      if i > 0 { assert all[i - 1] == marks[i - 1]; }
    }
  }

  // The branch fields that a list of marks determines.
  predicate Reflects(b: Branch, marks: seq<Step>) {
    b.status == StatusAfter(marks) && b.attemptId == AttemptAfter(marks) && b.failureReason == ReasonAfter(marks)
  }

  function NextMarks(marks: seq<Step>, step: Step): seq<Step> {
    if IsMark(step) then marks + [step] else marks
  }

  lemma StepAcceptedExactly(b: Branch, marks: seq<Step>, step: Step)
    requires Lifecycle(marks) && Reflects(b, marks)
    ensures ArgumentCodes(step) == [] && LocalStep(b, step).Ok? <==> WellFormed(step) && Lifecycle(NextMarks(marks, step))
  {
    hide Trim, CopyEvidence, ValidEvidence;
    LifecycleGrows(marks, step);
    var n := |marks|;
    if n > 0 {
      assert (marks + [step])[n - 1] == marks[n - 1];
      assert Follows(marks, n - 1);
    }
  }

  // The fields after one accepted mark or append.
  lemma StepEffect(b: Branch, marks: seq<Step>, step: Step)
    requires Reflects(b, marks) && ArgumentCodes(step) == [] && LocalStep(b, step).Ok? && Lifecycle(NextMarks(marks, step))
    ensures var next := NextMarks(marks, step);
      LocalStep(b, step).value == b.(status := StatusAfter(next), attemptId := AttemptAfter(next), failureReason := ReasonAfter(next),
                                     attemptNumber := b.attemptNumber + if step.Start? then 1 else 0,
                                     evidence := b.evidence + CopyEvidence(EvidenceOf(step)))
  {
    hide Trim, CopyEvidence, ValidEvidence, EvidenceCodes;
    NoEvidence();
    var n := |marks|;
    if IsMark(step) {
      assert Follows(marks + [step], n);
      if n > 0 { assert (marks + [step])[n - 1] == marks[n - 1]; }
    }
    assert b.evidence + [] == b.evidence;
  }

  /**
   * The steps of a fresh branch are accepted exactly when each is well formed and
   * their marks follow the lifecycle; the branch then holds the status, attempt,
   * attempt count, failure reason and evidence that the steps spell out.
   */
  lemma {:induction false} BranchHistory(regionId: string, index: nat, itemValue: string, steps: seq<Step>)
    ensures var born := FreshBranch(regionId, index, itemValue);
      && (LocalRun(born, steps).Some? <==> History(steps))
      && (History(steps) ==> LocalRun(born, steps) == Some(BranchAfter(born, steps)))
    decreases |steps|
  {
    hide LocalStep, ArgumentCodes, WellFormed, Lifecycle, History, Marks, Starts, AllEvidence, StatusAfter, AttemptAfter, ReasonAfter, BranchIdAt, LocalRun;
    var born := FreshBranch(regionId, index, itemValue);
    if steps == [] {
      NoSteps(born);
    } else {
      var before, step := steps[..|steps| - 1], steps[|steps| - 1];
      assert steps == before + [step];
      BranchHistory(regionId, index, itemValue, before);
      LocalRunAppend(born, before, step);
      HistoryGrows(before, step);
      if History(before) {
        var b := BranchAfter(born, before);
        LocalRunOne(b, step);
        MarksFit(before);
        StepAcceptedExactly(b, Marks(before), step);
        BranchGrows(before, step);
        if LocalRun(born, steps).Some? {
          StepEffect(b, Marks(before), step);
        }
      }
    }
  }

  lemma NoSteps(born: Branch)
    ensures LocalRun(born, []) == Some(born) && History([])
    ensures Marks([]) == [] && StatusAfter([]) == Pending && AttemptAfter([]) == None && ReasonAfter([]) == None
    ensures Starts([]) == 0 && AllEvidence([]) == []
  {
  }

  lemma MarksFit(steps: seq<Step>)
    requires History(steps)
    ensures Lifecycle(Marks(steps))
  {
  }

  // The fields that one more step changes.
  lemma BranchGrows(before: seq<Step>, step: Step)
    ensures Marks(before + [step]) == NextMarks(Marks(before), step)
    ensures Starts(before + [step]) == Starts(before) + if step.Start? then 1 else 0
    ensures AllEvidence(before + [step]) == AllEvidence(before) + CopyEvidence(EvidenceOf(step))
  {
    hide CopyEvidence, Marks;
    MarksAppend(before, step);
    CountConcat((s: Step) => s.Start?, before, [step]);
    CountOne((s: Step) => s.Start?, step);
    assert (before + [step])[..|before|] == before;
  }

  lemma MarksAppend(steps: seq<Step>, step: Step)
    ensures Marks(steps + [step]) == NextMarks(Marks(steps), step)
  {
    FilterAppend(IsMark, steps, step);
    assert Marks(steps) + [] == Marks(steps);
  }

  lemma HistoryGrows(before: seq<Step>, step: Step)
    ensures History(before + [step]) <==> History(before) && WellFormed(step) && Lifecycle(NextMarks(Marks(before), step))
  {
    hide WellFormed, Lifecycle;
    MarksAppend(before, step);
    LifecycleGrows(Marks(before), step);
    assert forall s :: s in before + [step] <==> s in before || s == step;
  }

  // ---------------------------------------------------------------------
  // Whole runs
  // ---------------------------------------------------------------------

  // Every step names a branch, every branch has an accepted history, and no attempt id is used twice.
  ghost predicate RunAccepted(e: Expansion, steps: seq<Step>) {
    && (forall step :: step in steps ==> Hits(e.branches, step).Some?)
    && (forall i :: 0 <= i < |e.branches| ==> History(StepsAt(e.branches, steps, i)))
    && FreshIds([], StartIds(steps))
  }

  /**
   * A run of steps from an expansion is accepted exactly when, branch by branch, its
   * steps form a history and all attempt ids differ; every branch then is what its
   * own history says, and the recorded ids are those of the started attempts in order.
   */
  lemma RunsAreHistories(definition: Definition, values: seq<string>, steps: seq<Step>)
    requires Expand(definition, values).Ok?
    ensures var e := Expand(definition, values).value;
      && (ApplyAll(e, steps).Ok? <==> RunAccepted(e, steps))
      && (ApplyAll(e, steps).Ok? ==>
            var r := ApplyAll(e, steps).value;
            && |r.branches| == |values| && r.usedAttemptIds == StartIds(steps)
            && forall i :: 0 <= i < |values| ==> r.branches[i] == BranchAfter(e.branches[i], StepsAt(e.branches, steps, i)))
  {
    hide ApplyAll, FreshBranch, History, LocalRun, BranchAfter, StepsAt, Hits, FreshIds, StartIds;
    var e := Expand(definition, values).value;
    Runs.ExpandIsSound(definition, values);
    Runs.CopyOfTrimmed(e);
    RunSplits(e, steps);
    forall i | 0 <= i < |e.branches|
      ensures LocalRun(e.branches[i], StepsAt(e.branches, steps, i)).Some? <==> History(StepsAt(e.branches, steps, i))
      ensures History(StepsAt(e.branches, steps, i)) ==>
        LocalRun(e.branches[i], StepsAt(e.branches, steps, i)) == Some(BranchAfter(e.branches[i], StepsAt(e.branches, steps, i)))
    {
      BranchHistory(e.regionId, i, values[i], StepsAt(e.branches, steps, i));
    }
    assert e.usedAttemptIds == [] && [] + StartIds(steps) == StartIds(steps);
  }
}
