/**
 * Interleavings of fan-out steps. A run splits into one local run for each
 * branch plus the shared attempt history, so only the order of steps on the
 * same branch can matter.
 */
module FanOutInterleaving {
  import opened Wrappers
  import opened Text
  import opened Counting
  import opened DerivedFanOut
  import FanIn

  // ---------------------------------------------------------------------
  // The parts of a run
  // ---------------------------------------------------------------------

  // The branch a step acts on.
  function Hits(branches: seq<Branch>, step: Step): Option<nat> {
    if Blank(step.branchId) then None else FindBranch(branches, Trim(step.branchId))
  }

  function At(branches: seq<Branch>, i: nat): Step -> bool {
    (step: Step) => Hits(branches, step) == Some(i)
  }

  function StepsAt(branches: seq<Branch>, steps: seq<Step>, i: nat): seq<Step> {
    Filter(At(branches, i), steps)
  }

  // The steps of one branch, run on that branch alone.
  function LocalRun(b: Branch, steps: seq<Step>): Option<Branch>
    decreases |steps|
  {
    if steps == [] then Some(b)
    else if ArgumentCodes(steps[0]) != [] then None
    else
      match LocalStep(b, steps[0])
      case Err(_) => None
      case Ok(next) => LocalRun(next, steps[1..])
  }

  // The attempt ids that a run records, in order.
  function StartIds(steps: seq<Step>): seq<string> {
    if steps == [] then [] else Records(steps[0]) + StartIds(steps[1..])
  }

  // No recorded id repeats, or was used before.
  ghost predicate FreshIds(used: seq<string>, ids: seq<string>) {
    forall id :: id in ids ==> id !in used && multiset(ids)[id] == 1
  }

  ghost predicate Accepted(e: Expansion, steps: seq<Step>) {
    && (forall step :: step in steps ==> Hits(e.branches, step).Some?)
    && (forall i :: 0 <= i < |e.branches| ==> LocalRun(e.branches[i], StepsAt(e.branches, steps, i)).Some?)
    && FreshIds(e.usedAttemptIds, StartIds(steps))
  }

  ghost predicate SplitResult(e: Expansion, steps: seq<Step>, r: Expansion) {
    && |r.branches| == |e.branches|
    && (forall i :: 0 <= i < |e.branches| ==> LocalRun(e.branches[i], StepsAt(e.branches, steps, i)) == Some(r.branches[i]))
    && r == e.(branches := r.branches, usedAttemptIds := e.usedAttemptIds + StartIds(steps))
  }

  lemma {:induction false} FindByIds(a: seq<Branch>, b: seq<Branch>, id: string)
    requires |a| == |b| && forall i :: 0 <= i < |a| ==> a[i].branchId == b[i].branchId
    ensures FindBranch(a, id) == FindBranch(b, id)
  {
    if a != [] { FindByIds(a[1..], b[1..], id); }
  }

  lemma HitsByIds(a: seq<Branch>, b: seq<Branch>, step: Step)
    requires |a| == |b| && forall i :: 0 <= i < |a| ==> a[i].branchId == b[i].branchId
    ensures Hits(a, step) == Hits(b, step)
  {
    FindByIds(a, b, Trim(step.branchId));
  }

  lemma {:induction false} StepsAtByIds(a: seq<Branch>, b: seq<Branch>, steps: seq<Step>, i: nat)
    requires |a| == |b| && forall i :: 0 <= i < |a| ==> a[i].branchId == b[i].branchId
    ensures StepsAt(a, steps, i) == StepsAt(b, steps, i)
  {
    hide Hits;
    if steps != [] {
      HitsByIds(a, b, steps[0]);
      StepsAtByIds(a, b, steps[1..], i);
    }
  }

  lemma LocalStepKeepsCopied(b: Branch, step: Step)
    requires CopyBranch(b) == b && LocalStep(b, step).Ok?
    ensures CopyBranch(LocalStep(b, step).value) == LocalStep(b, step).value
    ensures LocalStep(b, step).value.branchId == b.branchId
  {
    hide Trim, CopyEvidence, EvidenceCodes, Blank;
    match step {
      case Start(_, _) =>
      case Complete(_, _, options) => CopiedAppend(b.evidence, options.evidence.GetOr([]));
      case Append(_, evidence) => CopiedAppend(b.evidence, evidence);
    }
  }

  lemma CopiedAppend(evidence: seq<Evidence>, added: seq<Evidence>)
    requires CopyEvidence(evidence) == evidence
    ensures CopyEvidence(evidence + CopyEvidence(added)) == evidence + CopyEvidence(added)
  {
    hide CopyEvidence, ValidEvidence;
    CopyEvidenceClean(evidence);
    CopyEvidenceClean(added);
    var all := evidence + CopyEvidence(added);
    assert forall entry :: entry in all ==> entry in evidence || entry in CopyEvidence(added);
    CopyEvidenceClean(all);
  }

  lemma CopiedBranches(e: Expansion)
    ensures CopyExpansion(e) == e <==> e.schemaVersion == SCHEMA_VERSION && forall i :: 0 <= i < |e.branches| ==> CopyBranch(e.branches[i]) == e.branches[i]
  {
    hide CopyBranch;
    if forall i :: 0 <= i < |e.branches| ==> CopyBranch(e.branches[i]) == e.branches[i] {
      assert CopyBranches(e.branches) == e.branches;
    }
    if CopyExpansion(e) == e {
      assert CopyBranches(e.branches) == e.branches;
    }
  }

  // One step of a record in copied form, accepted or not, said through its branch.
  lemma StepSplits(e: Expansion, step: Step)
    requires CopyExpansion(e) == e
    ensures Apply(e, step).Ok? <==>
      && Hits(e.branches, step).Some? && ArgumentCodes(step) == []
      && LocalStep(e.branches[Hits(e.branches, step).value], step).Ok?
      && (step.Start? ==> Trim(step.attemptId) !in e.usedAttemptIds)
    ensures Apply(e, step).Ok? ==>
      var i := Hits(e.branches, step).value;
      Apply(e, step).value == e.(branches := e.branches[i := LocalStep(e.branches[i], step).value], usedAttemptIds := e.usedAttemptIds + Records(step))
  {
    hide Trim, CopyExpansion, FindBranch, LocalStep, ArgumentCodes;
    CopiedBranches(e);
  }

  lemma StepKeepsCopied(e: Expansion, step: Step)
    requires CopyExpansion(e) == e && Apply(e, step).Ok?
    ensures CopyExpansion(Apply(e, step).value) == Apply(e, step).value
    ensures var r := Apply(e, step).value;
      |r.branches| == |e.branches| && forall i :: 0 <= i < |e.branches| ==> r.branches[i].branchId == e.branches[i].branchId
  {
    hide Apply, LocalStep, CopyExpansion, Hits, CopyBranch;
    StepSplits(e, step);
    CopiedBranches(e);
    var i := Hits(e.branches, step).value;
    HitsInRange(e.branches, step);
    LocalStepKeepsCopied(e.branches[i], step);
    CopiedBranches(Apply(e, step).value);
  }

  lemma FreshCons(used: seq<string>, first: seq<string>, rest: seq<string>)
    requires |first| <= 1
    ensures FreshIds(used, first + rest) <==> (forall id :: id in first ==> id !in used) && FreshIds(used + first, rest)
  {
    var all := first + rest;
    assert multiset(all) == multiset(first) + multiset(rest);
    if FreshIds(used, all) {
      forall id | id in first ensures id !in used { assert id in all; }
      forall id | id in rest ensures id !in used + first && multiset(rest)[id] == 1 {
        assert id in all && multiset(all)[id] == 1;
      }
    }
    if (forall id :: id in first ==> id !in used) && FreshIds(used + first, rest) {
      forall id | id in all ensures id !in used && multiset(all)[id] == 1 {
        if id in rest {
          assert id !in used + first;
        } else {
          assert id in first && id == first[0];
        }
      }
    }
  }

  lemma StepsAtCons(branches: seq<Branch>, steps: seq<Step>, i: nat)
    requires steps != []
    ensures StepsAt(branches, steps, i)
      == (if Hits(branches, steps[0]) == Some(i) then [steps[0]] else []) + StepsAt(branches, steps[1..], i)
  {
    hide Hits;
  }

  lemma LocalRunCons(b: Branch, step: Step, steps: seq<Step>)
    ensures LocalRun(b, [step] + steps)
      == if ArgumentCodes(step) != [] || LocalStep(b, step).Err? then None else LocalRun(LocalStep(b, step).value, steps)
  {
    hide LocalStep, ArgumentCodes;
    assert ([step] + steps)[1..] == steps;
  }

  // The local runs after the first step are those of the stepped record.
  lemma TailRuns(e: Expansion, steps: seq<Step>, i: nat)
    requires steps != [] && CopyExpansion(e) == e && Apply(e, steps[0]).Ok? && i < |e.branches|
    ensures var next := Apply(e, steps[0]).value;
      && |next.branches| == |e.branches|
      && LocalRun(e.branches[i], StepsAt(e.branches, steps, i)) == LocalRun(next.branches[i], StepsAt(next.branches, steps[1..], i))
  {
    hide Apply, LocalStep, CopyExpansion, Hits, LocalRun, StepsAt, ArgumentCodes;
    var next := Apply(e, steps[0]).value;
    StepSplits(e, steps[0]);
    StepKeepsCopied(e, steps[0]);
    StepsAtByIds(e.branches, next.branches, steps[1..], i);
    StepsAtCons(e.branches, steps, i);
    var rest := StepsAt(e.branches, steps[1..], i);
    assert [] + rest == rest;
    LocalRunCons(e.branches[i], steps[0], rest);
  }

  lemma FirstStepDecides(e: Expansion, steps: seq<Step>)
    requires steps != [] && CopyExpansion(e) == e && Apply(e, steps[0]).Err?
    ensures !Accepted(e, steps)
  {
    hide Apply, LocalStep, CopyExpansion, Hits, LocalRun, StepsAt, ArgumentCodes, StartIds;
    var step := steps[0];
    StepSplits(e, step);
    if Accepted(e, steps) {
      assert step in steps;
      var i := Hits(e.branches, step).value;
      HitsInRange(e.branches, step);
      StepsAtCons(e.branches, steps, i);
      LocalRunCons(e.branches[i], step, StepsAt(e.branches, steps[1..], i));
      StartIdsCons(steps);
      FreshCons(e.usedAttemptIds, Records(step), StartIds(steps[1..]));
      assert false;
    }
  }

  lemma HitsInRange(branches: seq<Branch>, step: Step)
    ensures Hits(branches, step).Some? ==> Hits(branches, step).value < |branches|
  {
  }

  lemma StartIdsCons(steps: seq<Step>)
    requires steps != []
    ensures StartIds(steps) == Records(steps[0]) + StartIds(steps[1..])
    ensures |Records(steps[0])| <= 1
    ensures steps[0].Start? ==> Trim(steps[0].attemptId) in Records(steps[0])
  {
    hide Trim;
  }

  lemma TailAccepted(e: Expansion, steps: seq<Step>)
    requires steps != [] && CopyExpansion(e) == e && Apply(e, steps[0]).Ok?
    ensures Accepted(e, steps) <==> Accepted(Apply(e, steps[0]).value, steps[1..])
  {
    hide Apply, LocalStep, CopyExpansion, Hits, LocalRun, StepsAt, ArgumentCodes, StartIds, FreshIds;
    var next := Apply(e, steps[0]).value;
    StepSplits(e, steps[0]);
    StepKeepsCopied(e, steps[0]);
    StartIdsCons(steps);
    FreshCons(e.usedAttemptIds, Records(steps[0]), StartIds(steps[1..]));
    forall i | 0 <= i < |e.branches|
      ensures LocalRun(e.branches[i], StepsAt(e.branches, steps, i)) == LocalRun(next.branches[i], StepsAt(next.branches, steps[1..], i))
    {
      TailRuns(e, steps, i);
    }
    assert steps == [steps[0]] + steps[1..];
    forall step ensures Hits(e.branches, step) == Hits(next.branches, step) { HitsByIds(e.branches, next.branches, step); }
    assert forall step :: step in steps <==> step == steps[0] || step in steps[1..];
  }

  lemma TailResult(e: Expansion, steps: seq<Step>, r: Expansion)
    requires steps != [] && CopyExpansion(e) == e && Apply(e, steps[0]).Ok?
    requires SplitResult(Apply(e, steps[0]).value, steps[1..], r)
    ensures SplitResult(e, steps, r)
  {
    hide Apply, LocalStep, CopyExpansion, Hits, LocalRun, StepsAt, ArgumentCodes, StartIds;
    var next := Apply(e, steps[0]).value;
    StepSplits(e, steps[0]);
    StepKeepsCopied(e, steps[0]);
    StartIdsCons(steps);
    forall i | 0 <= i < |e.branches| ensures LocalRun(e.branches[i], StepsAt(e.branches, steps, i)) == Some(r.branches[i]) {
      TailRuns(e, steps, i);
    }
    assert e.usedAttemptIds + StartIds(steps) == (e.usedAttemptIds + Records(steps[0])) + StartIds(steps[1..]);
  }

  /**
   * A run is accepted exactly when every step names a branch, every branch
   * accepts its own steps in their order, and the started attempt ids are fresh;
   * its result is the local results and the appended history.
   */
  lemma {:induction false} RunSplits(e: Expansion, steps: seq<Step>)
    requires CopyExpansion(e) == e
    ensures ApplyAll(e, steps).Ok? <==> Accepted(e, steps)
    ensures ApplyAll(e, steps).Ok? ==> SplitResult(e, steps, ApplyAll(e, steps).value)
    decreases |steps|
  {
    hide Apply, CopyExpansion, Accepted, SplitResult;
    if steps == [] {
      EmptyRun(e);
    } else if Apply(e, steps[0]).Err? {
      FirstStepDecides(e, steps);
    } else {
      var next := Apply(e, steps[0]).value;
      StepKeepsCopied(e, steps[0]);
      RunSplits(next, steps[1..]);
      TailAccepted(e, steps);
      if ApplyAll(e, steps).Ok? { TailResult(e, steps, ApplyAll(e, steps).value); }
    }
  }

  lemma EmptyRun(e: Expansion)
    ensures Accepted(e, []) && SplitResult(e, [], e)
  {
    assert e.usedAttemptIds + [] == e.usedAttemptIds;
    assert e == e.(branches := e.branches, usedAttemptIds := e.usedAttemptIds);
  }

  // ---------------------------------------------------------------------
  // Two interleavings
  // ---------------------------------------------------------------------

  function Targets(id: string): Step -> bool {
    (step: Step) => Trim(step.branchId) == id
  }

  // Both lists hold, for every branch id, the same steps in the same order.
  ghost predicate SameByBranch(a: seq<Step>, b: seq<Step>) {
    forall id :: Filter(Targets(id), a) == Filter(Targets(id), b)
  }

  lemma {:induction false} StepsAtTargets(branches: seq<Branch>, steps: seq<Step>, i: nat)
    requires i < |branches|
    ensures var id := branches[i].branchId;
      StepsAt(branches, steps, i) == if id != "" && FindBranch(branches, id) == Some(i) then Filter(Targets(id), steps) else []
  {
    hide Trim, FindBranch;
    if steps != [] {
      StepsAtTargets(branches, steps[1..], i);
      var id := branches[i].branchId;
      assert At(branches, i)(steps[0]) <==> id != "" && FindBranch(branches, id) == Some(i) && Targets(id)(steps[0]) by {
        FindNames(branches, Trim(steps[0].branchId));
      }
    }
  }

  lemma FindNames(branches: seq<Branch>, id: string)
    ensures FindBranch(branches, id).Some? ==> FindBranch(branches, id).value < |branches| && branches[FindBranch(branches, id).value].branchId == id
  {
  }

  lemma SameMembers(a: seq<Step>, b: seq<Step>)
    requires SameByBranch(a, b)
    ensures multiset(a) == multiset(b)
  {
    hide Trim;
    forall step ensures multiset(a)[step] == multiset(b)[step] {
      var id := Trim(step.branchId);
      FilterMultiset(Targets(id), a, step);
      FilterMultiset(Targets(id), b, step);
    }
  }

  lemma {:induction false} StartIdsCount(steps: seq<Step>, id: string)
    ensures multiset(StartIds(steps))[id] == Count((step: Step) => id in Records(step), steps)
  {
    hide Trim;
    if steps != [] {
      StartIdsCount(steps[1..], id);
      assert multiset(StartIds(steps)) == multiset(Records(steps[0])) + multiset(StartIds(steps[1..]));
      RecordsCount(steps[0], id);
    }
  }

  lemma RecordsCount(step: Step, id: string)
    ensures multiset(Records(step))[id] == if id in Records(step) then 1 else 0
  {
    hide Trim;
  }

  lemma SameStartIds(a: seq<Step>, b: seq<Step>)
    requires multiset(a) == multiset(b)
    ensures multiset(StartIds(a)) == multiset(StartIds(b))
  {
    hide Trim, StartIds;
    forall id ensures multiset(StartIds(a))[id] == multiset(StartIds(b))[id] {
      StartIdsCount(a, id);
      StartIdsCount(b, id);
      CountPermutation((step: Step) => id in Records(step), a, b);
    }
  }

  lemma SameAcceptance(e: Expansion, a: seq<Step>, b: seq<Step>)
    requires SameByBranch(a, b)
    ensures Accepted(e, a) ==> Accepted(e, b)
    ensures forall i :: 0 <= i < |e.branches| ==> StepsAt(e.branches, a, i) == StepsAt(e.branches, b, i)
  {
    hide Hits, LocalRun, StepsAt, StartIds, Trim, FindBranch;
    SameMembers(a, b);
    SameStartIds(a, b);
    forall i | 0 <= i < |e.branches| ensures StepsAt(e.branches, a, i) == StepsAt(e.branches, b, i) {
      StepsAtTargets(e.branches, a, i);
      StepsAtTargets(e.branches, b, i);
    }
    assert forall step :: step in b <==> step in multiset(a);
    assert forall id :: id in StartIds(b) <==> id in multiset(StartIds(a));
  }

  // The first step copies the record, so a non-empty run does not see what the copy drops.
  lemma RunOfCopy(e: Expansion, steps: seq<Step>)
    requires steps != [] && e.schemaVersion == SCHEMA_VERSION
    ensures ApplyAll(e, steps) == ApplyAll(CopyExpansion(e), steps)
    ensures CopyExpansion(CopyExpansion(e)) == CopyExpansion(e)
  {
    hide LocalStep, FindBranch, Trim, CopyBranch;
    forall b: Branch ensures CopyBranch(CopyBranch(b)) == CopyBranch(b) { CopyTwice(b); }
    assert CopyBranches(CopyBranches(e.branches)) == CopyBranches(e.branches);
  }

  lemma CopyTwice(b: Branch)
    ensures CopyBranch(CopyBranch(b)) == CopyBranch(b)
  {
    CopyEvidenceClean(b.evidence);
    CopyEvidenceClean(CopyEvidence(b.evidence));
  }

  lemma SameEmptiness(a: seq<Step>, b: seq<Step>)
    requires SameByBranch(a, b)
    ensures |a| == |b|
  {
    SameMembers(a, b);
    assert |multiset(a)| == |a| && |multiset(b)| == |b|;
  }

  /**
   * Interleaving independence: from one expansion, valid or not, two runs with the
   * same steps in the same order on each branch are both accepted or both refused;
   * when accepted they give the same branches, the same attempt ids up to order,
   * and the same fan-in.
   */
  lemma InterleavingIndependence(e: Expansion, a: seq<Step>, b: seq<Step>)
    requires SameByBranch(a, b)
    ensures ApplyAll(e, a).Ok? <==> ApplyAll(e, b).Ok?
    ensures ApplyAll(e, a).Ok? ==>
      var ra, rb := ApplyAll(e, a).value, ApplyAll(e, b).value;
      && ra.branches == rb.branches
      && multiset(ra.usedAttemptIds) == multiset(rb.usedAttemptIds)
      && ra.(usedAttemptIds := rb.usedAttemptIds) == rb
      && FanIn.Evaluate(ra) == FanIn.Evaluate(rb)
  {
    hide Accepted, SplitResult, SameByBranch, CopyExpansion, FanIn.Evaluate, Apply;
    SameEmptiness(a, b);
    if a != [] {
      if e.schemaVersion != SCHEMA_VERSION {
        UnsupportedRun(e, a);
        UnsupportedRun(e, b);
      } else {
        RunOfCopy(e, a);
        RunOfCopy(e, b);
        RunSplits(CopyExpansion(e), a);
        RunSplits(CopyExpansion(e), b);
        SameSymmetric(a, b);
        SameAcceptance(CopyExpansion(e), a, b);
        SameAcceptance(CopyExpansion(e), b, a);
        if ApplyAll(e, a).Ok? {
          SameResults(CopyExpansion(e), a, b, ApplyAll(e, a).value, ApplyAll(e, b).value);
        }
      }
    }
  }

  lemma SameSymmetric(a: seq<Step>, b: seq<Step>)
    requires SameByBranch(a, b)
    ensures SameByBranch(b, a)
  {
  }

  lemma UnsupportedRun(e: Expansion, steps: seq<Step>)
    requires steps != [] && e.schemaVersion != SCHEMA_VERSION
    ensures ApplyAll(e, steps) == Err([UnsupportedSchema])
  {
  }

  lemma SameResults(e: Expansion, a: seq<Step>, b: seq<Step>, ra: Expansion, rb: Expansion)
    requires SameByBranch(a, b) && SplitResult(e, a, ra) && SplitResult(e, b, rb)
    ensures ra.branches == rb.branches && multiset(ra.usedAttemptIds) == multiset(rb.usedAttemptIds)
    ensures ra.(usedAttemptIds := rb.usedAttemptIds) == rb
    ensures FanIn.Evaluate(ra) == FanIn.Evaluate(rb)
  {
    hide LocalRun, StepsAt, StartIds, Trim, SameByBranch;
    SameAcceptance(e, a, b);
    SameMembers(a, b);
    SameStartIds(a, b);
    forall i | 0 <= i < |e.branches| ensures ra.branches[i] == rb.branches[i] {
      assert LocalRun(e.branches[i], StepsAt(e.branches, a, i)) == Some(ra.branches[i]);
      assert LocalRun(e.branches[i], StepsAt(e.branches, b, i)) == Some(rb.branches[i]);
    }
    assert ra.branches == rb.branches;
  }
}
