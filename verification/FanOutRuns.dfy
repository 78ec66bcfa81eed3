/** Runs of fan-out steps: every accepted step keeps a record sound, so every reachable expansion passes the full validator. */
module FanOutRuns {
  import opened Wrappers
  import opened Ordinals
  import opened Text
  import opened DerivedFanOut
  import opened FanOutValidation

  // ---------------------------------------------------------------------
  // Reachable expansions
  // ---------------------------------------------------------------------

  lemma {:induction false} NoAttempts(branches: seq<Branch>)
    requires forall b :: b in branches ==> b.attemptNumber == 0
    ensures Attempts(branches) == 0
  {
    if branches != [] { NoAttempts(branches[..|branches| - 1]); }
  }

  lemma FreshBranchSound(e: Expansion, i: nat)
    requires i < |e.branches| == |e.collectionValues| && CleanId(e.regionId)
    requires e.branches[i] == FreshBranch(e.regionId, i, e.collectionValues[i])
    ensures SoundBranch(e, i) && TrimmedBranch(e.branches[i])
  {
    hide BranchIdAt;
    BranchIdClean(e.regionId, i);
  }

  lemma ExpandIsSound(definition: Definition, values: seq<string>)
    requires Expand(definition, values).Ok?
    ensures Sound(Expand(definition, values).value) && TrimmedForm(Expand(definition, values).value)
  {
    hide BranchIdAt, SoundBranch, TrimmedBranch, Attempts;
    var e := Expand(definition, values).value;
    forall i | 0 <= i < |e.branches| ensures SoundBranch(e, i) && TrimmedBranch(e.branches[i]) {
      FreshBranchSound(e, i);
    }
    NoAttempts(e.branches);
  }

  lemma CopyOfTrimmed(e: Expansion)
    requires TrimmedForm(e) && e.schemaVersion == SCHEMA_VERSION
    ensures CopyExpansion(e) == e
  {
    hide CopyEvidence, Trimmed;
    forall i | 0 <= i < |e.branches| ensures CopyBranch(e.branches[i]) == e.branches[i] {
      assert TrimmedBranch(e.branches[i]);
      CopyEvidenceClean(e.branches[i].evidence);
    }
    assert CopyBranches(e.branches) == e.branches;
  }

  lemma {:induction false} AttemptsUpdate(branches: seq<Branch>, i: nat, b: Branch)
    requires i < |branches|
    ensures Attempts(branches[i := b]) == Attempts(branches) - branches[i].attemptNumber + b.attemptNumber
  {
    var n := |branches| - 1;
    if i == n {
      assert branches[i := b][..n] == branches[..n];
    } else {
      assert branches[i := b][..n] == branches[..n][i := b];
      AttemptsUpdate(branches[..n], i, b);
    }
  }

  // What a step does to the identity, attempt fields and evidence of its branch.
  lemma LocalStepEffect(b: Branch, step: Step)
    requires ArgumentCodes(step) == [] && LocalStep(b, step).Ok?
    ensures var r := LocalStep(b, step).value;
      && r.branchId == b.branchId && r.regionId == b.regionId && r.index == b.index && r.itemValue == b.itemValue
      && r.attemptNumber == b.attemptNumber + |Records(step)|
      && r.attemptId == (if step.Start? then Some(Trim(step.attemptId)) else b.attemptId)
      && (r.status.Attempted() ==> step.Start? || b.status.Attempted())
      && (CleanEvidence(b.evidence) ==> CleanEvidence(r.evidence))
  {
    hide Trim, CopyEvidence;
    match step {
      case Start(_, _) =>
      case Complete(_, _, options) =>
        var added := options.evidence.GetOr([]);
        CopyEvidenceClean(added);
        assert forall entry :: entry in b.evidence + CopyEvidence(added) ==> entry in b.evidence || entry in CopyEvidence(added);
      case Append(_, evidence) =>
        CopyEvidenceClean(evidence);
        assert forall entry :: entry in b.evidence + CopyEvidence(evidence) ==> entry in b.evidence || entry in CopyEvidence(evidence);
    }
  }

  // An accepted step on a record in copied form: where it acts and what it leaves.
  lemma AppliedStep(e: Expansion, step: Step)
    requires CopyExpansion(e) == e && Apply(e, step).Ok?
    ensures !Blank(step.branchId) && ArgumentCodes(step) == []
    ensures FindBranch(e.branches, Trim(step.branchId)).Some?
    ensures var i := FindBranch(e.branches, Trim(step.branchId)).value;
      && LocalStep(e.branches[i], step).Ok?
      && (step.Start? ==> Trim(step.attemptId) !in e.usedAttemptIds)
      && Apply(e, step).value == e.(branches := e.branches[i := LocalStep(e.branches[i], step).value], usedAttemptIds := e.usedAttemptIds + Records(step))
  {
    hide Trim, CopyExpansion, FindBranch, LocalStep;
  }

  lemma RecordedGrows(used: seq<string>, more: seq<string>, id: string)
    requires Recorded(used, id)
    ensures Recorded(used + more, id)
  {
    hide Trim;
    var j :| 0 <= j < |used| && Trim(used[j]) == id;
    assert (used + more)[j] == used[j];
  }

  lemma OtherBranchSound(e: Expansion, next: Expansion, j: nat, more: seq<string>)
    requires j < |e.branches| == |e.collectionValues| && SoundBranch(e, j)
    requires |next.branches| == |e.branches| && next.branches[j] == e.branches[j]
    requires next.regionId == e.regionId && next.collectionValues == e.collectionValues
    requires next.usedAttemptIds == e.usedAttemptIds + more
    ensures SoundBranch(next, j)
  {
    hide Trim, BranchIdAt, Recorded;
    if e.branches[j].attemptId.Some? {
      RecordedGrows(e.usedAttemptIds, more, Trim(e.branches[j].attemptId.value));
    }
  }

  lemma SteppedBranchSound(e: Expansion, next: Expansion, i: nat, step: Step)
    requires i < |e.branches| == |e.collectionValues| && SoundBranch(e, i) && TrimmedBranch(e.branches[i])
    requires ArgumentCodes(step) == [] && LocalStep(e.branches[i], step).Ok?
    requires next == e.(branches := e.branches[i := LocalStep(e.branches[i], step).value], usedAttemptIds := e.usedAttemptIds + Records(step))
    ensures SoundBranch(next, i) && TrimmedBranch(next.branches[i])
  {
    hide Trim, BranchIdAt, Recorded, LocalStep;
    LocalStepEffect(e.branches[i], step);
    if step.Start? {
      StartRecords(e.usedAttemptIds, step.attemptId);
    } else if e.branches[i].attemptId.Some? {
      RecordedGrows(e.usedAttemptIds, Records(step), Trim(e.branches[i].attemptId.value));
    }
  }

  lemma StartRecords(used: seq<string>, attemptId: string)
    ensures Trimmed(Trim(attemptId)) && Trim(Trim(attemptId)) == Trim(attemptId)
    ensures Recorded(used + [Trim(attemptId)], Trim(attemptId))
  {
    TrimIdempotent(attemptId);
    RecordedAppend(used, Trim(attemptId), Trim(attemptId));
  }

  // In a record of trimmed ids, an id is recorded exactly when it is listed.
  lemma RecordedListed(used: seq<string>, id: string)
    requires forall u :: u in used ==> Trimmed(u)
    ensures Recorded(used, id) <==> id in used
  {
    hide Trim, Trimmed;
    forall j | 0 <= j < |used| ensures Trim(used[j]) == used[j] { assert used[j] in used; }
    if id in used {
      var j :| 0 <= j < |used| && used[j] == id;
      assert Trim(used[j]) == id;
    }
  }

  lemma SteppedHistory(e: Expansion, step: Step)
    requires SoundHistory(e.usedAttemptIds) && (forall u :: u in e.usedAttemptIds ==> Trimmed(u))
    requires ArgumentCodes(step) == [] && (step.Start? ==> Trim(step.attemptId) !in e.usedAttemptIds)
    ensures SoundHistory(e.usedAttemptIds + Records(step)) && forall u :: u in e.usedAttemptIds + Records(step) ==> Trimmed(u)
  {
    hide Trim, Trimmed;
    if step.Start? {
      var id := Trim(step.attemptId);
      TrimIdempotent(step.attemptId);
      assert Trimmed(id);
      forall j | 0 <= j < |e.usedAttemptIds| ensures Trim(e.usedAttemptIds[j]) != Trim(id) {
        assert e.usedAttemptIds[j] in e.usedAttemptIds;
      }
    } else {
      assert e.usedAttemptIds + Records(step) == e.usedAttemptIds;
    }
  }

  lemma SteppedCurrent(e: Expansion, i: nat, b: Branch, step: Step)
    requires i < |e.branches| == |e.collectionValues| && DistinctCurrent(e.branches)
    requires forall j :: 0 <= j < |e.branches| ==> SoundBranch(e, j)
    requires forall u :: u in e.usedAttemptIds ==> Trimmed(u)
    requires b.attemptId == (if step.Start? then Some(Trim(step.attemptId)) else e.branches[i].attemptId)
    requires step.Start? ==> Trim(step.attemptId) !in e.usedAttemptIds
    ensures DistinctCurrent(e.branches[i := b])
  {
    hide Trim, Trimmed, Recorded, BranchIdAt;
    var next := e.branches[i := b];
    if step.Start? {
      var id := Trim(step.attemptId);
      TrimIdempotent(step.attemptId);
      forall j | 0 <= j < |e.branches| && j != i && e.branches[j].attemptId.Some?
        ensures Trim(e.branches[j].attemptId.value) != Trim(id)
      {
        assert SoundBranch(e, j);
        RecordedListed(e.usedAttemptIds, Trim(e.branches[j].attemptId.value));
      }
      forall j, k | 0 <= j < k < |next| && next[j].attemptId.Some? && next[k].attemptId.Some?
        ensures Trim(next[j].attemptId.value) != Trim(next[k].attemptId.value)
      {
      }
    }
  }

  /** An accepted step keeps a sound record in trimmed form sound and in trimmed form. */
  lemma ApplyKeepsSound(e: Expansion, step: Step)
    requires Sound(e) && TrimmedForm(e) && Apply(e, step).Ok?
    ensures Sound(Apply(e, step).value) && TrimmedForm(Apply(e, step).value)
  {
    hide Trim, Trimmed, CopyExpansion, FindBranch, LocalStep, SoundBranch, TrimmedBranch, DistinctCurrent, SoundHistory, Attempts, Apply;
    CopyOfTrimmed(e);
    AppliedStep(e, step);
    var next := Apply(e, step).value;
    var i := FindBranch(e.branches, Trim(step.branchId)).value;
    var b := next.branches[i];
    LocalStepEffect(e.branches[i], step);
    SteppedHistory(e, step);
    SteppedCurrent(e, i, b, step);
    AttemptsUpdate(e.branches, i, b);
    forall j | 0 <= j < |next.branches| ensures SoundBranch(next, j) && TrimmedBranch(next.branches[j]) {
      assert SoundBranch(e, j) && TrimmedBranch(e.branches[j]);
      if j == i { SteppedBranchSound(e, next, i, step); } else { OtherBranchSound(e, next, j, Records(step)); }
    }
  }

  lemma {:induction false} ApplyAllKeepsSound(e: Expansion, steps: seq<Step>)
    requires Sound(e) && TrimmedForm(e) && ApplyAll(e, steps).Ok?
    ensures Sound(ApplyAll(e, steps).value) && TrimmedForm(ApplyAll(e, steps).value)
    ensures |ApplyAll(e, steps).value.usedAttemptIds| <= |e.usedAttemptIds| + |steps|
    decreases |steps|
  {
    hide Sound, TrimmedForm, Apply;
    if steps != [] {
      ApplyKeepsSound(e, steps[0]);
      ApplyGrowth(e, steps[0]);
      ApplyAllKeepsSound(Apply(e, steps[0]).value, steps[1..]);
    }
  }

  lemma ApplyGrowth(e: Expansion, step: Step)
    requires Apply(e, step).Ok?
    ensures |Apply(e, step).value.usedAttemptIds| == |e.usedAttemptIds| + |Records(step)| <= |e.usedAttemptIds| + 1
  {
    hide Trim, FindBranch, LocalStep;
  }

  lemma {:induction false} AttemptBound(branches: seq<Branch>, b: Branch)
    requires b in branches && forall c :: c in branches ==> c.attemptNumber >= 0
    ensures b.attemptNumber <= Attempts(branches)
  {
    var n := |branches| - 1;
    assert branches == branches[..n] + [branches[n]];
    if b in branches[..n] {
      AttemptBound(branches[..n], b);
    } else {
      AttemptsNonNegative(branches[..n]);
    }
  }

  lemma {:induction false} AttemptsNonNegative(branches: seq<Branch>)
    requires forall c :: c in branches ==> c.attemptNumber >= 0
    ensures Attempts(branches) >= 0
  {
    if branches != [] { AttemptsNonNegative(branches[..|branches| - 1]); }
  }

  lemma SoundNumbersSafe(e: Expansion)
    requires Sound(e) && |e.usedAttemptIds| <= MAX_SAFE_INTEGER
    ensures SafeNumbers(e)
  {
    hide Trim, BranchIdAt, Attempts, Recorded;
    forall b | b in e.branches ensures 0 <= b.attemptNumber {
      var i :| 0 <= i < |e.branches| && e.branches[i] == b;
      assert SoundBranch(e, i);
    }
    forall b | b in e.branches ensures b.attemptNumber <= MAX_SAFE_INTEGER { AttemptBound(e.branches, b); }
  }

  /**
   * Every expansion reachable by accepted steps passes the full validator, although
   * the steps check only the schema, and restore returns it unchanged. The one
   * exception is an attempt number beyond the safe integers, which takes more
   * than 2^53 - 1 steps.
   */
  lemma ReachablePassesValidator(definition: Definition, values: seq<string>, steps: seq<Step>)
    requires Expand(definition, values).Ok? && ApplyAll(Expand(definition, values).value, steps).Ok?
    ensures var e := ApplyAll(Expand(definition, values).value, steps).value;
      && (ValidateCodes(e) == [] <==> SafeNumbers(e))
      && (SafeNumbers(e) ==> Parse(e) == Ok(e))
      && (|steps| <= MAX_SAFE_INTEGER ==> SafeNumbers(e))
  {
    hide Sound, TrimmedForm, SafeNumbers, ValidateCodes, ApplyAll, Parse;
    var e0 := Expand(definition, values).value;
    ExpandIsSound(definition, values);
    ApplyAllKeepsSound(e0, steps);
    var e := ApplyAll(e0, steps).value;
    ValidatorMeaning(e);
    if SafeNumbers(e) { ParseOfTrimmed(e); }
    if |steps| <= MAX_SAFE_INTEGER { SoundNumbersSafe(e); }
  }
}
