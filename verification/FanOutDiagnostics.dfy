/** Which diagnostics the fan-out validator reports for any record: exactly the faults of the record, each said of its fields. */
module FanOutDiagnostics {
  import opened Wrappers
  import opened Ordinals
  import opened Text
  import opened DerivedFanOut
  import opened FanOutValidation

  // ---------------------------------------------------------------------
  // Faults
  // ---------------------------------------------------------------------

  ghost predicate HeaderFault(e: Expansion, code: Code) {
    match code
    case InvalidId => Blank(e.regionId)
    case InvalidCollectionFact => Blank(e.collectionFact)
    case InvalidMaxBranches => !(1 <= e.maxBranches <= MAX_SAFE_INTEGER)
    case CollectionExceedsMax => 1 <= e.maxBranches <= MAX_SAFE_INTEGER && |e.collectionValues| > e.maxBranches
    case BranchCountMismatch => |e.branches| != |e.collectionValues|
    case _ => false
  }

  // A recorded attempt id that is blank, or repeats an earlier one.
  ghost predicate HistoryFault(used: seq<string>, code: Code) {
    match code
    case InvalidAttemptId => HasBlank(used)
    case DuplicateAttemptId => HasRepeat(used)
    case _ => false
  }

  ghost predicate HasBlank(used: seq<string>) {
    exists i :: 0 <= i < |used| && Blank(used[i])
  }

  ghost predicate HasRepeat(used: seq<string>) {
    exists i, j :: 0 <= i < j < |used| && !Blank(used[j]) && Trim(used[i]) == Trim(used[j])
  }

  // The branch has this id, or holds this attempt, once trimmed.
  predicate HasId(b: Branch, id: string) {
    !Blank(b.branchId) && Trim(b.branchId) == id
  }

  predicate HoldsAttempt(b: Branch, id: string) {
    b.attemptId.Some? && !Blank(b.attemptId.value) && Trim(b.attemptId.value) == id
  }

  // One of the first n branches has the id, or holds the attempt.
  ghost predicate SeenId(e: Expansion, n: nat, id: string)
    requires n <= |e.branches|
  {
    exists j :: 0 <= j < n && HasId(e.branches[j], id)
  }

  ghost predicate SeenAttempt(e: Expansion, n: nat, id: string)
    requires n <= |e.branches|
  {
    exists j :: 0 <= j < n && HoldsAttempt(e.branches[j], id)
  }

  ghost predicate IdentityFault(e: Expansion, i: nat, code: Code)
    requires i < |e.branches|
  {
    var b := e.branches[i];
    match code
    case InvalidBranchId => Blank(b.branchId)
    case DuplicateBranchId => !Blank(b.branchId) && SeenId(e, i, Trim(b.branchId))
    case BranchIdentityMismatch =>
      && !Blank(b.branchId) && !Blank(e.regionId) && 0 <= b.index <= MAX_SAFE_INTEGER
      && Trim(b.branchId) != BranchIdAt(Trim(e.regionId), b.index)
    case InvalidBranchRegionId => Blank(b.regionId)
    case BranchRegionMismatch => !Blank(b.regionId) && !Blank(e.regionId) && Trim(b.regionId) != Trim(e.regionId)
    case InvalidBranchIndex => b.index != i || i > MAX_SAFE_INTEGER
    case ItemValueMismatch => i < |e.collectionValues| && b.itemValue != e.collectionValues[i]
    case _ => false
  }

  ghost predicate AttemptFault(e: Expansion, i: nat, code: Code)
    requires i < |e.branches|
  {
    var b := e.branches[i];
    match code
    case InvalidAttemptNumber =>
      !(0 <= b.attemptNumber <= MAX_SAFE_INTEGER) || (b.attemptNumber == 0 && (b.attemptId.Some? || b.status in {Running, Succeeded, Failed}))
    case InvalidAttemptId =>
      if b.attemptId.Some? then Blank(b.attemptId.value)
      else 1 <= b.attemptNumber <= MAX_SAFE_INTEGER || b.status in {Running, Succeeded, Failed}
    case DuplicateAttemptId =>
      b.attemptId.Some? && !Blank(b.attemptId.value) && SeenAttempt(e, i, Trim(b.attemptId.value))
    case AttemptIdNotRecorded =>
      b.attemptId.Some? && !Blank(b.attemptId.value) && !Recorded(e.usedAttemptIds, Trim(b.attemptId.value))
    case _ => false
  }

  ghost predicate EvidenceFault(evidence: seq<Evidence>, code: Code) {
    code == InvalidEvidence && exists entry :: entry in evidence && !SoundEntry(entry)
  }

  ghost predicate BranchFault(e: Expansion, i: nat, code: Code)
    requires i < |e.branches|
  {
    IdentityFault(e, i, code) || AttemptFault(e, i, code) || EvidenceFault(e.branches[i].evidence, code)
  }

  // Every attempt number is a safe one, and the history is faultless, but their sum is not its length.
  ghost predicate CountFault(e: Expansion, code: Code) {
    && code == AttemptHistoryMismatch
    && (forall i :: 0 <= i < |e.branches| ==> 0 <= e.branches[i].attemptNumber <= MAX_SAFE_INTEGER)
    && SoundHistory(e.usedAttemptIds) && |e.usedAttemptIds| != Attempts(e.branches)
  }

  ghost predicate RecordFault(e: Expansion, code: Code) {
    if e.schemaVersion != 1 then code == UnsupportedSchema
    else
      || HeaderFault(e, code) || HistoryFault(e.usedAttemptIds, code)
      || (exists i :: 0 <= i < |e.branches| && BranchFault(e, i, code)) || CountFault(e, code)
  }

  // ---------------------------------------------------------------------
  // The loops report them
  // ---------------------------------------------------------------------

  lemma HeaderReports(e: Expansion, code: Code)
    ensures code in HeaderCodes(e) <==> HeaderFault(e, code)
  {
    hide Blank;
  }

  lemma {:induction false} HistoryReports(used: seq<string>, code: Code)
    ensures code in ScanUsed(used).codes <==> HistoryFault(used, code)
  {
    hide Trim, Blank, Recorded, HistoryFault;
    if used == [] {
      NoHistoryFault(code);
    } else {
      var n := |used| - 1;
      HistoryReports(used[..n], code);
      SeenExactly(used[..n], used[n]);
      HistoryGrows(used, n, code);
    }
  }

  lemma NoHistoryFault(code: Code)
    ensures !HistoryFault([], code)
  {
  }

  lemma SeenExactly(used: seq<string>, attemptId: string)
    ensures !Blank(attemptId) ==> (Trim(attemptId) in ScanUsed(used).seen <==> Recorded(used, Trim(attemptId)))
  {
    hide Recorded;
    ScanUsedMeaning(used);
  }

  lemma BlankGrows(front: seq<string>, last: string)
    ensures HasBlank(front + [last]) <==> HasBlank(front) || Blank(last)
  {
    hide Blank;
    var used := front + [last];
    assert used[|front|] == last;
    if HasBlank(front) {
      var i :| 0 <= i < |front| && Blank(front[i]);
      assert used[i] == front[i];
    }
  }

  lemma RepeatGrows(front: seq<string>, last: string)
    ensures HasRepeat(front + [last]) <==> HasRepeat(front) || (!Blank(last) && Recorded(front, Trim(last)))
  {
    hide Trim, Blank;
    var used := front + [last];
    assert used[|front|] == last;
    assert forall i :: 0 <= i < |front| ==> used[i] == front[i];
    if HasRepeat(front) {
      var i, j :| 0 <= i < j < |front| && !Blank(front[j]) && Trim(front[i]) == Trim(front[j]);
      assert !Blank(used[j]) && Trim(used[i]) == Trim(used[j]);
    }
    if !Blank(last) && Recorded(front, Trim(last)) {
      var i :| 0 <= i < |front| && Trim(front[i]) == Trim(last);
      assert Trim(used[i]) == Trim(used[|front|]);
    }
    if HasRepeat(used) {
      var i, j :| 0 <= i < j < |used| && !Blank(used[j]) && Trim(used[i]) == Trim(used[j]);
      if j < |front| {
        assert !Blank(front[j]) && Trim(front[i]) == Trim(front[j]);
      } else {
        assert Trim(front[i]) == Trim(last);
      }
    }
  }

  lemma HistoryGrows(used: seq<string>, n: nat, code: Code)
    requires n == |used| - 1
    ensures HistoryFault(used, code) <==>
      || HistoryFault(used[..n], code)
      || (code == InvalidAttemptId && Blank(used[n]))
      || (code == DuplicateAttemptId && !Blank(used[n]) && Recorded(used[..n], Trim(used[n])))
  {
    hide Trim, Blank, HasBlank, HasRepeat, Recorded;
    assert used == used[..n] + [used[n]];
    BlankGrows(used[..n], used[n]);
    RepeatGrows(used[..n], used[n]);
  }

  // What the branch loop's sets and sum hold after n branches of any record.
  ghost predicate LoopSets(e: Expansion, scan: BranchScan, n: nat)
    requires n <= |e.branches|
  {
    && (forall id :: id in scan.seenBranchIds <==> SeenId(e, n, id))
    && (forall id :: id in scan.seenCurrent <==> SeenAttempt(e, n, id))
    && (scan.complete <==> forall j :: 0 <= j < n ==> NonNegativeSafe(e.branches[j].attemptNumber))
    && (scan.complete ==> scan.sum == Attempts(e.branches[..n]))
  }

  lemma VisitKeepsSets(e: Expansion, seenUsed: set<string>, scan: BranchScan, n: nat)
    requires 0 < n <= |e.branches| && LoopSets(e, scan, n - 1)
    ensures LoopSets(e, VisitBranch(e, n - 1, seenUsed, scan), n)
  {
    hide Trim, PositionCodes, Attempts;
    AttemptsStep(e.branches, n);
    var b, next := e.branches[n - 1], VisitBranch(e, n - 1, seenUsed, scan);
    forall id ensures id in next.seenBranchIds <==> SeenId(e, n, id) {
      assert id in next.seenBranchIds <==> id in scan.seenBranchIds || HasId(b, id);
    }
    forall id ensures id in next.seenCurrent <==> SeenAttempt(e, n, id) {
      assert id in next.seenCurrent <==> id in scan.seenCurrent || HoldsAttempt(b, id);
    }
  }

  lemma EvidenceReports(evidence: seq<Evidence>, code: Code)
    ensures code in EvidenceCodes(evidence) <==> EvidenceFault(evidence, code)
  {
    hide ValidEvidence, SoundEntry;
    EvidenceCodesExactly(evidence);
    forall entry ensures ValidEvidence(entry) <==> SoundEntry(entry) {
      TagsExactly(entry);
    }
    if exists entry :: entry in evidence && !ValidEvidence(entry) {
      assert EvidenceCodes(evidence) != [];
      assert EvidenceCodes(evidence)[0] in EvidenceCodes(evidence);
    }
  }

  lemma IdentityReports(e: Expansion, i: nat, seenBranchIds: set<string>, code: Code)
    requires i < |e.branches| && forall id :: id in seenBranchIds <==> SeenId(e, i, id)
    ensures code in IdentityCodes(e, i, seenBranchIds) <==> IdentityFault(e, i, code)
  {
    hide Trim, Blank, BranchIdAt, SeenId;
  }

  // The attempt diagnostics of one branch, against what was seen before it.
  lemma AttemptCodesExactly(b: Branch, seenCurrent: set<string>, seenUsed: set<string>, code: Code)
    ensures code in AttemptCodes(b, seenCurrent, seenUsed) <==>
      match code
      case InvalidAttemptNumber =>
        !(0 <= b.attemptNumber <= MAX_SAFE_INTEGER) || (b.attemptNumber == 0 && (b.attemptId.Some? || b.status in {Running, Succeeded, Failed}))
      case InvalidAttemptId =>
        if b.attemptId.Some? then Blank(b.attemptId.value)
        else 1 <= b.attemptNumber <= MAX_SAFE_INTEGER || b.status in {Running, Succeeded, Failed}
      case DuplicateAttemptId => b.attemptId.Some? && !Blank(b.attemptId.value) && Trim(b.attemptId.value) in seenCurrent
      case AttemptIdNotRecorded => b.attemptId.Some? && !Blank(b.attemptId.value) && Trim(b.attemptId.value) !in seenUsed
      case _ => false
  {
    hide Trim, Blank;
  }

  lemma AttemptReports(e: Expansion, i: nat, seenCurrent: set<string>, seenUsed: set<string>, code: Code)
    requires i < |e.branches| && UsedSet(e, seenUsed) && forall id :: id in seenCurrent <==> SeenAttempt(e, i, id)
    ensures code in AttemptCodes(e.branches[i], seenCurrent, seenUsed) <==> AttemptFault(e, i, code)
  {
    hide Trim, Blank, SeenAttempt, Recorded, AttemptCodes;
    var b := e.branches[i];
    AttemptCodesExactly(b, seenCurrent, seenUsed, code);
    if b.attemptId.Some? {
      BlankIsEmpty(b.attemptId.value);
    }
  }

  lemma BlankIsEmpty(text: string)
    ensures Blank(text) <==> Trim(text) == ""
  {
  }

  lemma {:induction false} BranchesReport(e: Expansion, seenUsed: set<string>, n: nat, code: Code)
    requires n <= |e.branches| && UsedSet(e, seenUsed)
    ensures LoopSets(e, ScanBranches(e, seenUsed, n), n)
    ensures code in ScanBranches(e, seenUsed, n).codes <==> exists i :: 0 <= i < n && BranchFault(e, i, code)
    decreases n
  {
    hide Trim, IdentityCodes, AttemptCodes, EvidenceCodes, IdentityFault, AttemptFault, EvidenceFault, LoopSets, UsedSet, VisitBranch;
    if n == 0 {
      NoSets(e, seenUsed);
    } else {
      BranchesReport(e, seenUsed, n - 1, code);
      var scan := ScanBranches(e, seenUsed, n - 1);
      VisitKeepsSets(e, seenUsed, scan, n);
      ScanUnroll(e, seenUsed, n);
      PositionReports(e, n - 1, seenUsed, scan, code);
    }
  }

  lemma NoSets(e: Expansion, seenUsed: set<string>)
    ensures LoopSets(e, ScanBranches(e, seenUsed, 0), 0) && ScanBranches(e, seenUsed, 0).codes == []
  {
    assert e.branches[..0] == [];
  }

  lemma PositionReports(e: Expansion, i: nat, seenUsed: set<string>, scan: BranchScan, code: Code)
    requires i < |e.branches| && UsedSet(e, seenUsed) && LoopSets(e, scan, i)
    ensures code in PositionCodes(e, i, seenUsed, scan) <==> BranchFault(e, i, code)
  {
    hide Trim, IdentityCodes, AttemptCodes, EvidenceCodes, IdentityFault, AttemptFault, EvidenceFault, SeenId, SeenAttempt, Attempts;
    IdentityReports(e, i, scan.seenBranchIds, code);
    AttemptReports(e, i, scan.seenCurrent, seenUsed, code);
    EvidenceReports(e.branches[i].evidence, code);
  }

  /** The validator reports exactly the faults of a record, whatever the record holds. */
  lemma ValidatorReportsExactly(e: Expansion, code: Code)
    ensures code in ValidateCodes(e) <==> RecordFault(e, code)
  {
    hide Trim, HeaderCodes, HeaderFault, HistoryFault, BranchFault, Attempts, SoundHistory, Recorded, ScanUsed, ScanBranches;
    if e.schemaVersion == SCHEMA_VERSION {
      HeaderReports(e, code);
      HistoryReports(e.usedAttemptIds, code);
      ScanUsedMeaning(e.usedAttemptIds);
      BranchesReport(e, ScanUsed(e.usedAttemptIds).seen, |e.branches|, code);
      assert e.branches[..|e.branches|] == e.branches;
    }
  }

  lemma {:induction false} HistoryInOrder(used: seq<string>, k: nat)
    requires k <= |used|
    ensures ScanUsed(used[..k]).codes <= ScanUsed(used).codes
  {
    hide Trim, Blank;
    if k < |used| {
      var n := |used| - 1;
      HistoryInOrder(used[..n], k);
      assert used[..n][..k] == used[..k];
    } else {
      assert used[..k] == used;
    }
  }

  lemma {:induction false} BranchesInOrder(e: Expansion, seenUsed: set<string>, i: nat, n: nat)
    requires i <= n <= |e.branches|
    ensures ScanBranches(e, seenUsed, i).codes <= ScanBranches(e, seenUsed, n).codes
    decreases n
  {
    hide PositionCodes, ScanBranches;
    if i < n {
      BranchesInOrder(e, seenUsed, i, n - 1);
      ScanUnroll(e, seenUsed, n);
    }
  }

  /** Diagnostics come in the order of the record: the header, the recorded ids by position, then the branches by position. */
  lemma ValidatorReportsInOrder(e: Expansion, k: nat, i: nat)
    requires e.schemaVersion == SCHEMA_VERSION && k <= |e.usedAttemptIds| && i <= |e.branches|
    ensures var used := ScanUsed(e.usedAttemptIds);
      && HeaderCodes(e) + ScanUsed(e.usedAttemptIds[..k]).codes <= ValidateCodes(e)
      && HeaderCodes(e) + used.codes + ScanBranches(e, used.seen, i).codes <= ValidateCodes(e)
  {
    hide HeaderCodes, ScanUsed, ScanBranches, Attempts;
    var used := ScanUsed(e.usedAttemptIds);
    HistoryInOrder(e.usedAttemptIds, k);
    BranchesInOrder(e, used.seen, i, |e.branches|);
    var header, whole := HeaderCodes(e), ScanBranches(e, used.seen, |e.branches|).codes;
    assert header + used.codes + whole <= ValidateCodes(e);
    PrefixWithin(header, ScanUsed(e.usedAttemptIds[..k]).codes, used.codes, whole);
    PrefixWithin(header + used.codes, ScanBranches(e, used.seen, i).codes, whole, []);
    assert header + used.codes + whole + [] == header + used.codes + whole;
  }

  lemma PrefixWithin(front: Codes, part: Codes, whole: Codes, rest: Codes)
    requires part <= whole
    ensures front + part <= front + whole + rest
  {
  }

  // ---------------------------------------------------------------------
  // Restore
  // ---------------------------------------------------------------------

  // The branch with its identities trimmed and its evidence copied.
  ghost predicate RestoredBranch(raw: Branch, b: Branch) {
    && b.branchId == Trim(raw.branchId) && b.regionId == Trim(raw.regionId) && b.index == raw.index && b.itemValue == raw.itemValue
    && b.status == raw.status && b.attemptNumber == raw.attemptNumber && b.failureReason == raw.failureReason
    && b.attemptId == (if raw.attemptId.None? then None else Some(Trim(raw.attemptId.value)))
    && b.evidence == CopyEvidence(raw.evidence)
  }

  /** Restore refuses a record with the validator's diagnostics, and returns any other with its identities trimmed. */
  lemma ParseExactly(e: Expansion)
    ensures ValidateCodes(e) != [] ==> Parse(e) == Err(ValidateCodes(e))
    ensures ValidateCodes(e) == [] ==>
      && Parse(e).Ok?
      && var r := Parse(e).value;
      && r.schemaVersion == 1 && r.regionId == Trim(e.regionId) && r.collectionFact == Trim(e.collectionFact)
      && r.collectionValues == e.collectionValues && r.fanInPolicy == e.fanInPolicy && r.maxBranches == e.maxBranches
      && |r.branches| == |e.branches| && (forall i :: 0 <= i < |e.branches| ==> RestoredBranch(e.branches[i], r.branches[i]))
      && |r.usedAttemptIds| == |e.usedAttemptIds|
      && forall i :: 0 <= i < |e.usedAttemptIds| ==> r.usedAttemptIds[i] == Trim(e.usedAttemptIds[i])
  {
    hide Trim, ValidateCodes, CopyEvidence;
  }
}
