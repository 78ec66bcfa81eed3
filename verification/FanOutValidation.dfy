/** The full validator of an expansion record, what it means, and restore through it. */
module FanOutValidation {
  import opened Wrappers
  import opened Ordinals
  import opened Text
  import opened DerivedFanOut

  // ---------------------------------------------------------------------
  // The validator
  // ---------------------------------------------------------------------

  function HeaderCodes(e: Expansion): Codes {
    (if Blank(e.regionId) then [InvalidId] else []) +
    (if Blank(e.collectionFact) then [InvalidCollectionFact] else []) +
    (if PositiveSafe(e.maxBranches) then [] else [InvalidMaxBranches]) +
    (if PositiveSafe(e.maxBranches) && |e.collectionValues| > e.maxBranches then [CollectionExceedsMax] else []) +
    (if |e.branches| != |e.collectionValues| then [BranchCountMismatch] else [])
  }

  // The loop over the recorded attempt ids.
  datatype UsedScan = UsedScan(codes: Codes, seen: set<string>)

  function VisitUsed(scan: UsedScan, attemptId: string): UsedScan {
    if Blank(attemptId) then scan.(codes := scan.codes + [InvalidAttemptId])
    else if Trim(attemptId) in scan.seen then scan.(codes := scan.codes + [DuplicateAttemptId])
    else scan.(seen := scan.seen + {Trim(attemptId)})
  }

  function ScanUsed(used: seq<string>): UsedScan {
    if used == [] then UsedScan([], {})
    else VisitUsed(ScanUsed(used[..|used| - 1]), used[|used| - 1])
  }

  // The loop over the branches.
  datatype BranchScan = BranchScan(codes: Codes, seenBranchIds: set<string>, seenCurrent: set<string>, sum: int, complete: bool)

  function IdentityCodes(e: Expansion, position: nat, seenBranchIds: set<string>): Codes
    requires position < |e.branches|
  {
    var b := e.branches[position];
    var region := !Blank(e.regionId);
    (if Blank(b.branchId) then [InvalidBranchId]
     else (if Trim(b.branchId) in seenBranchIds then [DuplicateBranchId] else []) +
          (if region && NonNegativeSafe(b.index) && Trim(b.branchId) != BranchIdAt(Trim(e.regionId), b.index) then [BranchIdentityMismatch] else [])) +
    (if Blank(b.regionId) then [InvalidBranchRegionId]
     else if region && Trim(b.regionId) != Trim(e.regionId) then [BranchRegionMismatch] else []) +
    (if !NonNegativeSafe(b.index) || b.index != position then [InvalidBranchIndex] else []) +
    (if position < |e.collectionValues| && b.itemValue != e.collectionValues[position] then [ItemValueMismatch] else [])
  }

  function AttemptCodes(b: Branch, seenCurrent: set<string>, seenUsed: set<string>): Codes {
    (if NonNegativeSafe(b.attemptNumber) then [] else [InvalidAttemptNumber]) +
    (if b.attemptId.None? then []
     else if Blank(b.attemptId.value) then [InvalidAttemptId]
     else (if Trim(b.attemptId.value) in seenCurrent then [DuplicateAttemptId] else []) +
          (if Trim(b.attemptId.value) in seenUsed then [] else [AttemptIdNotRecorded])) +
    (if b.attemptNumber == 0 && b.attemptId.Some? then [InvalidAttemptNumber] else []) +
    (if b.attemptNumber == 0 && b.status.Attempted() then [InvalidAttemptNumber] else []) +
    (if 1 <= b.attemptNumber <= MAX_SAFE_INTEGER && b.attemptId.None? then [InvalidAttemptId] else []) +
    (if b.status.Attempted() && (b.attemptId.None? || Blank(b.attemptId.value)) then [InvalidAttemptId] else [])
  }

  // All diagnostics of one position.
  function PositionCodes(e: Expansion, position: nat, seenUsed: set<string>, scan: BranchScan): Codes
    requires position < |e.branches|
  {
    IdentityCodes(e, position, scan.seenBranchIds)
    + AttemptCodes(e.branches[position], scan.seenCurrent, seenUsed)
    + EvidenceCodes(e.branches[position].evidence)
  }

  function VisitBranch(e: Expansion, position: nat, seenUsed: set<string>, scan: BranchScan): BranchScan
    requires position < |e.branches|
  {
    var b := e.branches[position];
    BranchScan(
      scan.codes + PositionCodes(e, position, seenUsed, scan),
      if Blank(b.branchId) then scan.seenBranchIds else scan.seenBranchIds + {Trim(b.branchId)},
      if b.attemptId.None? || Blank(b.attemptId.value) then scan.seenCurrent else scan.seenCurrent + {Trim(b.attemptId.value)},
      if NonNegativeSafe(b.attemptNumber) then scan.sum + b.attemptNumber else scan.sum,
      scan.complete && NonNegativeSafe(b.attemptNumber))
  }

  function ScanBranches(e: Expansion, seenUsed: set<string>, n: nat): BranchScan
    requires n <= |e.branches|
  {
    if n == 0 then BranchScan([], {}, {}, 0, true)
    else VisitBranch(e, n - 1, seenUsed, ScanBranches(e, seenUsed, n - 1))
  }

  function ValidateCodes(e: Expansion): Codes {
    if e.schemaVersion != SCHEMA_VERSION then [UnsupportedSchema]
    else
      var used := ScanUsed(e.usedAttemptIds);
      var scan := ScanBranches(e, used.seen, |e.branches|);
      HeaderCodes(e) + used.codes + scan.codes +
      (if scan.complete && used.codes == [] && |e.usedAttemptIds| != scan.sum then [AttemptHistoryMismatch] else [])
  }

  method CheckUsedAttemptIds(used: seq<string>) returns (scan: UsedScan)
    ensures scan == ScanUsed(used)
  {
    hide Trim;
    var seen: set<string>, codes: Codes := {}, [];
    for index := 0 to |used|
      invariant UsedScan(codes, seen) == ScanUsed(used[..index])
    {
      var attemptId := used[index];
      assert used[..index + 1][..index] == used[..index];
      if Blank(attemptId) {
        codes := codes + [InvalidAttemptId];
      } else if Trim(attemptId) in seen {
        codes := codes + [DuplicateAttemptId];
      } else {
        seen := seen + {Trim(attemptId)};
      }
    }
    assert used[..|used|] == used;
    scan := UsedScan(codes, seen);
  }

  method CheckBranches(e: Expansion, seenUsed: set<string>) returns (scan: BranchScan)
    ensures scan == ScanBranches(e, seenUsed, |e.branches|)
  {
    hide Trim, PositionCodes, Blank, NonNegativeSafe;
    scan := BranchScan([], {}, {}, 0, true);
    for index := 0 to |e.branches|
      invariant scan == ScanBranches(e, seenUsed, index)
    {
      var branch := e.branches[index];
      scan := scan.(codes := scan.codes + PositionCodes(e, index, seenUsed, scan));
      if !Blank(branch.branchId) {
        scan := scan.(seenBranchIds := scan.seenBranchIds + {Trim(branch.branchId)});
      }
      if branch.attemptId.Some? && !Blank(branch.attemptId.value) {
        scan := scan.(seenCurrent := scan.seenCurrent + {Trim(branch.attemptId.value)});
      }
      if NonNegativeSafe(branch.attemptNumber) {
        scan := scan.(sum := scan.sum + branch.attemptNumber);
      } else {
        scan := scan.(complete := false);
      }
    }
  }

  /** The validator: header, recorded ids, branches, then the history count. */
  method ValidateDerivedFanOutExpansion(e: Expansion) returns (diagnostics: Codes)
    ensures diagnostics == ValidateCodes(e)
  {
    if e.schemaVersion != SCHEMA_VERSION {
      return [UnsupportedSchema];
    }
    var used := CheckUsedAttemptIds(e.usedAttemptIds);
    var scan := CheckBranches(e, used.seen);
    diagnostics := HeaderCodes(e) + used.codes + scan.codes;
    if scan.complete && used.codes == [] && |e.usedAttemptIds| != scan.sum {
      diagnostics := diagnostics + [AttemptHistoryMismatch];
    }
  }

  // ---------------------------------------------------------------------
  // What the validator means
  // ---------------------------------------------------------------------

  function Attempts(branches: seq<Branch>): int {
    if branches == [] then 0 else Attempts(branches[..|branches| - 1]) + branches[|branches| - 1].attemptNumber
  }

  ghost predicate Recorded(used: seq<string>, id: string) {
    exists j :: 0 <= j < |used| && Trim(used[j]) == id
  }

  ghost predicate SoundHeader(e: Expansion) {
    && e.schemaVersion == SCHEMA_VERSION
    && !Blank(e.regionId) && !Blank(e.collectionFact)
    && PositiveSafe(e.maxBranches) && |e.branches| == |e.collectionValues| <= e.maxBranches
  }

  ghost predicate SoundHistory(used: seq<string>) {
    && (forall i :: 0 <= i < |used| ==> !Blank(used[i]))
    && (forall i, j :: 0 <= i < j < |used| ==> Trim(used[i]) != Trim(used[j]))
  }

  // Branch i carries its stable identity, its item, and attempt fields that agree with its status and the history.
  ghost predicate SoundBranch(e: Expansion, i: nat)
    requires i < |e.branches| == |e.collectionValues|
  {
    var b := e.branches[i];
    && Trim(b.branchId) == BranchIdAt(Trim(e.regionId), i)
    && Trim(b.regionId) == Trim(e.regionId)
    && b.index == i && b.itemValue == e.collectionValues[i]
    && SoundAttempt(b, e.usedAttemptIds)
    && (forall entry :: entry in b.evidence ==> ValidEvidence(entry))
  }

  ghost predicate SoundAttempt(b: Branch, used: seq<string>) {
    && b.attemptNumber >= 0
    && (b.attemptNumber == 0 <==> b.attemptId.None?)
    && (b.attemptId.Some? ==> !Blank(b.attemptId.value) && Recorded(used, Trim(b.attemptId.value)))
    && (b.status.Attempted() ==> b.attemptNumber >= 1)
  }

  ghost predicate DistinctCurrent(branches: seq<Branch>) {
    forall i, j :: 0 <= i < j < |branches| && branches[i].attemptId.Some? && branches[j].attemptId.Some? ==>
      Trim(branches[i].attemptId.value) != Trim(branches[j].attemptId.value)
  }

  // Everything the record promises, apart from the range of the host's integers.
  ghost predicate Sound(e: Expansion) {
    && SoundHeader(e)
    && SoundHistory(e.usedAttemptIds)
    && (forall i :: 0 <= i < |e.branches| ==> SoundBranch(e, i))
    && DistinctCurrent(e.branches)
    && |e.usedAttemptIds| == Attempts(e.branches)
  }

  ghost predicate SafeNumbers(e: Expansion) {
    forall b :: b in e.branches ==> b.attemptNumber <= MAX_SAFE_INTEGER
  }

  lemma {:induction false} ScanUsedMeaning(used: seq<string>)
    ensures ScanUsed(used).codes == [] <==> SoundHistory(used)
    ensures forall id :: id in ScanUsed(used).seen <==> id != "" && Recorded(used, id)
  {
    hide Trim, SoundHistory, Recorded;
    if used == [] {
      NoHistory();
    } else {
      var n := |used| - 1;
      var front := used[..n];
      ScanUsedMeaning(front);
      assert used == front + [used[n]];
      SoundHistoryAppend(front, used[n]);
      forall id ensures Recorded(used, id) <==> Recorded(front, id) || Trim(used[n]) == id {
        RecordedAppend(front, used[n], id);
      }
    }
  }

  lemma NoHistory()
    ensures SoundHistory([]) && forall id :: !Recorded([], id)
  {
  }

  lemma SoundHistoryAppend(front: seq<string>, last: string)
    ensures SoundHistory(front + [last]) <==> SoundHistory(front) && !Blank(last) && !Recorded(front, Trim(last))
  {
    hide Trim;
    var used := front + [last];
    if SoundHistory(used) {
      forall i, j | 0 <= i < j < |front| ensures Trim(front[i]) != Trim(front[j]) {
        assert front[i] == used[i] && front[j] == used[j];
      }
      assert used[|front|] == last;
      forall j | 0 <= j < |front| ensures !Blank(front[j]) && Trim(front[j]) != Trim(last) {
        assert front[j] == used[j];
      }
    }
  }

  lemma RecordedAppend(used: seq<string>, attemptId: string, id: string)
    ensures Recorded(used + [attemptId], id) <==> Recorded(used, id) || Trim(attemptId) == id
  {
    hide Trim;
    var all := used + [attemptId];
    if Recorded(used, id) {
      var j :| 0 <= j < |used| && Trim(used[j]) == id;
      assert all[j] == used[j];
    }
    assert all[|used|] == attemptId;
    if Recorded(all, id) {
      var j :| 0 <= j < |all| && Trim(all[j]) == id;
      if j < |used| { assert used[j] == all[j]; }
    }
  }

  // The branch loop finds a position clean exactly when the branch is sound and its attempt is new.
  lemma VisitMeaning(e: Expansion, i: nat, seenUsed: set<string>, scan: BranchScan)
    requires SoundHeader(e) && i < |e.branches|
    requires forall id :: id in seenUsed <==> id != "" && Recorded(e.usedAttemptIds, id)
    requires forall id :: id in scan.seenBranchIds ==> exists j :: 0 <= j < i && id == BranchIdAt(Trim(e.regionId), j)
    ensures var b := e.branches[i];
      PositionCodes(e, i, seenUsed, scan) == []
      <==> SoundBranch(e, i) && b.attemptNumber <= MAX_SAFE_INTEGER
           && (b.attemptId.Some? ==> Trim(b.attemptId.value) !in scan.seenCurrent)
  {
    hide Trim, BranchIdAt;
    var b := e.branches[i];
    if Trim(b.branchId) == BranchIdAt(Trim(e.regionId), i) {
      BranchIdNonEmpty(Trim(e.regionId), i);
      if Trim(b.branchId) in scan.seenBranchIds {
        var j :| 0 <= j < i && Trim(b.branchId) == BranchIdAt(Trim(e.regionId), j);
        BranchIdInjective(Trim(e.regionId), i, j);
      }
    }
  }

  lemma BranchIdNonEmpty(regionId: string, i: nat)
    ensures BranchIdAt(regionId, i) != ""
  {
  }

  ghost predicate CleanPrefix(e: Expansion, n: nat)
    requires n <= |e.branches| == |e.collectionValues|
  {
    && (forall i :: 0 <= i < n ==> SoundBranch(e, i) && e.branches[i].attemptNumber <= MAX_SAFE_INTEGER)
    && DistinctCurrent(e.branches[..n])
  }

  lemma DistinctCurrentAppend(branches: seq<Branch>, b: Branch)
    ensures DistinctCurrent(branches + [b]) <==>
      DistinctCurrent(branches)
      && (b.attemptId.Some? ==> forall c :: c in branches && c.attemptId.Some? ==> Trim(c.attemptId.value) != Trim(b.attemptId.value))
  {
    hide Trim;
    var all := branches + [b];
    if DistinctCurrent(all) {
      forall i, j | 0 <= i < j < |branches| && branches[i].attemptId.Some? && branches[j].attemptId.Some?
        ensures Trim(branches[i].attemptId.value) != Trim(branches[j].attemptId.value)
      {
        assert all[i] == branches[i] && all[j] == branches[j];
      }
      if b.attemptId.Some? {
        forall c | c in branches && c.attemptId.Some? ensures Trim(c.attemptId.value) != Trim(b.attemptId.value) {
          var i :| 0 <= i < |branches| && branches[i] == c;
          assert all[i] == c && all[|branches|] == b;
        }
      }
    }
  }

  // What the loop's sets and sum hold after a clean prefix.
  ghost predicate PrefixSets(e: Expansion, scan: BranchScan, n: nat)
    requires n <= |e.branches|
  {
    && scan.complete && scan.sum == Attempts(e.branches[..n])
    && (forall id :: id in scan.seenBranchIds ==> exists j :: 0 <= j < n && id == BranchIdAt(Trim(e.regionId), j))
    && (forall id :: id in scan.seenCurrent <==> HasCurrent(e.branches[..n], id))
  }

  ghost predicate HasCurrent(branches: seq<Branch>, id: string) {
    exists b :: b in branches && b.attemptId.Some? && Trim(b.attemptId.value) == id
  }

  lemma HasCurrentAppend(branches: seq<Branch>, b: Branch, id: string)
    ensures HasCurrent(branches + [b], id) <==> HasCurrent(branches, id) || (b.attemptId.Some? && Trim(b.attemptId.value) == id)
  {
    hide Trim;
    assert forall c :: c in branches + [b] <==> c in branches || c == b;
  }

  lemma SoundBranchFacts(e: Expansion, i: nat)
    requires i < |e.branches| && SoundHeader(e) && SoundBranch(e, i) && e.branches[i].attemptNumber <= MAX_SAFE_INTEGER
    ensures var b := e.branches[i];
      && Trim(b.branchId) == BranchIdAt(Trim(e.regionId), i) && NonNegativeSafe(b.attemptNumber)
      && (b.attemptId.Some? ==> !Blank(b.attemptId.value))
  {
    hide Trim, BranchIdAt;
  }

  lemma AttemptsStep(branches: seq<Branch>, n: nat)
    requires 0 < n <= |branches|
    ensures Attempts(branches[..n]) == Attempts(branches[..n - 1]) + branches[n - 1].attemptNumber
  {
    assert branches[..n][..n - 1] == branches[..n - 1];
  }

  lemma VisitSets(e: Expansion, seenUsed: set<string>, scan: BranchScan, n: nat)
    requires SoundHeader(e) && 0 < n <= |e.branches| && SoundBranch(e, n - 1) && e.branches[n - 1].attemptNumber <= MAX_SAFE_INTEGER
    requires PrefixSets(e, scan, n - 1)
    ensures PrefixSets(e, VisitBranch(e, n - 1, seenUsed, scan), n)
  {
    hide Trim, BranchIdAt, PositionCodes, HasCurrent, SoundBranch, SoundHeader, Attempts;
    var b := e.branches[n - 1];
    SoundBranchFacts(e, n - 1);
    AttemptsStep(e.branches, n);
    assert e.branches[..n] == e.branches[..n - 1] + [b];
    forall id ensures HasCurrent(e.branches[..n], id) <==> HasCurrent(e.branches[..n - 1], id) || (b.attemptId.Some? && Trim(b.attemptId.value) == id) {
      HasCurrentAppend(e.branches[..n - 1], b, id);
    }
  }

  lemma ScanUnroll(e: Expansion, seenUsed: set<string>, n: nat)
    requires 0 < n <= |e.branches|
    ensures ScanBranches(e, seenUsed, n) == VisitBranch(e, n - 1, seenUsed, ScanBranches(e, seenUsed, n - 1))
    ensures ScanBranches(e, seenUsed, n).codes
      == ScanBranches(e, seenUsed, n - 1).codes + PositionCodes(e, n - 1, seenUsed, ScanBranches(e, seenUsed, n - 1))
  {
    hide PositionCodes, Trim;
  }

  lemma NoBranches(e: Expansion, seenUsed: set<string>)
    requires |e.branches| == |e.collectionValues|
    ensures CleanPrefix(e, 0)
    ensures ScanBranches(e, seenUsed, 0).codes == [] && PrefixSets(e, ScanBranches(e, seenUsed, 0), 0)
  {
  }

  lemma CleanPrefixStep(e: Expansion, n: nat)
    requires 0 < n <= |e.branches| == |e.collectionValues|
    ensures var b := e.branches[n - 1];
      CleanPrefix(e, n) <==>
        && CleanPrefix(e, n - 1) && SoundBranch(e, n - 1) && b.attemptNumber <= MAX_SAFE_INTEGER
        && (b.attemptId.Some? ==> !HasCurrent(e.branches[..n - 1], Trim(b.attemptId.value)))
  {
    hide Trim, BranchIdAt, SoundBranch, DistinctCurrent;
    DistinctCurrentAppend(e.branches[..n - 1], e.branches[n - 1]);
    assert e.branches[..n] == e.branches[..n - 1] + [e.branches[n - 1]];
  }

  ghost predicate UsedSet(e: Expansion, seenUsed: set<string>) {
    forall id :: id in seenUsed <==> id != "" && Recorded(e.usedAttemptIds, id)
  }

  // After a clean prefix, a position adds no diagnostic exactly when the prefix stays clean.
  lemma PositionMeaning(e: Expansion, seenUsed: set<string>, scan: BranchScan, n: nat)
    requires SoundHeader(e) && 0 < n <= |e.branches| && UsedSet(e, seenUsed)
    requires CleanPrefix(e, n - 1) && PrefixSets(e, scan, n - 1)
    ensures PositionCodes(e, n - 1, seenUsed, scan) == [] <==> CleanPrefix(e, n)
    ensures CleanPrefix(e, n) ==> PrefixSets(e, VisitBranch(e, n - 1, seenUsed, scan), n)
    ensures CleanPrefix(e, n) ==> CleanPrefix(e, n - 1)
  {
    hide Trim, BranchIdAt, PositionCodes, SoundBranch, VisitBranch, Attempts;
    VisitMeaning(e, n - 1, seenUsed, scan);
    CleanPrefixStep(e, n);
    if CleanPrefix(e, n) { VisitSets(e, seenUsed, scan, n); }
  }

  lemma {:induction false} ScanBranchesMeaning(e: Expansion, seenUsed: set<string>, n: nat)
    requires SoundHeader(e) && n <= |e.branches| && UsedSet(e, seenUsed)
    ensures ScanBranches(e, seenUsed, n).codes == [] <==> CleanPrefix(e, n)
    ensures CleanPrefix(e, n) ==> PrefixSets(e, ScanBranches(e, seenUsed, n), n)
  {
    hide Trim, BranchIdAt, PositionCodes, SoundBranch, DistinctCurrent, CleanPrefix, UsedSet, PrefixSets, ScanBranches, VisitBranch;
    if n > 0 {
      var front := ScanBranches(e, seenUsed, n - 1);
      ScanBranchesMeaning(e, seenUsed, n - 1);
      CleanPrefixStep(e, n);
      ScanUnroll(e, seenUsed, n);
      if front.codes == [] { PositionMeaning(e, seenUsed, front, n); }
    } else {
      NoBranches(e, seenUsed);
    }
  }

  /**
   * The validator reports nothing exactly for a sound record whose attempt numbers
   * are safe integers: identities, items, statuses, attempt ids and history agree.
   */
  lemma ValidatorMeaning(e: Expansion)
    ensures ValidateCodes(e) == [] <==> Sound(e) && SafeNumbers(e)
  {
    hide Trim, BranchIdAt, IdentityCodes, AttemptCodes, EvidenceCodes, SoundBranch, ScanUsed, ScanBranches, Attempts;
    ScanUsedMeaning(e.usedAttemptIds);
    var seen := ScanUsed(e.usedAttemptIds).seen;
    assert e.branches[..|e.branches|] == e.branches;
    if SoundHeader(e) {
      ScanBranchesMeaning(e, seen, |e.branches|);
      assert CleanPrefix(e, |e.branches|) <==> (forall i :: 0 <= i < |e.branches| ==> SoundBranch(e, i)) && SafeNumbers(e) && DistinctCurrent(e.branches);
    }
  }

  // ---------------------------------------------------------------------
  // Restore
  // ---------------------------------------------------------------------

  function TrimBranch(b: Branch): Branch {
    b.(branchId := Trim(b.branchId), regionId := Trim(b.regionId),
       attemptId := if b.attemptId.Some? then Some(Trim(b.attemptId.value)) else None,
       evidence := CopyEvidence(b.evidence))
  }

  function TrimBranches(branches: seq<Branch>): (r: seq<Branch>)
    ensures |r| == |branches|
    ensures forall i :: 0 <= i < |branches| ==> r[i] == TrimBranch(branches[i])
  {
    seq(|branches|, i requires 0 <= i < |branches| => TrimBranch(branches[i]))
  }

  function TrimAll(ids: seq<string>): (r: seq<string>)
    ensures |r| == |ids|
    ensures forall i :: 0 <= i < |ids| ==> r[i] == Trim(ids[i])
  {
    seq(|ids|, i requires 0 <= i < |ids| => Trim(ids[i]))
  }

  function Parse(e: Expansion): Result<Expansion, Codes> {
    if ValidateCodes(e) != [] then Err(ValidateCodes(e))
    else Ok(Expansion(SCHEMA_VERSION, Trim(e.regionId), Trim(e.collectionFact), e.collectionValues, e.fanInPolicy,
                      e.maxBranches, TrimBranches(e.branches), TrimAll(e.usedAttemptIds)))
  }

  // Every identity of the record is already trimmed and its evidence already canonical.
  ghost predicate TrimmedForm(e: Expansion) {
    && Trimmed(e.regionId) && Trimmed(e.collectionFact)
    && (forall b :: b in e.branches ==> TrimmedBranch(b))
    && (forall id :: id in e.usedAttemptIds ==> Trimmed(id))
  }

  ghost predicate TrimmedBranch(b: Branch) {
    && Trimmed(b.branchId) && Trimmed(b.regionId) && CleanEvidence(b.evidence)
    && (b.attemptId.Some? ==> Trimmed(b.attemptId.value))
  }

  lemma TrimBranchForm(b: Branch)
    ensures TrimmedBranch(TrimBranch(b))
    ensures TrimmedBranch(b) ==> TrimBranch(b) == b
  {
    hide Trim, Trimmed, CopyEvidence;
    CopyEvidenceClean(b.evidence);
  }

  lemma {:induction false} AttemptsOfTrimmed(branches: seq<Branch>)
    ensures Attempts(TrimBranches(branches)) == Attempts(branches)
  {
    hide TrimBranch;
    if branches != [] {
      var n := |branches| - 1;
      assert TrimBranches(branches)[..n] == TrimBranches(branches[..n]);
      AttemptsOfTrimmed(branches[..n]);
      TrimKeepsNumber(branches[n]);
    }
  }

  lemma TrimKeepsNumber(b: Branch)
    ensures TrimBranch(b).attemptNumber == b.attemptNumber
  {
  }

  /** A record in trimmed form passes restore exactly when it passes the validator, and comes back unchanged. */
  lemma ParseOfTrimmed(e: Expansion)
    requires TrimmedForm(e) && ValidateCodes(e) == []
    ensures Parse(e) == Ok(e)
  {
    hide ValidateCodes, Trim, Trimmed, TrimBranch, CleanEvidence;
    ValidatorMeaning(e);
    assert Trim(e.regionId) == e.regionId && Trim(e.collectionFact) == e.collectionFact;
    forall i | 0 <= i < |e.branches| ensures TrimBranch(e.branches[i]) == e.branches[i] { TrimBranchForm(e.branches[i]); }
    assert TrimBranches(e.branches) == e.branches;
    assert TrimAll(e.usedAttemptIds) == e.usedAttemptIds;
  }

  lemma TrimIdempotent(s: string)
    ensures Trim(Trim(s)) == Trim(s)
  {
  }

  lemma TrimmedRecorded(used: seq<string>, id: string)
    ensures Recorded(TrimAll(used), id) <==> Recorded(used, id)
  {
    hide Trim;
    forall j | 0 <= j < |used| ensures Trim(TrimAll(used)[j]) == Trim(used[j]) { TrimIdempotent(used[j]); }
    if Recorded(used, id) {
      var j :| 0 <= j < |used| && Trim(used[j]) == id;
      assert Trim(TrimAll(used)[j]) == id;
    }
    if Recorded(TrimAll(used), id) {
      var j :| 0 <= j < |used| && Trim(TrimAll(used)[j]) == id;
      assert Trim(used[j]) == id;
    }
  }

  lemma ParsedBranchSound(e: Expansion, p: Expansion, i: nat)
    requires i < |e.branches| == |e.collectionValues| && |p.branches| == |p.collectionValues| && SoundBranch(e, i)
    requires p.branches == TrimBranches(e.branches) && p.collectionValues == e.collectionValues
    requires p.regionId == Trim(e.regionId) && p.usedAttemptIds == TrimAll(e.usedAttemptIds)
    ensures SoundBranch(p, i)
  {
    hide Trim, BranchIdAt, Recorded, CopyEvidence;
    var b := e.branches[i];
    TrimIdempotent(b.branchId);
    TrimIdempotent(b.regionId);
    TrimIdempotent(e.regionId);
    CopyEvidenceClean(b.evidence);
    if b.attemptId.Some? {
      TrimIdempotent(b.attemptId.value);
      TrimmedRecorded(e.usedAttemptIds, Trim(b.attemptId.value));
    }
  }

  lemma ParsedHistorySound(used: seq<string>)
    requires SoundHistory(used)
    ensures SoundHistory(TrimAll(used))
  {
    hide Trim;
    forall i | 0 <= i < |used| ensures Trim(TrimAll(used)[i]) == Trim(used[i]) { TrimIdempotent(used[i]); }
  }

  lemma ParsedCurrentDistinct(branches: seq<Branch>)
    requires DistinctCurrent(branches)
    ensures DistinctCurrent(TrimBranches(branches))
  {
    hide Trim;
    forall i | 0 <= i < |branches| && branches[i].attemptId.Some?
      ensures Trim(TrimBranches(branches)[i].attemptId.value) == Trim(branches[i].attemptId.value)
    {
      TrimIdempotent(branches[i].attemptId.value);
    }
  }

  lemma ParsedIsSound(e: Expansion)
    requires Parse(e).Ok?
    ensures Sound(Parse(e).value) && SafeNumbers(Parse(e).value) && TrimmedForm(Parse(e).value)
  {
    hide ValidateCodes, Trim, Trimmed, TrimBranch, SoundBranch, DistinctCurrent, SoundHistory, Attempts, TrimmedBranch;
    ValidatorMeaning(e);
    var p := Parse(e).value;
    TrimIdempotent(e.regionId);
    TrimIdempotent(e.collectionFact);
    ParsedHistorySound(e.usedAttemptIds);
    ParsedCurrentDistinct(e.branches);
    AttemptsOfTrimmed(e.branches);
    forall i | 0 <= i < |p.branches|
      ensures SoundBranch(p, i) && TrimmedBranch(p.branches[i]) && p.branches[i].attemptNumber <= MAX_SAFE_INTEGER
    {
      ParsedBranchSound(e, p, i);
      TrimBranchForm(e.branches[i]);
      TrimKeepsNumber(e.branches[i]);
    }
  }

  /** Restore is idempotent: whatever it accepts, it accepts again and returns unchanged. */
  lemma ParseIdempotent(e: Expansion)
    requires Parse(e).Ok?
    ensures Parse(Parse(e).value) == Parse(e)
  {
    hide Parse, Sound, TrimmedForm, ValidateCodes, SafeNumbers;
    ParsedIsSound(e);
    ValidatorMeaning(Parse(e).value);
    ParseOfTrimmed(Parse(e).value);
  }
}
