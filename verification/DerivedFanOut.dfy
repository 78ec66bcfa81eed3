/**
 * A derived fan-out region: expansion of a string list into branches, the
 * attempt steps on one branch, and fan-in over the branch outcomes.
 */
module DerivedFanOut {
  import opened Wrappers
  import opened Ordinals
  import opened Text
  import opened Counting
  import Decimal

  const SCHEMA_VERSION := 1

  datatype Code =
    | InvalidId | InvalidCollectionFact | InvalidMaxBranches
    | CollectionExceedsMax | BranchCountMismatch
    | InvalidAttemptId | DuplicateAttemptId | AttemptIdNotRecorded
    | InvalidBranchId | DuplicateBranchId | BranchIdentityMismatch
    | InvalidBranchRegionId | BranchRegionMismatch | InvalidBranchIndex | ItemValueMismatch
    | InvalidAttemptNumber | AttemptHistoryMismatch | InvalidEvidence
    | UnsupportedSchema | InvalidBranchIdArgument | BranchNotFound | InvalidStatus | StaleAttempt

  type Codes = seq<Code>

  datatype Status = Pending | Running | Succeeded | Failed | Cancelled {
    predicate Terminal() { Succeeded? || Failed? || Cancelled? }
    // Only an attempt can have put the branch in this status.
    predicate Attempted() { Running? || Succeeded? || Failed? }
  }

  datatype Policy = FailAll | ContinueWithSuccesses | RequireAllSuccess

  datatype Evidence = Evidence(ref: string, kind: Option<string>, summary: Option<string>, visibility: Option<string>)

  datatype Definition = Definition(id: string, collectionFact: string, maxBranches: int, fanInPolicy: Policy)

  datatype Branch = Branch(
    branchId: string, regionId: string, index: int, itemValue: string, status: Status,
    attemptId: Option<string>, attemptNumber: int, evidence: seq<Evidence>, failureReason: Option<string>)

  datatype Expansion = Expansion(
    schemaVersion: int, regionId: string, collectionFact: string, collectionValues: seq<string>,
    fanInPolicy: Policy, maxBranches: int, branches: seq<Branch>, usedAttemptIds: seq<string>)

  // ---------------------------------------------------------------------
  // Evidence
  // ---------------------------------------------------------------------

  predicate KnownKind(kind: Option<string>) {
    kind.Some? ==> kind.value in ["tool", "command", "file", "approval", "note"]
  }

  predicate KnownVisibility(visibility: Option<string>) {
    visibility.Some? ==> visibility.value in ["public", "protected"]
  }

  predicate ValidEvidence(entry: Evidence) {
    !Blank(entry.ref) && KnownKind(entry.kind) && KnownVisibility(entry.visibility)
  }

  // One diagnostic for each entry that is not valid.
  function EvidenceCodes(evidence: seq<Evidence>): (codes: Codes)
    ensures codes == [] <==> forall entry :: entry in evidence ==> ValidEvidence(entry)
  {
    if evidence == [] then []
    else
      assert evidence == [evidence[0]] + evidence[1..];
      (if ValidEvidence(evidence[0]) then [] else [InvalidEvidence]) + EvidenceCodes(evidence[1..])
  }

  function CopyEntry(entry: Evidence): Evidence {
    Evidence(Trim(entry.ref), if KnownKind(entry.kind) then entry.kind else None, entry.summary,
             if KnownVisibility(entry.visibility) then entry.visibility else None)
  }

  // The defensive copy: entries without a reference vanish and unknown tags are dropped.
  function CopyEvidence(evidence: seq<Evidence>): seq<Evidence> {
    if evidence == [] then []
    else (if Blank(evidence[0].ref) then [] else [CopyEntry(evidence[0])]) + CopyEvidence(evidence[1..])
  }

  ghost predicate CleanEvidence(evidence: seq<Evidence>) {
    forall entry :: entry in evidence ==> ValidEvidence(entry) && Trimmed(entry.ref)
  }

  lemma {:induction false} CopyEvidenceClean(evidence: seq<Evidence>)
    ensures CleanEvidence(CopyEvidence(evidence))
    ensures CleanEvidence(evidence) ==> CopyEvidence(evidence) == evidence
  {
    if evidence != [] {
      assert evidence == [evidence[0]] + evidence[1..];
      CopyEvidenceClean(evidence[1..]);
    }
  }

  function HasRef(entry: Evidence): bool {
    !Blank(entry.ref)
  }

  ghost predicate KindTag(kind: Option<string>) {
    kind in {Some("tool"), Some("command"), Some("file"), Some("approval"), Some("note")}
  }

  ghost predicate VisibilityTag(visibility: Option<string>) {
    visibility in {Some("public"), Some("protected")}
  }

  // What the copy keeps of an entry.
  ghost predicate CopyOf(entry: Evidence, copy: Evidence) {
    && copy.ref == Trim(entry.ref) && copy.summary == entry.summary
    && copy.kind == (if KindTag(entry.kind) then entry.kind else None)
    && copy.visibility == (if VisibilityTag(entry.visibility) then entry.visibility else None)
  }

  // The entry has a reference and, where it has tags, known ones.
  ghost predicate SoundEntry(entry: Evidence) {
    && !Blank(entry.ref) && (entry.kind.None? || KindTag(entry.kind))
    && (entry.visibility.None? || VisibilityTag(entry.visibility))
  }

  ghost function IsUnsound(): Evidence -> bool {
    (entry: Evidence) => !SoundEntry(entry)
  }

  lemma TagsExactly(entry: Evidence)
    ensures KnownKind(entry.kind) <==> entry.kind.None? || KindTag(entry.kind)
    ensures KnownVisibility(entry.visibility) <==> entry.visibility.None? || VisibilityTag(entry.visibility)
    ensures ValidEvidence(entry) <==> SoundEntry(entry)
  {
    hide Blank;
  }

  ghost predicate CopiesOf(evidence: seq<Evidence>, copies: seq<Evidence>) {
    |copies| == |evidence| && forall i :: 0 <= i < |copies| ==> CopyOf(evidence[i], copies[i])
  }

  /** The copy has exactly the entries with a reference, in order, each trimmed and without unknown tags. */
  lemma {:induction false} CopyEvidenceExactly(evidence: seq<Evidence>)
    ensures CopiesOf(Filter(HasRef, evidence), CopyEvidence(evidence))
  {
    hide CopyOf, HasRef, CopyEntry, CopiesOf, Blank;
    if evidence == [] {
      NothingCopied();
    } else {
      CopyEvidenceExactly(evidence[1..]);
      EntryCopied(evidence[0]);
      OneMoreCopied(evidence[0], CopyEntry(evidence[0]), Filter(HasRef, evidence[1..]), CopyEvidence(evidence[1..]));
    }
  }

  lemma NothingCopied()
    ensures CopiesOf([], [])
  {
  }

  lemma OneMoreCopied(entry: Evidence, copy: Evidence, evidence: seq<Evidence>, copies: seq<Evidence>)
    requires CopyOf(entry, copy) && CopiesOf(evidence, copies)
    ensures CopiesOf([entry] + evidence, [copy] + copies) && [] + copies == copies
  {
    hide CopyOf;
  }

  lemma EntryCopied(entry: Evidence)
    ensures CopyOf(entry, CopyEntry(entry)) && (HasRef(entry) <==> !Blank(entry.ref))
  {
    hide Trim, KnownKind, KnownVisibility, KindTag, VisibilityTag;
    TagsExactly(entry);
  }

  /** Evidence earns one diagnostic for each entry without a reference or with an unknown tag. */
  lemma {:induction false} EvidenceCodesExactly(evidence: seq<Evidence>)
    ensures |EvidenceCodes(evidence)| == Count(IsUnsound(), evidence)
    ensures forall code :: code in EvidenceCodes(evidence) ==> code == InvalidEvidence
  {
    hide ValidEvidence, SoundEntry;
    if evidence != [] {
      TagsExactly(evidence[0]);
      EvidenceCodesExactly(evidence[1..]);
    }
  }

  // ---------------------------------------------------------------------
  // Expansion
  // ---------------------------------------------------------------------

  function BranchIdAt(regionId: string, index: nat): string {
    regionId + "/item/" + Decimal.Show(index)
  }

  lemma BranchIdInjective(regionId: string, i: nat, j: nat)
    requires BranchIdAt(regionId, i) == BranchIdAt(regionId, j)
    ensures i == j
  {
    var p := regionId + "/item/";
    assert BranchIdAt(regionId, i)[|p|..] == Decimal.Show(i) && BranchIdAt(regionId, j)[|p|..] == Decimal.Show(j);
    Decimal.ShowInjective(i, j);
  }

  lemma BranchIdClean(regionId: string, i: nat)
    requires CleanId(regionId)
    ensures CleanId(BranchIdAt(regionId, i))
  {
    var id, n := BranchIdAt(regionId, i), Decimal.Show(i);
    assert id[0] == regionId[0];
    assert id[|id| - 1] == n[|n| - 1];
    assert n[|n| - 1] in n;
  }

  function FreshBranch(regionId: string, index: nat, itemValue: string): Branch {
    Branch(BranchIdAt(regionId, index), regionId, index, itemValue, Pending, None, 0, [], None)
  }

  function DefinitionCodes(definition: Definition): Codes {
    (if Blank(definition.id) then [InvalidId] else []) +
    (if Blank(definition.collectionFact) then [InvalidCollectionFact] else []) +
    (if PositiveSafe(definition.maxBranches) then [] else [InvalidMaxBranches])
  }

  function FreshBranches(regionId: string, values: seq<string>): (r: seq<Branch>)
    ensures |r| == |values|
    ensures forall i :: 0 <= i < |values| ==> r[i] == FreshBranch(regionId, i, values[i])
  {
    seq(|values|, i requires 0 <= i < |values| => FreshBranch(regionId, i, values[i]))
  }

  function Expand(definition: Definition, values: seq<string>): Result<Expansion, Codes> {
    if DefinitionCodes(definition) != [] then Err(DefinitionCodes(definition))
    else if |values| > definition.maxBranches then Err([CollectionExceedsMax])
    else
      var regionId := Trim(definition.id);
      Ok(Expansion(SCHEMA_VERSION, regionId, Trim(definition.collectionFact), values,
                   definition.fanInPolicy, definition.maxBranches, FreshBranches(regionId, values), []))
  }

  // What is wrong with a definition.
  ghost predicate DefinitionFault(definition: Definition, code: Code) {
    match code
    case InvalidId => Blank(definition.id)
    case InvalidCollectionFact => Blank(definition.collectionFact)
    case InvalidMaxBranches => !(1 <= definition.maxBranches <= MAX_SAFE_INTEGER)
    case _ => false
  }

  /**
   * An expansion of a faultless definition has one untouched branch per value, with the
   * trimmed region id, the position in decimal and the value; a faulty definition is
   * refused for exactly its faults, and too many values only where there are none.
   */
  lemma ExpandExactly(definition: Definition, values: seq<string>)
    ensures var region, r := Trim(definition.id), Expand(definition, values);
      if exists code :: DefinitionFault(definition, code) then r.Err? && forall code :: code in r.error <==> DefinitionFault(definition, code)
      else if |values| > definition.maxBranches then r == Err([CollectionExceedsMax])
      else
        && r.Ok? && r.value.schemaVersion == 1 && r.value.regionId == region && r.value.collectionFact == Trim(definition.collectionFact)
        && r.value.collectionValues == values && r.value.fanInPolicy == definition.fanInPolicy
        && r.value.maxBranches == definition.maxBranches && r.value.usedAttemptIds == [] && |r.value.branches| == |values|
        && forall i :: 0 <= i < |values| ==>
             r.value.branches[i] == Branch(region + "/item/" + Decimal.Show(i), region, i, values[i], Pending, None, 0, [], None)
  {
    hide Trim;
    assert DefinitionFault(definition, InvalidId) <==> Blank(definition.id);
    assert DefinitionFault(definition, InvalidCollectionFact) <==> Blank(definition.collectionFact);
    assert DefinitionFault(definition, InvalidMaxBranches) <==> !(1 <= definition.maxBranches <= MAX_SAFE_INTEGER);
  }

  /** The expansion loop; its duplicate-identity exit is never taken. */
  method ExpandDerivedFanOutRegion(definition: Definition, collectionValues: seq<string>) returns (r: Result<Expansion, Codes>)
    ensures r == Expand(definition, collectionValues)
  {
    hide Trim, BranchIdAt, DefinitionCodes;
    var codes := DefinitionCodes(definition);
    if codes != [] {
      return Err(codes);
    }
    if |collectionValues| > definition.maxBranches {
      return Err([CollectionExceedsMax]);
    }
    var id := Trim(definition.id);
    var branches: seq<Branch> := [];
    var seenIds: set<string> := {};
    for index := 0 to |collectionValues|
      invariant branches == FreshBranches(id, collectionValues)[..index]
      invariant forall s :: s in seenIds ==> exists j :: 0 <= j < index && s == BranchIdAt(id, j)
    {
      var branchId := BranchIdAt(id, index);
      if branchId in seenIds {
        ghost var j :| 0 <= j < index && branchId == BranchIdAt(id, j);
        BranchIdInjective(id, index, j);
        assert false;
        return Err([DuplicateBranchId]);
      }
      seenIds := seenIds + {branchId};
      branches := branches + [FreshBranch(id, index, collectionValues[index])];
    }
    assert branches == FreshBranches(id, collectionValues);
    return Ok(Expansion(SCHEMA_VERSION, id, Trim(definition.collectionFact), collectionValues,
                        definition.fanInPolicy, definition.maxBranches, branches, []));
  }

  // ---------------------------------------------------------------------
  // Steps
  // ---------------------------------------------------------------------

  datatype CompleteOptions = CompleteOptions(attemptId: Option<string>, failureReason: Option<string>, evidence: Option<seq<Evidence>>)

  datatype Step =
    | Start(branchId: string, attemptId: string)
    | Complete(branchId: string, status: Status, options: CompleteOptions)
    | Append(branchId: string, evidence: seq<Evidence>)

  function CopyBranch(branch: Branch): Branch {
    branch.(evidence := CopyEvidence(branch.evidence))
  }

  function CopyBranches(branches: seq<Branch>): (r: seq<Branch>)
    ensures |r| == |branches|
    ensures forall i :: 0 <= i < |branches| ==> r[i] == CopyBranch(branches[i])
  {
    seq(|branches|, i requires 0 <= i < |branches| => CopyBranch(branches[i]))
  }

  function CopyExpansion(e: Expansion): Expansion {
    e.(schemaVersion := SCHEMA_VERSION, branches := CopyBranches(e.branches))
  }

  // The first branch with the id.
  function FindBranch(branches: seq<Branch>, id: string): (r: Option<nat>)
    ensures r.Some? ==> r.value < |branches| && branches[r.value].branchId == id
    ensures r.None? <==> forall i :: 0 <= i < |branches| ==> branches[i].branchId != id
    ensures r.Some? ==> forall i :: 0 <= i < r.value ==> branches[i].branchId != id
  {
    if branches == [] then None
    else if branches[0].branchId == id then Some(0)
    else
      match FindBranch(branches[1..], id)
      case None =>
        assert forall i :: 1 <= i < |branches| ==> branches[i] == branches[1..][i - 1];
        None
      case Some(i) =>
        assert forall j :: 1 <= j < |branches| ==> branches[j] == branches[1..][j - 1];
        Some(i + 1)
  }

  // What a step demands of its own arguments, before the branch is looked up.
  function ArgumentCodes(step: Step): Codes {
    match step
    case Start(_, attemptId) => if Blank(attemptId) then [InvalidAttemptId] else []
    case Complete(_, status, _) => if status.Terminal() then [] else [InvalidStatus]
    case Append(_, evidence) => EvidenceCodes(evidence)
  }

  // The effect of a step on its branch alone; only the global history check is missing.
  function LocalStep(branch: Branch, step: Step): Result<Branch, Codes> {
    match step
    case Start(_, attemptId) =>
      if branch.status != Pending && branch.status != Failed then Err([InvalidStatus])
      else Ok(branch.(attemptId := Some(Trim(attemptId)), attemptNumber := branch.attemptNumber + 1, status := Running, failureReason := None))
    case Complete(_, status, options) =>
      if branch.status.Terminal() then Err([InvalidStatus])
      else if status != Cancelled && branch.status != Running then Err([InvalidStatus])
      else if branch.status == Running && (options.attemptId.None? || Blank(options.attemptId.value)) then Err([InvalidAttemptId])
      else if branch.status == Running && Some(Trim(options.attemptId.value)) != branch.attemptId then Err([StaleAttempt])
      else
        var added := options.evidence.GetOr([]);
        if EvidenceCodes(added) != [] then Err(EvidenceCodes(added))
        else
          var reason :=
            if status != Failed then None
            else if options.failureReason.Some? then options.failureReason
            else Some(branch.failureReason.GetOr("branch failed"));
          Ok(branch.(status := status, failureReason := reason, evidence := branch.evidence + CopyEvidence(added)))
    case Append(_, evidence) =>
      Ok(branch.(evidence := branch.evidence + CopyEvidence(evidence)))
  }

  // The attempt ids a step records.
  function Records(step: Step): seq<string> {
    if step.Start? then [Trim(step.attemptId)] else []
  }

  function Apply(e: Expansion, step: Step): Result<Expansion, Codes> {
    if e.schemaVersion != SCHEMA_VERSION then Err([UnsupportedSchema])
    else if Blank(step.branchId) then Err([InvalidBranchIdArgument])
    else if ArgumentCodes(step) != [] then Err(ArgumentCodes(step))
    else
      var next := CopyExpansion(e);
      match FindBranch(next.branches, Trim(step.branchId))
      case None => Err([BranchNotFound])
      case Some(i) =>
        match LocalStep(next.branches[i], step)
        case Err(codes) => Err(codes)
        case Ok(branch) =>
          if step.Start? && Trim(step.attemptId) in next.usedAttemptIds then Err([DuplicateAttemptId])
          else Ok(next.(branches := next.branches[i := branch], usedAttemptIds := next.usedAttemptIds + Records(step)))
  }

  // Every step of the list is accepted, from left to right.
  function ApplyAll(e: Expansion, steps: seq<Step>): Result<Expansion, Codes>
    decreases |steps|
  {
    if steps == [] then Ok(e)
    else
      match Apply(e, steps[0])
      case Err(codes) => Err(codes)
      case Ok(next) => ApplyAll(next, steps[1..])
  }

  // Branch i is the first with the id.
  predicate FirstWithId(branches: seq<Branch>, id: string, i: nat) {
    i < |branches| && branches[i].branchId == id && forall j :: 0 <= j < i ==> branches[j].branchId != id
  }

  // The diagnostics that a step earns on its branch, given the ids used so far.
  ghost predicate BranchRefuses(b: Branch, used: seq<string>, step: Step, codes: Codes) {
    match step
    case Start(_, attemptId) =>
      if b.status in {Running, Succeeded, Cancelled} then codes == [InvalidStatus]
      else Trim(attemptId) in used && codes == [DuplicateAttemptId]
    case Complete(_, status, options) =>
      if b.status in {Succeeded, Failed, Cancelled} || (b.status == Pending && status != Cancelled) then codes == [InvalidStatus]
      else if b.status == Running && (options.attemptId.None? || Blank(options.attemptId.value)) then codes == [InvalidAttemptId]
      else if b.status == Running && b.attemptId != Some(Trim(options.attemptId.value)) then codes == [StaleAttempt]
      else options.evidence.Some? && codes != [] && codes == EvidenceCodes(options.evidence.value)
    case Append(_, _) => false
  }

  // The diagnostics of a step's own arguments.
  ghost predicate ArgumentsRefused(step: Step, codes: Codes) {
    match step
    case Start(_, attemptId) => Blank(attemptId) && codes == [InvalidAttemptId]
    case Complete(_, status, _) => status in {Pending, Running} && codes == [InvalidStatus]
    case Append(_, evidence) => codes != [] && codes == EvidenceCodes(evidence)
  }

  ghost predicate ArgumentsFit(step: Step) {
    forall codes :: !ArgumentsRefused(step, codes)
  }

  /**
   * A step is refused for the schema, else for its branch id, else for its own arguments,
   * else for a missing branch, else for what its branch and the used ids do not allow.
   */
  lemma StepRefusedExactly(e: Expansion, step: Step, codes: Codes)
    ensures Apply(e, step) == Err(codes) <==>
      if e.schemaVersion != 1 then codes == [UnsupportedSchema]
      else if Blank(step.branchId) then codes == [InvalidBranchIdArgument]
      else if !ArgumentsFit(step) then ArgumentsRefused(step, codes)
      else if forall i :: 0 <= i < |e.branches| ==> e.branches[i].branchId != Trim(step.branchId) then codes == [BranchNotFound]
      else exists i: nat :: FirstWithId(e.branches, Trim(step.branchId), i) && BranchRefuses(e.branches[i], e.usedAttemptIds, step, codes)
  {
    hide Trim, Blank, CopyEvidence, EvidenceCodes, ArgumentCodes, ArgumentsFit, ArgumentsRefused, LocalStep, BranchRefuses;
    ArgumentsExactly(step);
    var next := CopyExpansion(e);
    var found := FindBranch(next.branches, Trim(step.branchId));
    assert forall i :: 0 <= i < |e.branches| ==> next.branches[i].branchId == e.branches[i].branchId;
    if found.Some? {
      assert FirstWithId(e.branches, Trim(step.branchId), found.value);
      assert next.branches[found.value] == CopyBranch(e.branches[found.value]);
      if ArgumentsFit(step) {
        BranchRefusesExactly(e.branches[found.value], e.usedAttemptIds, step, codes);
      }
    }
  }

  lemma BranchRefusesExactly(b: Branch, used: seq<string>, step: Step, codes: Codes)
    requires ArgumentCodes(step) == []
    ensures BranchRefuses(b, used, step, codes) <==>
      match LocalStep(CopyBranch(b), step)
      case Err(refused) => codes == refused
      case Ok(_) => step.Start? && Trim(step.attemptId) in used && codes == [DuplicateAttemptId]
  {
    hide Trim, CopyEvidence;
  }

  lemma ArgumentsExactly(step: Step)
    ensures ArgumentsFit(step) <==> ArgumentCodes(step) == []
    ensures forall codes :: ArgumentsRefused(step, codes) <==> codes != [] && codes == ArgumentCodes(step)
  {
    hide Trim, EvidenceCodes;
    if ArgumentCodes(step) != [] {
      assert ArgumentsRefused(step, ArgumentCodes(step));
    }
  }

  lemma NoEvidence()
    ensures EvidenceCodes([]) == [] && CopyEvidence([]) == []
  {
  }

  /** Start as the lifecycle helper writes it: field by field on the copied branch record. */
  method StartDerivedBranchAttempt(e: Expansion, branchId: string, attemptId: string) returns (r: Result<Expansion, Codes>)
    ensures r == Apply(e, Start(branchId, attemptId))
  {
    hide Trim, FindBranch, CopyExpansion, EvidenceCodes, CopyEvidence;
    if e.schemaVersion != SCHEMA_VERSION { return Err([UnsupportedSchema]); }
    if Blank(branchId) { return Err([InvalidBranchIdArgument]); }
    if Blank(attemptId) { return Err([InvalidAttemptId]); }
    var next := CopyExpansion(e);
    var index := FindBranch(next.branches, Trim(branchId));
    if index == None { return Err([BranchNotFound]); }
    var branch := next.branches[index.value];
    if branch.status != Pending && branch.status != Failed { return Err([InvalidStatus]); }
    var trimmedAttemptId := Trim(attemptId);
    if trimmedAttemptId in next.usedAttemptIds { return Err([DuplicateAttemptId]); }
    branch := branch.(attemptId := Some(trimmedAttemptId));
    branch := branch.(attemptNumber := branch.attemptNumber + 1);
    branch := branch.(status := Running);
    branch := branch.(failureReason := None);
    next := next.(branches := next.branches[index.value := branch]);
    next := next.(usedAttemptIds := next.usedAttemptIds + [trimmedAttemptId]);
    return Ok(next);
  }

  method CompleteDerivedBranch(e: Expansion, branchId: string, status: Status, options: CompleteOptions) returns (r: Result<Expansion, Codes>)
    ensures r == Apply(e, Complete(branchId, status, options))
  {
    hide Trim, FindBranch, CopyExpansion, EvidenceCodes, CopyEvidence;
    if e.schemaVersion != SCHEMA_VERSION { return Err([UnsupportedSchema]); }
    if Blank(branchId) { return Err([InvalidBranchIdArgument]); }
    if !status.Terminal() { return Err([InvalidStatus]); }
    var next := CopyExpansion(e);
    var index := FindBranch(next.branches, Trim(branchId));
    if index == None { return Err([BranchNotFound]); }
    var branch := next.branches[index.value];
    if branch.status.Terminal() { return Err([InvalidStatus]); }
    if status == Succeeded || status == Failed {
      if branch.status != Running { return Err([InvalidStatus]); }
    }
    if branch.status == Running {
      if options.attemptId.None? || Blank(options.attemptId.value) { return Err([InvalidAttemptId]); }
      if Some(Trim(options.attemptId.value)) != branch.attemptId { return Err([StaleAttempt]); }
    }
    branch := branch.(status := status);
    if status == Failed {
      if options.failureReason != None {
        branch := branch.(failureReason := options.failureReason);
      } else {
        branch := branch.(failureReason := Some(branch.failureReason.GetOr("branch failed")));
      }
    } else {
      branch := branch.(failureReason := None);
    }
    if options.evidence != None {
      var codes := EvidenceCodes(options.evidence.value);
      if codes != [] { return Err(codes); }
      branch := branch.(evidence := branch.evidence + CopyEvidence(options.evidence.value));
    } else {
      NoEvidence();
      assert branch.evidence + [] == branch.evidence;
    }
    next := next.(branches := next.branches[index.value := branch]);
    assert next.usedAttemptIds + [] == next.usedAttemptIds;
    return Ok(next);
  }

  method AppendDerivedBranchEvidence(e: Expansion, branchId: string, evidence: seq<Evidence>) returns (r: Result<Expansion, Codes>)
    ensures r == Apply(e, Append(branchId, evidence))
  {
    hide Trim, FindBranch, CopyExpansion, EvidenceCodes, CopyEvidence;
    if e.schemaVersion != SCHEMA_VERSION { return Err([UnsupportedSchema]); }
    if Blank(branchId) { return Err([InvalidBranchIdArgument]); }
    var codes := EvidenceCodes(evidence);
    if codes != [] { return Err(codes); }
    var next := CopyExpansion(e);
    var index := FindBranch(next.branches, Trim(branchId));
    if index == None { return Err([BranchNotFound]); }
    var branch := next.branches[index.value];
    branch := branch.(evidence := branch.evidence + CopyEvidence(evidence));
    next := next.(branches := next.branches[index.value := branch]);
    assert next.usedAttemptIds + [] == next.usedAttemptIds;
    return Ok(next);
  }
}
