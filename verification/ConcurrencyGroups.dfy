/**
 * Occupancy of capacity-bounded concurrency groups: parsing of the registry,
 * the stored attempts and the candidates, and the admit and release operations.
 */
module ConcurrencyGroups {
  import opened Wrappers
  import opened Text
  import opened Counting
  import opened KeyedRecords
  import opened Ordinals
  import opened RecordLists

  datatype Code =
    | InvalidGroupId | DuplicateMembership
    | InvalidMaxConcurrent | DuplicateGroupId
    | InvalidAttemptId | StateDuplicateAttemptId
    | UnknownGroup | GroupLimit | DuplicateAttempt
    | FairnessInvalidAttemptId | FairnessInvalidReadySequence | FairnessInvalidKey | FairnessDuplicateAttemptId
    | FairnessInvalidOrdinal | FairnessInvalidBatchLimit

  type Codes = seq<Code>

  // The same record types serve for unchecked input and for parsed values;
  // the Clean predicates below say which records are parsed.
  datatype GroupDefinition = GroupDefinition(groupId: string, maxConcurrent: int)
  datatype Attempt = Attempt(attemptId: string, groupIds: seq<string>)

  type Limits = map<string, int>

  // ---------------------------------------------------------------------
  // Membership lists
  // ---------------------------------------------------------------------

  function ExtractGroupId(raw: string): Result<string, Codes> {
    if Trim(raw) == "" then Err([InvalidGroupId]) else Ok(Trim(raw))
  }

  function ParseGroupIds(raw: seq<string>): Result<seq<string>, Codes> {
    match ParseAll(raw, ExtractGroupId, Itself, DuplicateMembership)
    case Err(codes) => Err(codes)
    case Ok(ids) => Ok(SortBy(Itself, ids))
  }

  ghost predicate CleanGroupIds(ids: seq<string>) {
    && (forall g :: g in ids ==> CleanId(g))
    && KeyedSorted(Itself, ids)
  }

  lemma ParseGroupIdsClean(raw: seq<string>)
    ensures ParseGroupIds(raw) != Err([])
    ensures ParseGroupIds(raw).Ok? ==> CleanGroupIds(ParseGroupIds(raw).value)
    ensures CleanGroupIds(raw) ==> ParseGroupIds(raw) == Ok(raw)
  {
    ParseAllAccepts(raw, ExtractGroupId, Itself, DuplicateMembership);
    var parsed := ParseAll(raw, ExtractGroupId, Itself, DuplicateMembership);
    if parsed.Ok? {
      SortBySorted(Itself, parsed.value);
      var ids := SortBy(Itself, parsed.value);
      forall g | g in ids ensures CleanId(g) {
        assert g in multiset(ids);
        var i :| 0 <= i < |parsed.value| && parsed.value[i] == g;
        assert ExtractGroupId(raw[i]) == Ok(g);
      }
    }
    if CleanGroupIds(raw) {
      KeyedSortedDistinct(Itself, raw);
      ParseAllIdentity(raw, ExtractGroupId, Itself, DuplicateMembership);
      SortBySorted(Itself, raw);
      KeyedSortedUnique(Itself, SortBy(Itself, raw), raw);
    }
  }

  // The list names groups, and no group twice.
  ghost predicate NamesGroups(raw: seq<string>) {
    && (forall i :: 0 <= i < |raw| ==> !Blank(raw[i]))
    && (forall i, j :: 0 <= i < j < |raw| ==> Trim(raw[i]) != Trim(raw[j]))
  }

  // What is wrong with a membership list.
  ghost predicate GroupIdFault(raw: seq<string>, code: Code) {
    match code
    case InvalidGroupId => exists i :: 0 <= i < |raw| && Blank(raw[i])
    case DuplicateMembership => exists i, j :: 0 <= i < j < |raw| && !Blank(raw[i]) && Trim(raw[i]) == Trim(raw[j])
    case _ => false
  }

  // The list holds exactly these trimmed ids, in order.
  ghost predicate TrimmedIds(raw: seq<string>, ids: seq<string>) {
    KeyedSorted(Itself, ids) && forall g :: g in ids <==> exists i :: 0 <= i < |raw| && Trim(raw[i]) == g
  }

  lemma SortedIds(raw: seq<string>, clean: seq<string>)
    requires |clean| == |raw| && KeysDistinct(Itself, clean) && forall i :: 0 <= i < |raw| ==> Trim(raw[i]) == clean[i]
    ensures TrimmedIds(raw, SortBy(Itself, clean))
  {
    hide Trim, SortBy;
    SortBySorted(Itself, clean);
    forall g ensures g in SortBy(Itself, clean) <==> exists i :: 0 <= i < |raw| && Trim(raw[i]) == g {
      assert g in multiset(SortBy(Itself, clean)) <==> g in multiset(clean);
    }
  }

  lemma NamedExactly(raw: seq<string>)
    ensures Acceptable(raw, ExtractGroupId, Itself) <==> NamesGroups(raw)
  {
    hide Trim;
    if NamesGroups(raw) {
      forall i | 0 <= i < |raw| ensures ExtractGroupId(raw[i]) == Ok(Trim(raw[i])) {
        assert !Blank(raw[i]);
      }
    }
    if Acceptable(raw, ExtractGroupId, Itself) {
      forall i | 0 <= i < |raw| ensures ExtractGroupId(raw[i]) == Ok(Trim(raw[i])) && !Blank(raw[i]) {
        assert ExtractGroupId(raw[i]).Ok?;
      }
    }
  }

  /** A membership list parses to its trimmed ids in order exactly when it names groups once each; otherwise it reports exactly its faults. */
  lemma ParseGroupIdsExactly(raw: seq<string>)
    ensures match ParseGroupIds(raw)
            case Ok(ids) => NamesGroups(raw) && TrimmedIds(raw, ids)
            case Err(codes) => !NamesGroups(raw) && forall code :: code in codes <==> GroupIdFault(raw, code)
  {
    hide Trim, SortBy, NamesGroups, GroupIdFault, TrimmedIds, KeysDistinct;
    ParseAllAccepts(raw, ExtractGroupId, Itself, DuplicateMembership);
    ParseAllDiagnoses(raw, ExtractGroupId, Itself, DuplicateMembership);
    NamedExactly(raw);
    match ParseAll(raw, ExtractGroupId, Itself, DuplicateMembership) {
      case Ok(clean) =>
        forall i | 0 <= i < |raw| ensures Trim(raw[i]) == clean[i] {
          assert ExtractGroupId(raw[i]) == Ok(clean[i]);
        }
        SortedIds(raw, clean);
      case Err(codes) =>
        forall code ensures code in codes <==> GroupIdFault(raw, code) {
          GroupIdDiagnosed(raw, code);
        }
    }
  }

  lemma GroupIdDiagnosed(raw: seq<string>, code: Code)
    ensures Diagnosed(raw, ExtractGroupId, Itself, DuplicateMembership, code) <==> GroupIdFault(raw, code)
  {
    hide Trim;
    if GroupIdFault(raw, code) {
      if code == InvalidGroupId {
        var i :| 0 <= i < |raw| && Blank(raw[i]);
        assert code in CodesAt(raw, ExtractGroupId, Itself, DuplicateMembership, i);
      } else {
        var i, j :| 0 <= i < j < |raw| && !Blank(raw[i]) && Trim(raw[i]) == Trim(raw[j]);
        assert KeyIs(raw[i], ExtractGroupId, Itself, Trim(raw[j]));
        assert code in CodesAt(raw, ExtractGroupId, Itself, DuplicateMembership, j);
      }
    }
  }

  // ---------------------------------------------------------------------
  // Registry
  // ---------------------------------------------------------------------

  function GroupKey(definition: GroupDefinition): string {
    definition.groupId
  }

  function ExtractGroupDefinition(raw: GroupDefinition): Result<GroupDefinition, Codes> {
    var codes :=
      (if Trim(raw.groupId) == "" then [InvalidGroupId] else []) +
      (if NonNegativeSafe(raw.maxConcurrent) then [] else [InvalidMaxConcurrent]);
    if codes == [] then Ok(GroupDefinition(Trim(raw.groupId), raw.maxConcurrent)) else Err(codes)
  }

  function ResolveRegistry(registry: Option<seq<GroupDefinition>>): Result<seq<GroupDefinition>, Codes> {
    match registry
    case None => Ok([])
    case Some(groups) =>
      match ParseAll(groups, ExtractGroupDefinition, GroupKey, DuplicateGroupId)
      case Err(codes) => Err(codes)
      case Ok(definitions) => Ok(SortBy(GroupKey, definitions))
  }

  function LimitMap(definitions: seq<GroupDefinition>): Limits {
    if definitions == [] then map[]
    else
      var last := definitions[|definitions| - 1];
      LimitMap(definitions[..|definitions| - 1])[last.groupId := last.maxConcurrent]
  }

  method BuildLimitMap(definitions: seq<GroupDefinition>) returns (limits: Limits)
    ensures limits == LimitMap(definitions)
  {
    limits := map[];
    for i := 0 to |definitions|
      invariant limits == LimitMap(definitions[..i])
    {
      assert definitions[..i + 1][..i] == definitions[..i];
      limits := limits[definitions[i].groupId := definitions[i].maxConcurrent];
    }
    assert definitions[..|definitions|] == definitions;
  }

  // The resolved limits hold exactly the trimmed ids of the registry, each with its own bound.
  lemma {:induction false} LimitMapEntries(definitions: seq<GroupDefinition>)
    requires KeysDistinct(GroupKey, definitions)
    ensures forall i :: 0 <= i < |definitions| ==>
      definitions[i].groupId in LimitMap(definitions) && LimitMap(definitions)[definitions[i].groupId] == definitions[i].maxConcurrent
    ensures forall g :: g in LimitMap(definitions) ==> exists i :: 0 <= i < |definitions| && definitions[i].groupId == g
  {
    if definitions != [] {
      var n := |definitions| - 1;
      var front, last := definitions[..n], definitions[n];
      LimitMapEntries(front);
      var before, limits := LimitMap(front), LimitMap(definitions);
      assert limits == before[last.groupId := last.maxConcurrent];
      hide *;
      forall i | 0 <= i < n
        ensures definitions[i].groupId in limits && limits[definitions[i].groupId] == definitions[i].maxConcurrent
      {
        assert front[i] == definitions[i];
        assert definitions[i].groupId != last.groupId by { DistinctGroups(definitions, i, n); }
      }
      forall g | g in limits ensures exists i :: 0 <= i < |definitions| && definitions[i].groupId == g {
        if g != last.groupId {
          var i :| 0 <= i < |front| && front[i].groupId == g;
          assert definitions[i].groupId == g;
        } else {
          assert definitions[n].groupId == g;
        }
      }
    }
  }

  lemma DistinctGroups(definitions: seq<GroupDefinition>, i: nat, j: nat)
    requires KeysDistinct(GroupKey, definitions) && i < j < |definitions|
    ensures definitions[i].groupId != definitions[j].groupId
  {
    assert GroupKey(definitions[i]) != GroupKey(definitions[j]);
  }

  // What is wrong with one group definition.
  ghost predicate GroupFault(raw: GroupDefinition, code: Code) {
    match code
    case InvalidGroupId => Blank(raw.groupId)
    case InvalidMaxConcurrent => !(0 <= raw.maxConcurrent <= MAX_SAFE_INTEGER)
    case _ => false
  }

  ghost predicate SoundGroup(raw: GroupDefinition) {
    !Blank(raw.groupId) && 0 <= raw.maxConcurrent <= MAX_SAFE_INTEGER
  }

  // What is wrong with a registry: a faulty definition, or two sound ones of one trimmed id.
  ghost predicate RegistryFault(groups: seq<GroupDefinition>, code: Code) {
    || (exists i :: 0 <= i < |groups| && GroupFault(groups[i], code))
    || (code == DuplicateGroupId && exists i, j :: 0 <= i < j < |groups| && SameSoundGroup(groups[i], groups[j]))
  }

  ghost predicate SameSoundGroup(a: GroupDefinition, b: GroupDefinition) {
    SoundGroup(a) && SoundGroup(b) && Trim(a.groupId) == Trim(b.groupId)
  }

  /** A registry is refused exactly when it has a fault, and then reports exactly its faults; no registry means no groups. */
  lemma RegistryCodes(groups: seq<GroupDefinition>)
    ensures ResolveRegistry(None) == Ok([])
    ensures match ResolveRegistry(Some(groups))
            case Ok(_) => forall code :: !RegistryFault(groups, code)
            case Err(codes) => forall code :: code in codes <==> RegistryFault(groups, code)
  {
    hide Trim, SortBy;
    ParseAllDiagnoses(groups, ExtractGroupDefinition, GroupKey, DuplicateGroupId);
    forall code ensures Diagnosed(groups, ExtractGroupDefinition, GroupKey, DuplicateGroupId, code) <==> RegistryFault(groups, code) {
      RegistryDiagnosed(groups, code);
    }
  }

  lemma RegistryDiagnosed(groups: seq<GroupDefinition>, code: Code)
    ensures Diagnosed(groups, ExtractGroupDefinition, GroupKey, DuplicateGroupId, code) <==> RegistryFault(groups, code)
  {
    hide Trim, ExtractGroupDefinition, SoundGroup, GroupFault, Diagnosed;
    ghost var fault: GroupDefinition -> bool := raw => GroupFault(raw, code);
    var idOf: GroupDefinition -> string := (raw: GroupDefinition) => Trim(raw.groupId);
    forall a: GroupDefinition
      ensures FaultAt(a, ExtractGroupDefinition, GroupKey, code, fault, idOf) && (ExtractGroupDefinition(a).Ok? <==> SoundGroup(a))
    {
      GroupFaultAt(a, code);
    }
    DiagnosedExactly(groups, ExtractGroupDefinition, GroupKey, DuplicateGroupId, code, fault, idOf);
    assert forall a, b :: SameKey(a, b, ExtractGroupDefinition, idOf) <==> SameSoundGroup(a, b);
  }

  lemma GroupFaultAt(raw: GroupDefinition, code: Code)
    ensures match ExtractGroupDefinition(raw)
            case Ok(definition) => SoundGroup(raw) && definition.groupId == Trim(raw.groupId) && !GroupFault(raw, code)
            case Err(codes) => !SoundGroup(raw) && (code in codes <==> GroupFault(raw, code))
  {
    hide Trim;
  }

  lemma ExtractGroupCodes(raw: GroupDefinition)
    ensures ExtractGroupDefinition(raw) != Err([])
  {
  }

  // The sorted definitions are the extracted entries, so each raw entry has one and each one has a raw entry.
  ghost predicate ResolvedFrom(groups: seq<GroupDefinition>, sorted: seq<GroupDefinition>) {
    && KeysDistinct(GroupKey, sorted)
    && (forall i :: 0 <= i < |groups| ==> ExtractGroupDefinition(groups[i]).Ok? && ExtractGroupDefinition(groups[i]).value in sorted)
    && (forall d :: d in sorted ==> exists i :: 0 <= i < |groups| && ExtractGroupDefinition(groups[i]) == Ok(d))
  }

  lemma RegistryEntries(groups: seq<GroupDefinition>, sorted: seq<GroupDefinition>)
    requires ResolveRegistry(Some(groups)) == Ok(sorted)
    ensures ResolvedFrom(groups, sorted)
  {
    hide ExtractGroupDefinition, SortBy, ScanFrom;
    forall g: GroupDefinition { ExtractGroupCodes(g); }
    ParseAllAccepts(groups, ExtractGroupDefinition, GroupKey, DuplicateGroupId);
    var parsed := ParseAll(groups, ExtractGroupDefinition, GroupKey, DuplicateGroupId).value;
    SortBySorted(GroupKey, parsed);
    KeyedSortedDistinct(GroupKey, sorted);
    forall i | 0 <= i < |groups|
      ensures ExtractGroupDefinition(groups[i]).Ok? && ExtractGroupDefinition(groups[i]).value in sorted
    {
      assert ExtractGroupDefinition(groups[i]) == Ok(parsed[i]);
      assert parsed[i] in multiset(sorted);
    }
    forall d | d in sorted ensures exists i :: 0 <= i < |groups| && ExtractGroupDefinition(groups[i]) == Ok(d) {
      assert d in multiset(parsed);
      var i :| 0 <= i < |parsed| && parsed[i] == d;
      assert ExtractGroupDefinition(groups[i]) == Ok(d);
    }
  }

  ghost predicate WrittenAs(groups: seq<GroupDefinition>, g: string, bound: int) {
    exists i :: 0 <= i < |groups| && Trim(groups[i].groupId) == g && groups[i].maxConcurrent == bound
  }

  lemma ResolvedIsWritten(groups: seq<GroupDefinition>, definitions: seq<GroupDefinition>, g: string)
    requires ResolvedFrom(groups, definitions) && g in LimitMap(definitions)
    ensures WrittenAs(groups, g, LimitMap(definitions)[g])
  {
    LimitMapEntries(definitions);
    var j :| 0 <= j < |definitions| && definitions[j].groupId == g;
    var d := definitions[j];
    assert LimitMap(definitions)[d.groupId] == d.maxConcurrent;
    assert d in definitions;
    var i :| 0 <= i < |groups| && ExtractGroupDefinition(groups[i]) == Ok(d);
  }

  lemma WrittenIsResolved(groups: seq<GroupDefinition>, definitions: seq<GroupDefinition>, i: nat)
    requires ResolvedFrom(groups, definitions) && i < |groups|
    ensures Trim(groups[i].groupId) in LimitMap(definitions)
    ensures LimitMap(definitions)[Trim(groups[i].groupId)] == groups[i].maxConcurrent
    ensures CleanId(Trim(groups[i].groupId)) && NonNegativeSafe(groups[i].maxConcurrent)
  {
    LimitMapEntries(definitions);
    var d := ExtractGroupDefinition(groups[i]).value;
    var j :| 0 <= j < |definitions| && definitions[j] == d;
  }

  /** A registry resolves to the bound written beside each trimmed group id, and to nothing else. */
  lemma RegistryLimits(groups: seq<GroupDefinition>, definitions: seq<GroupDefinition>, g: string, bound: int)
    requires ResolveRegistry(Some(groups)) == Ok(definitions)
    ensures g in LimitMap(definitions) && LimitMap(definitions)[g] == bound <==> WrittenAs(groups, g, bound)
    ensures WrittenAs(groups, g, bound) ==> CleanId(g) && NonNegativeSafe(bound)
  {
    RegistryEntries(groups, definitions);
    if g in LimitMap(definitions) { ResolvedIsWritten(groups, definitions, g); }
    if WrittenAs(groups, g, bound) {
      var i :| 0 <= i < |groups| && Trim(groups[i].groupId) == g && groups[i].maxConcurrent == bound;
      WrittenIsResolved(groups, definitions, i);
    }
  }

  // ---------------------------------------------------------------------
  // Stored attempts
  // ---------------------------------------------------------------------

  function AttemptKey(attempt: Attempt): string {
    attempt.attemptId
  }

  function ExtractAttempt(raw: Attempt): Result<Attempt, Codes> {
    var idCodes := if Trim(raw.attemptId) == "" then [InvalidAttemptId] else [];
    match ParseGroupIds(raw.groupIds)
    case Err(codes) => Err(idCodes + codes)
    case Ok(groupIds) => if idCodes == [] then Ok(Attempt(Trim(raw.attemptId), groupIds)) else Err(idCodes)
  }

  function ParseState(attempts: seq<Attempt>): Result<seq<Attempt>, Codes> {
    ParseAll(attempts, ExtractAttempt, AttemptKey, StateDuplicateAttemptId)
  }

  ghost predicate CleanAttempt(attempt: Attempt) {
    CleanId(attempt.attemptId) && CleanGroupIds(attempt.groupIds)
  }

  ghost predicate CleanState(attempts: seq<Attempt>) {
    && (forall a :: a in attempts ==> CleanAttempt(a))
    && KeysDistinct(AttemptKey, attempts)
  }

  lemma ExtractAttemptClean(raw: Attempt)
    ensures ExtractAttempt(raw) != Err([])
    ensures ExtractAttempt(raw).Ok? ==> CleanAttempt(ExtractAttempt(raw).value)
    ensures CleanAttempt(raw) ==> ExtractAttempt(raw) == Ok(raw)
  {
    ParseGroupIdsClean(raw.groupIds);
  }

  /** A parsed state is clean, and a clean state parses to itself: restoring a returned state loses nothing. */
  lemma ParseStateClean(attempts: seq<Attempt>)
    ensures ParseState(attempts) != Err([])
    ensures ParseState(attempts).Ok? ==> CleanState(ParseState(attempts).value)
    ensures CleanState(attempts) ==> ParseState(attempts) == Ok(attempts)
  {
    forall a: Attempt { ExtractAttemptClean(a); }
    ParseAllAccepts(attempts, ExtractAttempt, AttemptKey, StateDuplicateAttemptId);
    if ParseState(attempts).Ok? {
      var clean := ParseState(attempts).value;
      forall a | a in clean ensures CleanAttempt(a) {
        var i :| 0 <= i < |clean| && clean[i] == a;
        assert ExtractAttempt(attempts[i]) == Ok(a);
      }
    }
    if CleanState(attempts) {
      ParseAllIdentity(attempts, ExtractAttempt, AttemptKey, StateDuplicateAttemptId);
    }
  }

  // What is wrong with one stored or submitted attempt.
  ghost predicate AttemptFault(raw: Attempt, code: Code) {
    if code == InvalidAttemptId then Blank(raw.attemptId) else GroupIdFault(raw.groupIds, code)
  }

  ghost predicate SoundAttempt(raw: Attempt) {
    !Blank(raw.attemptId) && NamesGroups(raw.groupIds)
  }

  // The parsed form of an attempt: its trimmed id, and its trimmed group ids in order.
  ghost predicate ParsedAttempt(raw: Attempt, attempt: Attempt) {
    attempt.attemptId == Trim(raw.attemptId) && TrimmedIds(raw.groupIds, attempt.groupIds)
  }

  /** An attempt extracts to its parsed form exactly when it is sound; otherwise it reports exactly its faults. */
  lemma ExtractAttemptExactly(raw: Attempt)
    ensures match ExtractAttempt(raw)
            case Ok(attempt) => SoundAttempt(raw) && ParsedAttempt(raw, attempt)
            case Err(codes) => !SoundAttempt(raw) && forall code :: code in codes <==> AttemptFault(raw, code)
  {
    hide Trim, ParseGroupIds;
    ParseGroupIdsExactly(raw.groupIds);
    if NamesGroups(raw.groupIds) {
      NoGroupFault(raw.groupIds);
    }
  }

  lemma NoGroupFault(raw: seq<string>)
    requires NamesGroups(raw)
    ensures forall code :: !GroupIdFault(raw, code)
  {
    hide Trim;
  }

  // What is wrong with a stored state: a faulty attempt, or two sound ones of one trimmed id.
  ghost predicate StateFault(attempts: seq<Attempt>, code: Code) {
    || (exists i :: 0 <= i < |attempts| && AttemptFault(attempts[i], code))
    || (code == StateDuplicateAttemptId && exists i, j :: 0 <= i < j < |attempts| && SameSoundAttempt(attempts[i], attempts[j]))
  }

  ghost predicate SameSoundAttempt(a: Attempt, b: Attempt) {
    SoundAttempt(a) && SoundAttempt(b) && Trim(a.attemptId) == Trim(b.attemptId)
  }

  /** A state parses to the parsed forms of its attempts, in their order, or reports exactly its faults. */
  lemma ParseStateExactly(attempts: seq<Attempt>)
    ensures match ParseState(attempts)
            case Ok(state) =>
              && |state| == |attempts| && (forall code :: !StateFault(attempts, code))
              && forall i :: 0 <= i < |attempts| ==> ParsedAttempt(attempts[i], state[i])
            case Err(codes) => forall code :: code in codes <==> StateFault(attempts, code)
  {
    hide Trim, ExtractAttempt, ParsedAttempt, CleanAttempt;
    forall a: Attempt { ExtractAttemptClean(a); }
    ParseAllAccepts(attempts, ExtractAttempt, AttemptKey, StateDuplicateAttemptId);
    ParseAllDiagnoses(attempts, ExtractAttempt, AttemptKey, StateDuplicateAttemptId);
    forall i | 0 <= i < |attempts| && ExtractAttempt(attempts[i]).Ok? ensures ParsedAttempt(attempts[i], ExtractAttempt(attempts[i]).value) {
      ExtractAttemptExactly(attempts[i]);
    }
    forall code ensures Diagnosed(attempts, ExtractAttempt, AttemptKey, StateDuplicateAttemptId, code) <==> StateFault(attempts, code) {
      StateDiagnosed(attempts, code);
    }
  }

  lemma StateDiagnosed(attempts: seq<Attempt>, code: Code)
    ensures Diagnosed(attempts, ExtractAttempt, AttemptKey, StateDuplicateAttemptId, code) <==> StateFault(attempts, code)
  {
    hide Trim, ExtractAttempt, SoundAttempt, AttemptFault, Diagnosed;
    ghost var fault: Attempt -> bool := raw => AttemptFault(raw, code);
    var idOf: Attempt -> string := (raw: Attempt) => Trim(raw.attemptId);
    forall a: Attempt
      ensures FaultAt(a, ExtractAttempt, AttemptKey, code, fault, idOf) && (ExtractAttempt(a).Ok? <==> SoundAttempt(a))
    {
      AttemptFaultAt(a, code);
    }
    DiagnosedExactly(attempts, ExtractAttempt, AttemptKey, StateDuplicateAttemptId, code, fault, idOf);
    assert forall a, b :: SameKey(a, b, ExtractAttempt, idOf) <==> SameSoundAttempt(a, b);
  }

  lemma AttemptFaultAt(raw: Attempt, code: Code)
    ensures match ExtractAttempt(raw)
            case Ok(attempt) => SoundAttempt(raw) && attempt.attemptId == Trim(raw.attemptId) && !AttemptFault(raw, code)
            case Err(codes) => !SoundAttempt(raw) && (code in codes <==> AttemptFault(raw, code))
  {
    hide Trim, ExtractAttempt, GroupIdFault;
    ExtractAttemptExactly(raw);
    if SoundAttempt(raw) {
      NoGroupFault(raw.groupIds);
    }
  }

  // ---------------------------------------------------------------------
  // Capacity
  // ---------------------------------------------------------------------

  function InGroup(groupId: string): Attempt -> bool {
    (attempt: Attempt) => groupId in attempt.groupIds
  }

  // The number of active attempts that belong to the group.
  function Active(attempts: seq<Attempt>, groupId: string): nat {
    Count(InGroup(groupId), attempts)
  }

  method CountActiveInGroup(attempts: seq<Attempt>, groupId: string) returns (count: nat)
    ensures count == Active(attempts, groupId)
  {
    count := 0;
    for i := 0 to |attempts|
      invariant count == Active(attempts[..i], groupId)
    {
      assert attempts[..i + 1] == attempts[..i] + [attempts[i]];
      CountConcat(InGroup(groupId), attempts[..i], [attempts[i]]);
      if groupId in attempts[i].groupIds {
        count := count + 1;
      }
    }
    assert attempts[..|attempts|] == attempts;
  }

  predicate KnownGroups(groupIds: seq<string>, limits: Limits) {
    forall g :: g in groupIds ==> g in limits
  }

  // Every group is known and holds fewer attempts than its bound.
  predicate HasCapacity(attempts: seq<Attempt>, groupIds: seq<string>, limits: Limits) {
    forall g :: g in groupIds ==> g in limits && Active(attempts, g) < limits[g]
  }

  // The early-return loop over the candidate's groups.
  method EvaluateKnownGroupCapacity(attempts: seq<Attempt>, groupIds: seq<string>, limits: Limits) returns (ok: bool)
    ensures ok == HasCapacity(attempts, groupIds, limits)
  {
    for i := 0 to |groupIds|
      invariant HasCapacity(attempts, groupIds[..i], limits)
    {
      if groupIds[i] !in limits {
        return false;
      }
      var count := CountActiveInGroup(attempts, groupIds[i]);
      if count >= limits[groupIds[i]] {
        return false;
      }
      assert groupIds[..i + 1] == groupIds[..i] + [groupIds[i]];
    }
    assert groupIds[..|groupIds|] == groupIds;
    return true;
  }

  predicate IsActive(attempts: seq<Attempt>, attemptId: string) {
    HasKey(AttemptKey, attempts, attemptId)
  }

  // Duplicate identity first, then unknown membership, then capacity.
  function EvaluateAdmission(attempts: seq<Attempt>, attempt: Attempt, limits: Limits): Option<Code> {
    if IsActive(attempts, attempt.attemptId) then Some(DuplicateAttempt)
    else if !KnownGroups(attempt.groupIds, limits) then Some(UnknownGroup)
    else if !HasCapacity(attempts, attempt.groupIds, limits) then Some(GroupLimit)
    else None
  }

  // The occupancy after one admission: pushed, then sorted by attempt id.
  function Admitted(attempts: seq<Attempt>, attempt: Attempt): seq<Attempt> {
    SortBy(AttemptKey, attempts + [attempt])
  }

  function AdmitGroupAttempt(attempts: seq<Attempt>, candidate: Attempt, registry: Option<seq<GroupDefinition>>): Result<seq<Attempt>, Codes> {
    match ResolveRegistry(registry)
    case Err(codes) => Err(codes)
    case Ok(definitions) =>
      match ParseState(attempts)
      case Err(codes) => Err(codes)
      case Ok(state) =>
        match ExtractAttempt(candidate)
        case Err(codes) => Err(codes)
        case Ok(attempt) =>
          match EvaluateAdmission(state, attempt, LimitMap(definitions))
          case Some(code) => Err([code])
          case None => Ok(Admitted(state, attempt))
  }

  /** The admission as it runs: check on the parsed state, push onto a copy, sort the copy by id. */
  method AdmitOntoCopy(attempts: seq<Attempt>, candidate: Attempt, registry: Option<seq<GroupDefinition>>) returns (r: Result<seq<Attempt>, Codes>)
    ensures r == AdmitGroupAttempt(attempts, candidate, registry)
  {
    hide ResolveRegistry, ParseAll, ExtractAttempt, SortBy, LimitMap;
    var definitions, attempt := ResolveRegistry(registry), ExtractAttempt(candidate);
    var parsed := ParseUnique(attempts, ExtractAttempt, AttemptKey, StateDuplicateAttemptId);
    if definitions.Err? {
      return Err(definitions.error);
    }
    if parsed.Err? {
      return Err(parsed.error);
    }
    if attempt.Err? {
      return Err(attempt.error);
    }
    var limits := BuildLimitMap(definitions.value);
    var next := parsed.value;
    if IsActive(next, attempt.value.attemptId) {
      return Err([DuplicateAttempt]);
    }
    if !KnownGroups(attempt.value.groupIds, limits) {
      return Err([UnknownGroup]);
    }
    var fits := EvaluateKnownGroupCapacity(next, attempt.value.groupIds, limits);
    if !fits {
      return Err([GroupLimit]);
    }
    next := next + [attempt.value];
    next := SortBy(AttemptKey, next);
    return Ok(next);
  }

  // The remaining state, and whether an attempt was released.
  function ReleaseGroupAttempt(attempts: seq<Attempt>, attemptId: string): Result<(seq<Attempt>, bool), Codes> {
    match ParseState(attempts)
    case Err(codes) => Err(codes)
    case Ok(state) =>
      if Trim(attemptId) == "" then Ok((state, false))
      else
        var remaining := Filter(OtherThan(Trim(attemptId)), state);
        Ok((remaining, |remaining| != |state|))
  }

  // ---------------------------------------------------------------------
  // One admission
  // ---------------------------------------------------------------------

  lemma IsActiveMember(attempts: seq<Attempt>, id: string)
    ensures IsActive(attempts, id) <==> exists a :: a in attempts && a.attemptId == id
  {
    HasKeyMember(AttemptKey, attempts, id);
  }

  lemma AdmittedKeys(attempts: seq<Attempt>, attempt: Attempt)
    requires KeysDistinct(AttemptKey, attempts) && !IsActive(attempts, attempt.attemptId)
    ensures KeyedSorted(AttemptKey, Admitted(attempts, attempt))
    ensures multiset(Admitted(attempts, attempt)) == multiset(attempts) + multiset{attempt}
    ensures |Admitted(attempts, attempt)| == |attempts| + 1
  {
    InsertedKeys(AttemptKey, attempts, attempt);
  }

  // An admission adds one to exactly the groups of the admitted attempt.
  lemma AdmittedCount(attempts: seq<Attempt>, attempt: Attempt, g: string)
    ensures Active(Admitted(attempts, attempt), g) == Active(attempts, g) + (if g in attempt.groupIds then 1 else 0)
  {
    CountPermutation(InGroup(g), Admitted(attempts, attempt), attempts + [attempt]);
    CountConcat(InGroup(g), attempts, [attempt]);
  }

  lemma AdmittedMembers(attempts: seq<Attempt>, attempt: Attempt)
    ensures forall a :: a in Admitted(attempts, attempt) <==> a in attempts || a == attempt
  {
    InsertedMembers(AttemptKey, attempts, attempt);
  }

  lemma AdmittedActive(attempts: seq<Attempt>, attempt: Attempt, id: string)
    ensures IsActive(Admitted(attempts, attempt), id) <==> IsActive(attempts, id) || id == attempt.attemptId
  {
    AdmittedMembers(attempts, attempt);
    IsActiveMember(attempts, id);
    IsActiveMember(Admitted(attempts, attempt), id);
  }

  lemma AdmittedClean(attempts: seq<Attempt>, attempt: Attempt)
    requires CleanState(attempts) && CleanAttempt(attempt) && !IsActive(attempts, attempt.attemptId)
    ensures CleanState(Admitted(attempts, attempt)) && KeyedSorted(AttemptKey, Admitted(attempts, attempt))
  {
    AdmittedKeys(attempts, attempt);
    AdmittedMembers(attempts, attempt);
    KeyedSortedDistinct(AttemptKey, Admitted(attempts, attempt));
  }

  // What an admission does once every input has parsed.
  lemma AdmitCleanInputs(attempts: seq<Attempt>, attempt: Attempt, registry: Option<seq<GroupDefinition>>, definitions: seq<GroupDefinition>)
    requires CleanState(attempts) && CleanAttempt(attempt) && ResolveRegistry(registry) == Ok(definitions)
    ensures AdmitGroupAttempt(attempts, attempt, registry) ==
      match EvaluateAdmission(attempts, attempt, LimitMap(definitions))
      case Some(code) => Err([code])
      case None => Ok(Admitted(attempts, attempt))
  {
    ParseStateClean(attempts);
    ExtractAttemptClean(attempt);
  }

  /**
   * A well-formed admission into a well-formed state is refused exactly for a
   * duplicate identity, else an unknown group, else a full group; otherwise the
   * attempt is added.
   */
  lemma AdmitRefusal(attempts: seq<Attempt>, attempt: Attempt, registry: Option<seq<GroupDefinition>>, definitions: seq<GroupDefinition>)
    requires CleanState(attempts) && CleanAttempt(attempt) && ResolveRegistry(registry) == Ok(definitions)
    ensures var limits := LimitMap(definitions);
      var duplicate := exists a :: a in attempts && a.attemptId == attempt.attemptId;
      var unknown := exists g :: g in attempt.groupIds && g !in limits;
      var full := exists g :: g in attempt.groupIds && g in limits && Active(attempts, g) >= limits[g];
      var r := AdmitGroupAttempt(attempts, attempt, registry);
      if duplicate then r == Err([DuplicateAttempt])
      else if unknown then r == Err([UnknownGroup])
      else if full then r == Err([GroupLimit])
      else r.Ok? && multiset(r.value) == multiset(attempts) + multiset{attempt} && KeyedSorted(AttemptKey, r.value)
  {
    hide AdmitGroupAttempt, LimitMap, Active, ResolveRegistry, Admitted, KeyedSorted;
    AdmitCleanInputs(attempts, attempt, registry, definitions);
    IsActiveMember(attempts, attempt.attemptId);
    if !IsActive(attempts, attempt.attemptId) {
      AdmittedKeys(attempts, attempt);
    }
  }

  /** An admission with malformed input reports what is wrong with the registry, else with the state, else with the attempt. */
  lemma AdmitReportsFirst(attempts: seq<Attempt>, candidate: Attempt, registry: Option<seq<GroupDefinition>>)
    ensures var r := AdmitGroupAttempt(attempts, candidate, registry);
      match (ResolveRegistry(registry), ParseState(attempts), ExtractAttempt(candidate))
      case (Err(codes), _, _) => r == Err(codes)
      case (_, Err(codes), _) => r == Err(codes)
      case (_, _, Err(codes)) => r == Err(codes)
      case (_, Ok(state), Ok(attempt)) => r == AdmitGroupAttempt(state, attempt, registry)
  {
    hide ResolveRegistry, ParseState, ExtractAttempt, EvaluateAdmission, Admitted;
    if ParseState(attempts).Ok? && ExtractAttempt(candidate).Ok? {
      ParseStateClean(attempts);
      ParseStateClean(ParseState(attempts).value);
      ExtractAttemptClean(candidate);
      ExtractAttemptClean(ExtractAttempt(candidate).value);
    }
  }

  function OtherThan(id: string): Attempt -> bool {
    OtherKeys(AttemptKey, id)
  }

  /** Releasing what was just admitted restores the state up to order, and exactly when it was in id order. */
  lemma ReleaseUndoesAdmit(attempts: seq<Attempt>, attempt: Attempt, registry: Option<seq<GroupDefinition>>, definitions: seq<GroupDefinition>)
    requires CleanState(attempts) && CleanAttempt(attempt) && ResolveRegistry(registry) == Ok(definitions)
    requires AdmitGroupAttempt(attempts, attempt, registry).Ok?
    ensures var released := ReleaseGroupAttempt(AdmitGroupAttempt(attempts, attempt, registry).value, attempt.attemptId);
      && released.Ok? && released.value.1
      && multiset(released.value.0) == multiset(attempts)
      && (KeyedSorted(AttemptKey, attempts) ==> released.value.0 == attempts)
  {
    AdmitCleanInputs(attempts, attempt, registry, definitions);
    var admitted := Admitted(attempts, attempt);
    AdmittedKeys(attempts, attempt);
    AdmittedClean(attempts, attempt);
    ParseStateClean(admitted);
    RemoveInserted(AttemptKey, attempts, attempt);
    var remaining := Filter(OtherThan(attempt.attemptId), admitted);
    assert |remaining| == |multiset(remaining)| == |multiset(attempts)| == |attempts|;
    if KeyedSorted(AttemptKey, attempts) {
      RemoveInsertedSorted(AttemptKey, attempts, attempt);
    }
  }

  /**
   * A release takes out the one attempt with the trimmed id, leaves the others in place,
   * and reports whether there was one; an id that is not active changes nothing.
   */
  lemma ReleaseExactly(attempts: seq<Attempt>, attemptId: string)
    ensures match ParseState(attempts)
            case Err(codes) => ReleaseGroupAttempt(attempts, attemptId) == Err(codes)
            case Ok(state) =>
              && ((forall k :: 0 <= k < |state| ==> state[k].attemptId != Trim(attemptId)) ==>
                    ReleaseGroupAttempt(attempts, attemptId) == Ok((state, false)))
              && (forall k :: 0 <= k < |state| && state[k].attemptId == Trim(attemptId) ==>
                    ReleaseGroupAttempt(attempts, attemptId) == Ok((state[..k] + state[k + 1..], true)))
  {
    hide Trim, ParseState;
    if ParseState(attempts).Ok? {
      var state := ParseState(attempts).value;
      ParseStateClean(attempts);
      if forall k :: 0 <= k < |state| ==> state[k].attemptId != Trim(attemptId) {
        KeepsOthers(AttemptKey, state, Trim(attemptId));
      }
      forall k | 0 <= k < |state| && state[k].attemptId == Trim(attemptId)
        ensures ReleaseGroupAttempt(attempts, attemptId) == Ok((state[..k] + state[k + 1..], true))
      {
        assert state[k] in state && CleanAttempt(state[k]);
        RemovesOnly(AttemptKey, state, k);
      }
    }
  }

  // ---------------------------------------------------------------------
  // All runs
  // ---------------------------------------------------------------------

  datatype Operation = Admit(attempt: Attempt) | Release(attemptId: string)

  // The state of a run with the number of accepted admits and effective releases so far.
  datatype Tally = Tally(state: seq<Attempt>, admits: nat, releases: nat)

  function Perform(tally: Tally, operation: Operation, registry: Option<seq<GroupDefinition>>): Tally {
    match operation
    case Admit(attempt) => (
      match AdmitGroupAttempt(tally.state, attempt, registry)
      case Err(_) => tally
      case Ok(state) => Tally(state, tally.admits + 1, tally.releases))
    case Release(attemptId) =>
      match ReleaseGroupAttempt(tally.state, attemptId)
      case Err(_) => tally
      case Ok((state, released)) => Tally(state, tally.admits, tally.releases + if released then 1 else 0)
  }

  function Run(operations: seq<Operation>, registry: Option<seq<GroupDefinition>>): Tally {
    if operations == [] then Tally([], 0, 0)
    else
      var n := |operations| - 1;
      Perform(Run(operations[..n], registry), operations[n], registry)
  }

  ghost predicate WithinCapacity(attempts: seq<Attempt>, limits: Limits) {
    forall g :: Active(attempts, g) > 0 ==> g in limits && Active(attempts, g) <= limits[g]
  }

  ghost predicate TallyInvariant(tally: Tally, limits: Limits) {
    && CleanState(tally.state) && KeyedSorted(AttemptKey, tally.state)
    && WithinCapacity(tally.state, limits)
    && |tally.state| == tally.admits - tally.releases
  }

  lemma AdmitKeepsInvariant(tally: Tally, attempt: Attempt, limits: Limits)
    requires TallyInvariant(tally, limits) && CleanAttempt(attempt) && EvaluateAdmission(tally.state, attempt, limits) == None
    ensures TallyInvariant(Tally(Admitted(tally.state, attempt), tally.admits + 1, tally.releases), limits)
  {
    var next := Admitted(tally.state, attempt);
    AdmittedKeys(tally.state, attempt);
    AdmittedClean(tally.state, attempt);
    forall g | Active(next, g) > 0 ensures g in limits && Active(next, g) <= limits[g] {
      AdmittedCount(tally.state, attempt, g);
    }
  }

  lemma ReleaseKeepsInvariant(tally: Tally, id: string, limits: Limits)
    requires TallyInvariant(tally, limits)
    ensures var remaining := Filter(OtherThan(id), tally.state);
      TallyInvariant(Tally(remaining, tally.admits, tally.releases + if |remaining| != |tally.state| then 1 else 0), limits)
  {
    var remaining := Filter(OtherThan(id), tally.state);
    FilterKeyedSorted(AttemptKey, OtherThan(id), tally.state);
    KeyedSortedDistinct(AttemptKey, remaining);
    RemoveOne(AttemptKey, tally.state, id);
    forall g | Active(remaining, g) > 0 ensures g in limits && Active(remaining, g) <= limits[g] {
      FilterCountBound(OtherThan(id), InGroup(g), tally.state);
    }
  }

  lemma PerformKeepsInvariant(tally: Tally, operation: Operation, registry: Option<seq<GroupDefinition>>, definitions: seq<GroupDefinition>)
    requires ResolveRegistry(registry) == Ok(definitions)
    requires TallyInvariant(tally, LimitMap(definitions))
    ensures TallyInvariant(Perform(tally, operation, registry), LimitMap(definitions))
  {
    ParseStateClean(tally.state);
    match operation {
      case Admit(raw) =>
        ExtractAttemptClean(raw);
        if AdmitGroupAttempt(tally.state, raw, registry).Ok? {
          AdmitKeepsInvariant(tally, ExtractAttempt(raw).value, LimitMap(definitions));
        }
      case Release(attemptId) =>
        if Trim(attemptId) != "" {
          ReleaseKeepsInvariant(tally, Trim(attemptId), LimitMap(definitions));
        }
    }
  }

  /**
   * After any sequence of admits and releases from the empty state, accepted or
   * not: ids are unique, no group holds more than its bound or is unknown, and
   * the size is the accepted admits minus the effective releases.
   */
  lemma {:induction false} CapacityOverAllRuns(operations: seq<Operation>, registry: Option<seq<GroupDefinition>>, definitions: seq<GroupDefinition>)
    requires ResolveRegistry(registry) == Ok(definitions)
    ensures TallyInvariant(Run(operations, registry), LimitMap(definitions))
  {
    if operations != [] {
      var n := |operations| - 1;
      CapacityOverAllRuns(operations[..n], registry, definitions);
      PerformKeepsInvariant(Run(operations[..n], registry), operations[n], registry, definitions);
    }
  }
}
