/** Global and per-executor limits on concurrent attempts: resolution, admission and release. */
module ConcurrencyLimits {
  import opened Wrappers
  import opened Text
  import opened Counting
  import opened KeyedRecords
  import opened Ordinals
  import opened RecordLists

  const SCHEMA_VERSION := 1
  const DEFAULT_GLOBAL_CONCURRENCY := 2
  const EXECUTOR_KINDS := ["current-session", "isolated-pi", "acp", "cli", "deterministic"]

  datatype Code =
    | InvalidBound | InvalidExecutorKind | InvalidAttemptId | InvalidProfileId
    | UnsupportedSchema | StateDuplicateAttemptId | DuplicateAttempt | GlobalLimit | ExecutorLimit

  type Codes = seq<Code>

  // Unchecked limits; the per-kind record has unique keys.
  datatype RawLimits = RawLimits(globalConcurrency: Option<int>, perExecutorKind: Option<seq<(string, int)>>)
  datatype Limits = Limits(globalConcurrency: int, perExecutorKind: map<string, int>)

  datatype Attempt = Attempt(attemptId: string, executorKind: string, profileId: Option<string>)
  datatype State = State(schemaVersion: int, attempts: seq<Attempt>)

  // ---------------------------------------------------------------------
  // Limits
  // ---------------------------------------------------------------------

  predicate BoundOk(entry: (string, int)) {
    entry.0 in EXECUTOR_KINDS && NonNegativeSafe(entry.1)
  }

  // The first entry that is refused stops the loop.
  function ResolveKinds(entries: seq<(string, int)>, bounds: map<string, int>): Result<map<string, int>, Codes> {
    if entries == [] then Ok(bounds)
    else if entries[0].0 !in EXECUTOR_KINDS then Err([InvalidExecutorKind])
    else if !NonNegativeSafe(entries[0].1) then Err([InvalidBound])
    else ResolveKinds(entries[1..], bounds[entries[0].0 := entries[0].1])
  }

  function ResolvedLimits(raw: Option<RawLimits>): Result<Limits, Codes> {
    if raw.None? then Ok(Limits(DEFAULT_GLOBAL_CONCURRENCY, map[]))
    else
      var global := raw.value.globalConcurrency.GetOr(DEFAULT_GLOBAL_CONCURRENCY);
      if !NonNegativeSafe(global) then Err([InvalidBound])
      else
        match ResolveKinds(raw.value.perExecutorKind.GetOr([]), map[])
        case Err(codes) => Err(codes)
        case Ok(bounds) => Ok(Limits(global, bounds))
  }

  method ResolveConcurrencyLimits(raw: Option<RawLimits>) returns (r: Result<Limits, Codes>)
    ensures r == ResolvedLimits(raw)
  {
    if raw.None? {
      return Ok(Limits(DEFAULT_GLOBAL_CONCURRENCY, map[]));
    }
    var global := raw.value.globalConcurrency.GetOr(DEFAULT_GLOBAL_CONCURRENCY);
    if !NonNegativeSafe(global) {
      return Err([InvalidBound]);
    }
    var perExecutorKind: map<string, int> := map[];
    var entries := raw.value.perExecutorKind.GetOr([]);
    for i := 0 to |entries|
      invariant ResolveKinds(entries[i..], perExecutorKind) == ResolveKinds(entries, map[])
    {
      assert entries[i..][0] == entries[i] && entries[i..][1..] == entries[i + 1..];
      if entries[i].0 !in EXECUTOR_KINDS {
        return Err([InvalidExecutorKind]);
      }
      if !NonNegativeSafe(entries[i].1) {
        return Err([InvalidBound]);
      }
      perExecutorKind := perExecutorKind[entries[i].0 := entries[i].1];
    }
    return Ok(Limits(global, perExecutorKind));
  }

  // A kind without its own bound inherits the global one.
  function KindLimit(limits: Limits, kind: string): int {
    if kind in limits.perExecutorKind then limits.perExecutorKind[kind] else limits.globalConcurrency
  }

  ghost predicate UniqueKinds(entries: seq<(string, int)>) {
    forall i, j :: 0 <= i < j < |entries| ==> entries[i].0 != entries[j].0
  }

  lemma {:induction false} ResolveKindsMeaning(entries: seq<(string, int)>, bounds: map<string, int>, kind: string)
    requires UniqueKinds(entries)
    requires forall i :: 0 <= i < |entries| ==> entries[i].0 !in bounds
    ensures ResolveKinds(entries, bounds).Ok? <==> forall i :: 0 <= i < |entries| ==> BoundOk(entries[i])
    ensures ResolveKinds(entries, bounds).Ok? ==>
      var resolved := ResolveKinds(entries, bounds).value;
      && (forall i :: 0 <= i < |entries| && entries[i].0 == kind ==> kind in resolved && resolved[kind] == entries[i].1)
      && ((forall i :: 0 <= i < |entries| ==> entries[i].0 != kind) ==>
            (kind in resolved <==> kind in bounds) && (kind in bounds ==> resolved[kind] == bounds[kind]))
  {
    if entries != [] && BoundOk(entries[0]) {
      var rest := entries[1..];
      assert forall i :: 1 <= i < |entries| ==> entries[i] == rest[i - 1];
      forall i | 0 <= i < |rest| ensures rest[i].0 !in bounds[entries[0].0 := entries[0].1] {
        assert rest[i] == entries[i + 1];
      }
      forall i, j | 0 <= i < j < |rest| ensures rest[i].0 != rest[j].0 {
        assert rest[i] == entries[i + 1] && rest[j] == entries[j + 1];
      }
      ResolveKindsMeaning(rest, bounds[entries[0].0 := entries[0].1], kind);
      assert entries == [entries[0]] + rest;
    }
  }

  /**
   * Limits resolve exactly when the global bound and every entry are safe and every
   * kind is known; a listed kind then has its own bound and every other kind the
   * global one, which is two where nothing is configured.
   */
  lemma LimitsMeaning(raw: RawLimits, kind: string)
    requires UniqueKinds(raw.perExecutorKind.GetOr([]))
    ensures var entries := raw.perExecutorKind.GetOr([]);
      && (ResolvedLimits(Some(raw)).Ok? <==>
            NonNegativeSafe(raw.globalConcurrency.GetOr(2)) && forall i :: 0 <= i < |entries| ==> BoundOk(entries[i]))
      && (ResolvedLimits(Some(raw)).Ok? ==>
            var limit := KindLimit(ResolvedLimits(Some(raw)).value, kind);
            && (forall i :: 0 <= i < |entries| && entries[i].0 == kind ==> limit == entries[i].1)
            && ((forall i :: 0 <= i < |entries| ==> entries[i].0 != kind) ==> limit == raw.globalConcurrency.GetOr(2)))
  {
    ResolveKindsMeaning(raw.perExecutorKind.GetOr([]), map[], kind);
  }

  // Entry i is the first that is not good.
  ghost predicate FirstBad(entries: seq<(string, int)>, i: nat) {
    i < |entries| && !BoundOk(entries[i]) && forall j :: 0 <= j < i ==> BoundOk(entries[j])
  }

  lemma {:induction false} FirstBadRefuses(entries: seq<(string, int)>, bounds: map<string, int>, i: nat)
    requires FirstBad(entries, i)
    ensures ResolveKinds(entries, bounds) == Err([if entries[i].0 in EXECUTOR_KINDS then InvalidBound else InvalidExecutorKind])
  {
    if i > 0 {
      assert BoundOk(entries[0]);
      forall j | 0 <= j < i - 1 ensures BoundOk(entries[1..][j]) {
        assert entries[1..][j] == entries[j + 1];
      }
      FirstBadRefuses(entries[1..], bounds[entries[0].0 := entries[0].1], i - 1);
    }
  }

  /** Refused limits report the global bound, else the first entry that is not good: its kind, else its bound. */
  lemma LimitsCodes(raw: RawLimits)
    ensures ResolvedLimits(None) == Ok(Limits(2, map[]))
    ensures !NonNegativeSafe(raw.globalConcurrency.GetOr(2)) ==> ResolvedLimits(Some(raw)) == Err([InvalidBound])
    ensures var entries := raw.perExecutorKind.GetOr([]);
      NonNegativeSafe(raw.globalConcurrency.GetOr(2)) ==> forall i: nat :: FirstBad(entries, i) ==>
        ResolvedLimits(Some(raw)) == Err([if entries[i].0 in EXECUTOR_KINDS then InvalidBound else InvalidExecutorKind])
  {
    var entries := raw.perExecutorKind.GetOr([]);
    forall i: nat | FirstBad(entries, i)
      ensures ResolveKinds(entries, map[]) == Err([if entries[i].0 in EXECUTOR_KINDS then InvalidBound else InvalidExecutorKind])
    {
      FirstBadRefuses(entries, map[], i);
    }
  }

  // ---------------------------------------------------------------------
  // Parsing
  // ---------------------------------------------------------------------

  function AttemptKey(attempt: Attempt): string {
    attempt.attemptId
  }

  function ExtractAttempt(raw: Attempt): Result<Attempt, Codes> {
    var codes :=
      (if Blank(raw.attemptId) then [InvalidAttemptId] else [])
      + (if raw.executorKind !in EXECUTOR_KINDS then [InvalidExecutorKind] else [])
      + (if raw.profileId.Some? && Blank(raw.profileId.value) then [InvalidProfileId] else []);
    if codes != [] then Err(codes)
    else
      var profileId := if raw.profileId.Some? then Some(Trim(raw.profileId.value)) else None;
      Ok(Attempt(Trim(raw.attemptId), raw.executorKind, profileId))
  }

  function ParseState(state: State): Result<seq<Attempt>, Codes> {
    if state.schemaVersion != SCHEMA_VERSION then Err([UnsupportedSchema])
    else ParseAll(state.attempts, ExtractAttempt, AttemptKey, StateDuplicateAttemptId)
  }

  ghost predicate CleanAttempt(attempt: Attempt) {
    && CleanId(attempt.attemptId) && attempt.executorKind in EXECUTOR_KINDS
    && (attempt.profileId.Some? ==> CleanId(attempt.profileId.value))
  }

  ghost predicate CleanAttempts(attempts: seq<Attempt>) {
    && (forall a :: a in attempts ==> CleanAttempt(a))
    && KeysDistinct(AttemptKey, attempts)
  }

  lemma ExtractAttemptClean(raw: Attempt)
    ensures ExtractAttempt(raw) != Err([])
    ensures ExtractAttempt(raw).Ok? ==> CleanAttempt(ExtractAttempt(raw).value)
    ensures CleanAttempt(raw) ==> ExtractAttempt(raw) == Ok(raw)
  {
  }

  lemma ParseStateClean(attempts: seq<Attempt>)
    ensures ParseState(State(SCHEMA_VERSION, attempts)).Ok? ==> CleanAttempts(ParseState(State(SCHEMA_VERSION, attempts)).value)
    ensures CleanAttempts(attempts) ==> ParseState(State(SCHEMA_VERSION, attempts)) == Ok(attempts)
  {
    hide ExtractAttempt;
    forall a: Attempt { ExtractAttemptClean(a); }
    ParseAllAccepts(attempts, ExtractAttempt, AttemptKey, StateDuplicateAttemptId);
    var parsed := ParseAll(attempts, ExtractAttempt, AttemptKey, StateDuplicateAttemptId);
    if parsed.Ok? {
      forall a | a in parsed.value ensures CleanAttempt(a) {
        var i :| 0 <= i < |parsed.value| && parsed.value[i] == a;
        assert ExtractAttempt(attempts[i]) == Ok(a);
      }
    }
    if CleanAttempts(attempts) {
      ParseAllIdentity(attempts, ExtractAttempt, AttemptKey, StateDuplicateAttemptId);
    }
  }

  // What is wrong with one attempt.
  ghost predicate AttemptFault(raw: Attempt, code: Code) {
    match code
    case InvalidAttemptId => Blank(raw.attemptId)
    case InvalidExecutorKind => raw.executorKind !in EXECUTOR_KINDS
    case InvalidProfileId => raw.profileId.Some? && Blank(raw.profileId.value)
    case _ => false
  }

  ghost predicate SoundAttempt(raw: Attempt) {
    forall code :: !AttemptFault(raw, code)
  }

  // The parsed form of an attempt: its texts trimmed.
  ghost predicate ParsedAttempt(raw: Attempt, attempt: Attempt) {
    && attempt.attemptId == Trim(raw.attemptId) && attempt.executorKind == raw.executorKind
    && attempt.profileId == if raw.profileId.None? then None else Some(Trim(raw.profileId.value))
  }

  /** An attempt extracts to its parsed form exactly when it is sound; otherwise it reports exactly its faults. */
  lemma ExtractAttemptExactly(raw: Attempt)
    ensures match ExtractAttempt(raw)
            case Ok(attempt) => SoundAttempt(raw) && ParsedAttempt(raw, attempt)
            case Err(codes) => !SoundAttempt(raw) && forall code :: code in codes <==> AttemptFault(raw, code)
  {
    hide Trim;
    assert AttemptFault(raw, InvalidAttemptId) <==> Blank(raw.attemptId);
    assert AttemptFault(raw, InvalidExecutorKind) <==> raw.executorKind !in EXECUTOR_KINDS;
    assert AttemptFault(raw, InvalidProfileId) <==> raw.profileId.Some? && Blank(raw.profileId.value);
  }

  // What is wrong with a list of attempts: a faulty one, or two sound ones of one trimmed id.
  ghost predicate AttemptsFault(attempts: seq<Attempt>, code: Code) {
    || (exists i :: 0 <= i < |attempts| && AttemptFault(attempts[i], code))
    || (code == StateDuplicateAttemptId && exists i, j :: 0 <= i < j < |attempts| && SameSoundAttempt(attempts[i], attempts[j]))
  }

  ghost predicate SameSoundAttempt(a: Attempt, b: Attempt) {
    SoundAttempt(a) && SoundAttempt(b) && Trim(a.attemptId) == Trim(b.attemptId)
  }

  /** A state of the supported schema parses to the parsed forms of its attempts, or reports exactly their faults. */
  lemma ParseStateExactly(state: State)
    ensures state.schemaVersion != 1 ==> ParseState(state) == Err([UnsupportedSchema])
    ensures state.schemaVersion == 1 ==>
      match ParseState(state)
      case Ok(attempts) =>
        && |attempts| == |state.attempts| && (forall code :: !AttemptsFault(state.attempts, code))
        && forall i :: 0 <= i < |attempts| ==> ParsedAttempt(state.attempts[i], attempts[i])
      case Err(codes) => forall code :: code in codes <==> AttemptsFault(state.attempts, code)
  {
    hide Trim, ExtractAttempt, ParsedAttempt, CleanAttempt;
    var attempts := state.attempts;
    forall a: Attempt { ExtractAttemptClean(a); }
    ParseAllAccepts(attempts, ExtractAttempt, AttemptKey, StateDuplicateAttemptId);
    ParseAllDiagnoses(attempts, ExtractAttempt, AttemptKey, StateDuplicateAttemptId);
    forall i | 0 <= i < |attempts| && ExtractAttempt(attempts[i]).Ok? ensures ParsedAttempt(attempts[i], ExtractAttempt(attempts[i]).value) {
      ExtractAttemptExactly(attempts[i]);
    }
    forall code ensures Diagnosed(attempts, ExtractAttempt, AttemptKey, StateDuplicateAttemptId, code) <==> AttemptsFault(attempts, code) {
      AttemptsDiagnosed(attempts, code);
    }
  }

  lemma AttemptsDiagnosed(attempts: seq<Attempt>, code: Code)
    ensures Diagnosed(attempts, ExtractAttempt, AttemptKey, StateDuplicateAttemptId, code) <==> AttemptsFault(attempts, code)
  {
    hide Trim, ExtractAttempt, SoundAttempt, AttemptFault, Diagnosed;
    ghost var fault: Attempt -> bool := raw => AttemptFault(raw, code);
    var idOf: Attempt -> string := (raw: Attempt) => Trim(raw.attemptId);
    forall a: Attempt
      ensures FaultAt(a, ExtractAttempt, AttemptKey, code, fault, idOf) && (ExtractAttempt(a).Ok? <==> SoundAttempt(a))
    {
      AttemptFaultAt(a, code);
    }
    DiagnosedExactly(attempts, ExtractAttempt, AttemptKey, StateDuplicateAttemptId, code, fault, idOf);
    assert forall a, b :: SameKey(a, b, ExtractAttempt, idOf) <==> SameSoundAttempt(a, b);
  }

  lemma AttemptFaultAt(raw: Attempt, code: Code)
    ensures match ExtractAttempt(raw)
            case Ok(attempt) => SoundAttempt(raw) && attempt.attemptId == Trim(raw.attemptId) && !AttemptFault(raw, code)
            case Err(codes) => !SoundAttempt(raw) && (code in codes <==> AttemptFault(raw, code))
  {
    hide Trim, ExtractAttempt;
    ExtractAttemptExactly(raw);
  }

  // ---------------------------------------------------------------------
  // Admission and release
  // ---------------------------------------------------------------------

  function OfKind(kind: string): Attempt -> bool {
    (attempt: Attempt) => attempt.executorKind == kind
  }

  function ActiveOfKind(attempts: seq<Attempt>, kind: string): nat {
    Count(OfKind(kind), attempts)
  }

  // Duplicate identity first, then the global bound, then the bound of the kind.
  function EvaluateAdmission(attempts: seq<Attempt>, attempt: Attempt, limits: Limits): Option<Code> {
    if HasKey(AttemptKey, attempts, attempt.attemptId) then Some(DuplicateAttempt)
    else if |attempts| >= limits.globalConcurrency then Some(GlobalLimit)
    else if ActiveOfKind(attempts, attempt.executorKind) >= KindLimit(limits, attempt.executorKind) then Some(ExecutorLimit)
    else None
  }

  datatype Inputs = Inputs(attempts: seq<Attempt>, attempt: Attempt, limits: Limits)

  function ParseInputs(state: State, candidate: Attempt, limits: Option<RawLimits>): Result<Inputs, Codes> {
    match ResolvedLimits(limits)
    case Err(codes) => Err(codes)
    case Ok(resolved) =>
      match ParseState(state)
      case Err(codes) => Err(codes)
      case Ok(attempts) =>
        match ExtractAttempt(candidate)
        case Err(codes) => Err(codes)
        case Ok(attempt) => Ok(Inputs(attempts, attempt, resolved))
  }

  function CanAdmitAttempt(state: State, candidate: Attempt, limits: Option<RawLimits>): Codes {
    match ParseInputs(state, candidate, limits)
    case Err(codes) => codes
    case Ok(inputs) =>
      match EvaluateAdmission(inputs.attempts, inputs.attempt, inputs.limits)
      case Some(code) => [code]
      case None => []
  }

  function AdmitOutcome(state: State, candidate: Attempt, limits: Option<RawLimits>): Result<State, Codes> {
    match ParseInputs(state, candidate, limits)
    case Err(codes) => Err(codes)
    case Ok(inputs) =>
      match EvaluateAdmission(inputs.attempts, inputs.attempt, inputs.limits)
      case Some(code) => Err([code])
      case None => Ok(State(SCHEMA_VERSION, SortBy(AttemptKey, inputs.attempts + [inputs.attempt])))
  }

  /** Push onto a copy of the parsed attempts, then sort the copy by id. */
  method AdmitAttempt(state: State, candidate: Attempt, limits: Option<RawLimits>) returns (r: Result<State, Codes>)
    ensures r == AdmitOutcome(state, candidate, limits)
    ensures r.Ok? <==> CanAdmitAttempt(state, candidate, limits) == []
  {
    hide EvaluateAdmission, SortBy, ResolvedLimits, ParseState, ExtractAttempt;
    InputCodes(state, candidate, limits);
    var parsed := ParseInputs(state, candidate, limits);
    if parsed.Err? {
      return Err(parsed.error);
    }
    var check := EvaluateAdmission(parsed.value.attempts, parsed.value.attempt, parsed.value.limits);
    if check.Some? {
      return Err([check.value]);
    }
    var attempts := parsed.value.attempts;
    attempts := attempts + [parsed.value.attempt];
    attempts := SortBy(AttemptKey, attempts);
    return Ok(State(SCHEMA_VERSION, attempts));
  }

  lemma InputCodes(state: State, candidate: Attempt, limits: Option<RawLimits>)
    ensures ParseInputs(state, candidate, limits) != Err([])
  {
    hide ExtractAttempt, ParseAll;
    forall a: Attempt { ExtractAttemptClean(a); }
    ParseAllAccepts(state.attempts, ExtractAttempt, AttemptKey, StateDuplicateAttemptId);
    if limits.Some? {
      KindCodes(limits.value.perExecutorKind.GetOr([]), map[]);
    }
  }

  lemma {:induction false} KindCodes(entries: seq<(string, int)>, bounds: map<string, int>)
    ensures ResolveKinds(entries, bounds) != Err([])
  {
    if entries != [] {
      KindCodes(entries[1..], bounds[entries[0].0 := entries[0].1]);
    }
  }

  // The remaining state, and whether an attempt was released.
  function ReleaseAttempt(state: State, attemptId: string): Result<(State, bool), Codes> {
    match ParseState(state)
    case Err(codes) => Err(codes)
    case Ok(attempts) =>
      if Blank(attemptId) then Ok((State(SCHEMA_VERSION, attempts), false))
      else
        var remaining := Filter(OtherKeys(AttemptKey, Trim(attemptId)), attempts);
        Ok((State(SCHEMA_VERSION, remaining), |remaining| != |attempts|))
  }

  // ---------------------------------------------------------------------
  // One admission
  // ---------------------------------------------------------------------

  lemma CleanInputs(attempts: seq<Attempt>, attempt: Attempt, raw: Option<RawLimits>, limits: Limits)
    requires CleanAttempts(attempts) && CleanAttempt(attempt) && ResolvedLimits(raw) == Ok(limits)
    ensures ParseInputs(State(SCHEMA_VERSION, attempts), attempt, raw) == Ok(Inputs(attempts, attempt, limits))
  {
    ParseStateClean(attempts);
    ExtractAttemptClean(attempt);
  }

  /** A well-formed admission is refused exactly for a duplicate identity, else the global bound, else the bound of its kind; otherwise the attempt is added. */
  lemma AdmitRefusal(attempts: seq<Attempt>, attempt: Attempt, raw: Option<RawLimits>, limits: Limits)
    requires CleanAttempts(attempts) && CleanAttempt(attempt) && ResolvedLimits(raw) == Ok(limits)
    ensures var r := AdmitOutcome(State(SCHEMA_VERSION, attempts), attempt, raw);
      if exists a :: a in attempts && a.attemptId == attempt.attemptId then r == Err([DuplicateAttempt])
      else if |attempts| >= limits.globalConcurrency then r == Err([GlobalLimit])
      else if ActiveOfKind(attempts, attempt.executorKind) >= KindLimit(limits, attempt.executorKind) then r == Err([ExecutorLimit])
      else
        && r.Ok? && r.value.schemaVersion == 1 && KeyedSorted(AttemptKey, r.value.attempts)
        && multiset(r.value.attempts) == multiset(attempts) + multiset{attempt}
  {
    hide ParseInputs, KeyedSorted, SortBy;
    CleanInputs(attempts, attempt, raw, limits);
    HasKeyMember(AttemptKey, attempts, attempt.attemptId);
    if !HasKey(AttemptKey, attempts, attempt.attemptId) {
      InsertedKeys(AttemptKey, attempts, attempt);
    }
  }

  /** An admission with malformed input reports what is wrong with the limits, else with the state, else with the attempt. */
  lemma AdmitReportsFirst(state: State, candidate: Attempt, raw: Option<RawLimits>)
    ensures var r := AdmitOutcome(state, candidate, raw);
      && CanAdmitAttempt(state, candidate, raw) == (if r.Err? then r.error else [])
      && match (ResolvedLimits(raw), ParseState(state), ExtractAttempt(candidate))
         case (Err(codes), _, _) => r == Err(codes)
         case (_, Err(codes), _) => r == Err(codes)
         case (_, _, Err(codes)) => r == Err(codes)
         case (_, Ok(attempts), Ok(attempt)) => r == AdmitOutcome(State(SCHEMA_VERSION, attempts), attempt, raw)
  {
    hide ResolvedLimits, ParseState, ExtractAttempt, EvaluateAdmission, SortBy;
    if ParseState(state).Ok? && ExtractAttempt(candidate).Ok? {
      ParsedSchema(state);
      ParseStateClean(state.attempts);
      ParseStateClean(ParseState(state).value);
      ExtractAttemptClean(candidate);
      ExtractAttemptClean(ExtractAttempt(candidate).value);
    }
  }

  lemma ParsedSchema(state: State)
    requires ParseState(state).Ok?
    ensures state == State(SCHEMA_VERSION, state.attempts)
  {
    hide ExtractAttempt;
  }

  /** A kind at its bound does not hold back another kind while global capacity remains. */
  lemma KindsAreIndependent(attempts: seq<Attempt>, blocked: Attempt, other: Attempt, raw: Option<RawLimits>, limits: Limits)
    requires CleanAttempts(attempts) && CleanAttempt(blocked) && CleanAttempt(other) && ResolvedLimits(raw) == Ok(limits)
    requires AdmitOutcome(State(SCHEMA_VERSION, attempts), blocked, raw) == Err([ExecutorLimit])
    requires !HasKey(AttemptKey, attempts, other.attemptId)
    requires ActiveOfKind(attempts, other.executorKind) < KindLimit(limits, other.executorKind)
    ensures AdmitOutcome(State(SCHEMA_VERSION, attempts), other, raw).Ok?
  {
    hide ParseInputs;
    CleanInputs(attempts, blocked, raw, limits);
    CleanInputs(attempts, other, raw, limits);
  }

  /** Releasing what was just admitted restores the state up to order, and exactly when it was in id order. */
  lemma ReleaseUndoesAdmit(attempts: seq<Attempt>, attempt: Attempt, raw: Option<RawLimits>, limits: Limits)
    requires CleanAttempts(attempts) && CleanAttempt(attempt) && ResolvedLimits(raw) == Ok(limits)
    requires AdmitOutcome(State(SCHEMA_VERSION, attempts), attempt, raw).Ok?
    ensures var released := ReleaseAttempt(AdmitOutcome(State(SCHEMA_VERSION, attempts), attempt, raw).value, attempt.attemptId);
      && released.Ok? && released.value.1
      && multiset(released.value.0.attempts) == multiset(attempts)
      && (KeyedSorted(AttemptKey, attempts) ==> released.value.0.attempts == attempts)
  {
    hide ParseInputs, ParseState;
    CleanInputs(attempts, attempt, raw, limits);
    var admitted := SortBy(AttemptKey, attempts + [attempt]);
    AdmittedClean(attempts, attempt);
    ParseStateClean(admitted);
    InsertedKeys(AttemptKey, attempts, attempt);
    RemoveInserted(AttemptKey, attempts, attempt);
    var remaining := Filter(OtherKeys(AttemptKey, attempt.attemptId), admitted);
    assert |remaining| == |multiset(remaining)| == |multiset(attempts)| == |attempts|;
    if KeyedSorted(AttemptKey, attempts) {
      RemoveInsertedSorted(AttemptKey, attempts, attempt);
    }
  }

  lemma AdmittedClean(attempts: seq<Attempt>, attempt: Attempt)
    requires CleanAttempts(attempts) && CleanAttempt(attempt) && !HasKey(AttemptKey, attempts, attempt.attemptId)
    ensures CleanAttempts(SortBy(AttemptKey, attempts + [attempt]))
  {
    InsertedKeys(AttemptKey, attempts, attempt);
    InsertedMembers(AttemptKey, attempts, attempt);
    KeyedSortedDistinct(AttemptKey, SortBy(AttemptKey, attempts + [attempt]));
  }

  /**
   * A release takes out the one attempt with the trimmed id, leaves the others in place,
   * and reports whether there was one; an id that is not active changes nothing.
   */
  lemma ReleaseExactly(state: State, attemptId: string)
    ensures match ParseState(state)
            case Err(codes) => ReleaseAttempt(state, attemptId) == Err(codes)
            case Ok(attempts) =>
              && ((forall k :: 0 <= k < |attempts| ==> attempts[k].attemptId != Trim(attemptId)) ==>
                    ReleaseAttempt(state, attemptId) == Ok((State(1, attempts), false)))
              && (forall k :: 0 <= k < |attempts| && attempts[k].attemptId == Trim(attemptId) ==>
                    ReleaseAttempt(state, attemptId) == Ok((State(1, attempts[..k] + attempts[k + 1..]), true)))
  {
    hide Trim, ParseState;
    if ParseState(state).Ok? {
      var attempts := ParseState(state).value;
      ParsedSchema(state);
      ParseStateClean(state.attempts);
      if forall k :: 0 <= k < |attempts| ==> attempts[k].attemptId != Trim(attemptId) {
        KeepsOthers(AttemptKey, attempts, Trim(attemptId));
      }
      forall k | 0 <= k < |attempts| && attempts[k].attemptId == Trim(attemptId)
        ensures ReleaseAttempt(state, attemptId) == Ok((State(1, attempts[..k] + attempts[k + 1..]), true))
      {
        assert attempts[k] in attempts && CleanAttempt(attempts[k]);
        RemovesOnly(AttemptKey, attempts, k);
      }
    }
  }

  // ---------------------------------------------------------------------
  // All runs
  // ---------------------------------------------------------------------

  datatype Operation = Admit(attempt: Attempt) | Release(attemptId: string)

  // The state of a run with the number of accepted admits and effective releases so far.
  datatype Tally = Tally(state: State, admits: nat, releases: nat)

  function Perform(tally: Tally, operation: Operation, limits: Option<RawLimits>): Tally {
    match operation
    case Admit(attempt) => (
      match AdmitOutcome(tally.state, attempt, limits)
      case Err(_) => tally
      case Ok(state) => Tally(state, tally.admits + 1, tally.releases))
    case Release(attemptId) =>
      match ReleaseAttempt(tally.state, attemptId)
      case Err(_) => tally
      case Ok((state, released)) => Tally(state, tally.admits, tally.releases + if released then 1 else 0)
  }

  function Run(operations: seq<Operation>, limits: Option<RawLimits>): Tally {
    if operations == [] then Tally(State(SCHEMA_VERSION, []), 0, 0)
    else
      var n := |operations| - 1;
      Perform(Run(operations[..n], limits), operations[n], limits)
  }

  ghost predicate WithinLimits(attempts: seq<Attempt>, limits: Limits) {
    && |attempts| <= limits.globalConcurrency
    && forall kind :: ActiveOfKind(attempts, kind) > 0 ==> ActiveOfKind(attempts, kind) <= KindLimit(limits, kind)
  }

  ghost predicate TallyInvariant(tally: Tally, limits: Limits) {
    && tally.state.schemaVersion == SCHEMA_VERSION
    && CleanAttempts(tally.state.attempts) && KeyedSorted(AttemptKey, tally.state.attempts)
    && WithinLimits(tally.state.attempts, limits)
    && |tally.state.attempts| == tally.admits - tally.releases
  }

  lemma AdmittedOfKind(attempts: seq<Attempt>, attempt: Attempt, kind: string)
    ensures var next := SortBy(AttemptKey, attempts + [attempt]);
      ActiveOfKind(next, kind) == ActiveOfKind(attempts, kind) + (if attempt.executorKind == kind then 1 else 0)
  {
    CountPermutation(OfKind(kind), SortBy(AttemptKey, attempts + [attempt]), attempts + [attempt]);
    CountConcat(OfKind(kind), attempts, [attempt]);
    CountOne(OfKind(kind), attempt);
  }

  lemma AdmitKeepsInvariant(tally: Tally, attempt: Attempt, limits: Limits)
    requires TallyInvariant(tally, limits) && CleanAttempt(attempt) && EvaluateAdmission(tally.state.attempts, attempt, limits) == None
    ensures TallyInvariant(Tally(State(SCHEMA_VERSION, SortBy(AttemptKey, tally.state.attempts + [attempt])), tally.admits + 1, tally.releases), limits)
  {
    var attempts := tally.state.attempts;
    hide Count, SortBy, ActiveOfKind;
    var next := SortBy(AttemptKey, attempts + [attempt]);
    InsertedKeys(AttemptKey, attempts, attempt);
    AdmittedClean(attempts, attempt);
    forall kind | ActiveOfKind(next, kind) > 0 ensures ActiveOfKind(next, kind) <= KindLimit(limits, kind) {
      AdmittedOfKind(attempts, attempt, kind);
    }
  }

  lemma ReleaseKeepsInvariant(tally: Tally, id: string, limits: Limits)
    requires TallyInvariant(tally, limits)
    ensures var remaining := Filter(OtherKeys(AttemptKey, id), tally.state.attempts);
      TallyInvariant(Tally(State(SCHEMA_VERSION, remaining), tally.admits,
                           tally.releases + if |remaining| != |tally.state.attempts| then 1 else 0), limits)
  {
    var attempts := tally.state.attempts;
    var remaining := Filter(OtherKeys(AttemptKey, id), attempts);
    FilterKeyedSorted(AttemptKey, OtherKeys(AttemptKey, id), attempts);
    KeyedSortedDistinct(AttemptKey, remaining);
    RemoveOne(AttemptKey, attempts, id);
    forall kind | ActiveOfKind(remaining, kind) > 0 ensures ActiveOfKind(remaining, kind) <= KindLimit(limits, kind) {
      FilterCountBound(OtherKeys(AttemptKey, id), OfKind(kind), attempts);
    }
  }

  lemma PerformKeepsInvariant(tally: Tally, operation: Operation, raw: Option<RawLimits>, limits: Limits)
    requires ResolvedLimits(raw) == Ok(limits) && TallyInvariant(tally, limits)
    ensures TallyInvariant(Perform(tally, operation, raw), limits)
  {
    hide ExtractAttempt, ParseState, EvaluateAdmission, ResolvedLimits;
    ParseStateClean(tally.state.attempts);
    match operation {
      case Admit(candidate) =>
        ExtractAttemptClean(candidate);
        if AdmitOutcome(tally.state, candidate, raw).Ok? {
          AdmitKeepsInvariant(tally, ExtractAttempt(candidate).value, limits);
        }
      case Release(attemptId) =>
        if !Blank(attemptId) {
          ReleaseKeepsInvariant(tally, Trim(attemptId), limits);
        }
    }
  }

  /**
   * After any sequence of admits and releases from the empty state, accepted or
   * not: ids are unique, the total is within the global bound, every kind is
   * within its own, and the size is the accepted admits minus the effective releases.
   */
  lemma {:induction false} CapacityOverAllRuns(operations: seq<Operation>, raw: Option<RawLimits>, limits: Limits)
    requires ResolvedLimits(raw) == Ok(limits)
    ensures TallyInvariant(Run(operations, raw), limits)
  {
    hide Perform;
    if operations != [] {
      var n := |operations| - 1;
      CapacityOverAllRuns(operations[..n], raw, limits);
      PerformKeepsInvariant(Run(operations[..n], raw), operations[n], raw, limits);
    }
  }
}
