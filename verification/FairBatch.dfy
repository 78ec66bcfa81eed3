/**
 * Fair batches: repeated picks with a virtual admission after each one, and the
 * event-backed ordinal that rotates the fairness keys.
 */
module FairBatch {
  import opened Wrappers
  import opened Counting
  import opened Ordinals
  import opened ConcurrencyGroups
  import opened FairSelection

  datatype Batch = Batch(selected: seq<Candidate>, state: seq<Attempt>, fairnessOrdinal: nat)

  function AttemptOf(c: Candidate): Attempt {
    Attempt(c.attemptId, c.groupIds)
  }

  // ---------------------------------------------------------------------
  // One round
  // ---------------------------------------------------------------------

  function IsAdmissible(state: seq<Attempt>, limits: Limits): Candidate -> bool {
    (c: Candidate) => !IsActive(state, c.attemptId) && HasCapacity(state, c.groupIds, limits)
  }

  function Admissible(state: seq<Attempt>, limits: Limits, candidates: seq<Candidate>): seq<Candidate> {
    Filter(IsAdmissible(state, limits), candidates)
  }

  predicate AllKnown(candidates: seq<Candidate>, limits: Limits) {
    forall c :: c in candidates ==> KnownGroups(c.groupIds, limits)
  }

  // Repeated rounds: pick, admit, advance, until idle or n picks.
  function Rounds(state: seq<Attempt>, limits: Limits, candidates: seq<Candidate>, ordinal: nat, n: nat): Batch
    decreases n
  {
    var admissible := Admissible(state, limits, candidates);
    if n == 0 || admissible == [] then Batch([], state, ordinal)
    else
      var c := Pick(admissible, ordinal);
      var rest := Rounds(Admitted(state, AttemptOf(c)), limits, candidates, AdvanceOrdinal(ordinal), n - 1);
      Batch([c] + rest.selected, rest.state, rest.fairnessOrdinal)
  }

  // ---------------------------------------------------------------------
  // The operations on unchecked input
  // ---------------------------------------------------------------------

  // Every input of the scheduler in its parsed form.
  datatype Inputs = Inputs(state: seq<Attempt>, limits: Limits, candidates: seq<Candidate>)

  // Parse order: occupancy, registry, candidates, then known membership.
  function ParseInputs(state: seq<Attempt>, registry: Option<seq<GroupDefinition>>, candidates: seq<Candidate>): Result<Inputs, Codes> {
    match ParseState(state)
    case Err(codes) => Err(codes)
    case Ok(cleanState) =>
      match ResolveRegistry(registry)
      case Err(codes) => Err(codes)
      case Ok(definitions) =>
        match ParseCandidates(candidates)
        case Err(codes) => Err(codes)
        case Ok(clean) =>
          if AllKnown(clean, LimitMap(definitions)) then Ok(Inputs(cleanState, LimitMap(definitions), clean))
          else Err([UnknownGroup])
  }

  function SelectFairCandidate(state: seq<Attempt>, registry: Option<seq<GroupDefinition>>, candidates: seq<Candidate>, ordinal: int): Result<Option<Candidate>, Codes> {
    match ParseInputs(state, registry, candidates)
    case Err(codes) => Err(codes)
    case Ok(inputs) =>
      var admissible := Admissible(inputs.state, inputs.limits, inputs.candidates);
      if !NonNegativeSafe(ordinal) then Err([FairnessInvalidOrdinal])
      else if admissible == [] then Ok(None)
      else Ok(Some(Pick(admissible, ordinal)))
  }

  // The chosen candidate with the occupancy after its admission, or None when idle.
  function SelectAndAdmit(state: seq<Attempt>, registry: Option<seq<GroupDefinition>>, candidates: seq<Candidate>, ordinal: int): Result<Option<(Candidate, seq<Attempt>)>, Codes> {
    match SelectFairCandidate(state, registry, candidates, ordinal)
    case Err(codes) => Err(codes)
    case Ok(None) => Ok(None)
    case Ok(Some(c)) =>
      match AdmitGroupAttempt(state, AttemptOf(c), registry)
      case Err(codes) => Err(codes)
      case Ok(next) => Ok(Some((c, next)))
  }

  // The documented use of the single-pick helper: select and admit, advance the
  // ordinal, and repeat until idle or n picks; any failure ends the iteration.
  function IterateSinglePicks(state: seq<Attempt>, registry: Option<seq<GroupDefinition>>, candidates: seq<Candidate>, ordinal: nat, n: nat): Result<Batch, Codes>
    decreases n
  {
    if n == 0 then Ok(Batch([], state, ordinal))
    else
      match SelectAndAdmit(state, registry, candidates, ordinal)
      case Err(codes) => Err(codes)
      case Ok(None) => Ok(Batch([], state, ordinal))
      case Ok(Some(pick)) =>
        match IterateSinglePicks(pick.1, registry, candidates, AdvanceOrdinal(ordinal), n - 1)
        case Err(codes) => Err(codes)
        case Ok(rest) => Ok(Batch([pick.0] + rest.selected, rest.state, rest.fairnessOrdinal))
  }

  function BatchLimit(maxCount: Option<int>): int {
    match maxCount
    case None => MAX_SAFE_INTEGER
    case Some(count) => count
  }

  function BatchOutcome(state: seq<Attempt>, registry: Option<seq<GroupDefinition>>, candidates: seq<Candidate>, ordinal: int, maxCount: Option<int>): Result<Batch, Codes> {
    if !NonNegativeSafe(ordinal) then Err([FairnessInvalidOrdinal])
    else if !NonNegativeSafe(BatchLimit(maxCount)) then Err([FairnessInvalidBatchLimit])
    else
      match ParseInputs(state, registry, candidates)
      case Err(codes) => Err(codes)
      case Ok(inputs) => Ok(Rounds(inputs.state, inputs.limits, inputs.candidates, ordinal, BatchLimit(maxCount)))
  }

  method FilterAdmissible(state: seq<Attempt>, limits: Limits, candidates: seq<Candidate>, selected: seq<Candidate>) returns (admissible: seq<Candidate>)
    requires forall s :: s in selected ==> IsActive(state, s.attemptId)
    ensures admissible == Admissible(state, limits, candidates)
  {
    admissible := [];
    for i := 0 to |candidates|
      invariant admissible == Admissible(state, limits, candidates[..i])
    {
      var candidate := candidates[i];
      assert candidates[..i + 1] == candidates[..i] + [candidate];
      FilterAppend(IsAdmissible(state, limits), candidates[..i], candidate);
      if !IsActive(state, candidate.attemptId) {
        if exists s :: s in selected && s.attemptId == candidate.attemptId {
          assert false;
        } else {
          var open := EvaluateKnownGroupCapacity(state, candidate.groupIds, limits);
          if open {
            admissible := admissible + [candidate];
          }
        }
      }
    }
    assert candidates[..|candidates|] == candidates;
  }

  /** The batch loop over `virtualState`, `ordinal` and `selected`; its exit on a failed admission is never taken. */
  method SelectFairBatch(state: seq<Attempt>, registry: Option<seq<GroupDefinition>>, candidates: seq<Candidate>, fairnessOrdinal: int, maxCount: Option<int>)
    returns (r: Result<Batch, Codes>)
    ensures r == BatchOutcome(state, registry, candidates, fairnessOrdinal, maxCount)
  {
    if !NonNegativeSafe(fairnessOrdinal) {
      return Err([FairnessInvalidOrdinal]);
    }
    var limit := BatchLimit(maxCount);
    if !NonNegativeSafe(limit) {
      return Err([FairnessInvalidBatchLimit]);
    }
    match ParseInputs(state, registry, candidates) {
      case Err(codes) =>
        return Err(codes);
      case Ok(inputs) =>
        var batch := RunBatch(inputs.state, inputs.limits, inputs.candidates, fairnessOrdinal, limit);
        return Ok(batch);
    }
  }

  // The batch that follows a selected prefix.
  function Prepend(selected: seq<Candidate>, rest: Batch): Batch {
    Batch(selected + rest.selected, rest.state, rest.fairnessOrdinal)
  }

  // The filter and the admission check agree, so a pick is always admitted.
  lemma PickIsAdmitted(state: seq<Attempt>, limits: Limits, candidates: seq<Candidate>, ordinal: nat)
    requires Admissible(state, limits, candidates) != []
    ensures EvaluateAdmission(state, AttemptOf(Pick(Admissible(state, limits, candidates), ordinal)), limits) == None
  {
    var c := Pick(Admissible(state, limits, candidates), ordinal);
    assert IsAdmissible(state, limits)(c);
  }

  lemma RoundsStop(state: seq<Attempt>, limits: Limits, candidates: seq<Candidate>, ordinal: nat, n: nat)
    requires n == 0 || Admissible(state, limits, candidates) == []
    ensures Rounds(state, limits, candidates, ordinal, n) == Batch([], state, ordinal)
  {
  }

  lemma PrependRound(selected: seq<Candidate>, state: seq<Attempt>, limits: Limits, candidates: seq<Candidate>, ordinal: nat, n: nat)
    requires n > 0 && Admissible(state, limits, candidates) != []
    ensures var c := Pick(Admissible(state, limits, candidates), ordinal);
      Prepend(selected, Rounds(state, limits, candidates, ordinal, n))
      == Prepend(selected + [c], Rounds(Admitted(state, AttemptOf(c)), limits, candidates, AdvanceOrdinal(ordinal), n - 1))
  {
    hide Pick, Admissible, Admitted;
    var c := Pick(Admissible(state, limits, candidates), ordinal);
    var rest := Rounds(Admitted(state, AttemptOf(c)), limits, candidates, AdvanceOrdinal(ordinal), n - 1);
    assert selected + ([c] + rest.selected) == (selected + [c]) + rest.selected;
  }

  method RunBatch(state: seq<Attempt>, limits: Limits, candidates: seq<Candidate>, fairnessOrdinal: nat, limit: nat) returns (batch: Batch)
    requires fairnessOrdinal <= MAX_SAFE_INTEGER
    ensures batch == Rounds(state, limits, candidates, fairnessOrdinal, limit)
  {
    hide Rounds, Pick, Admissible, Admitted, EvaluateAdmission, IsActive;
    var virtualState := state;
    var ordinal: nat := fairnessOrdinal;
    var selected: seq<Candidate> := [];
    ghost var whole := Rounds(state, limits, candidates, fairnessOrdinal, limit);
    while |selected| < limit
      invariant |selected| <= limit && ordinal <= MAX_SAFE_INTEGER
      invariant forall s :: s in selected ==> IsActive(virtualState, s.attemptId)
      invariant whole == Prepend(selected, Rounds(virtualState, limits, candidates, ordinal, limit - |selected|))
      decreases limit - |selected|
    {
      var admissible := FilterAdmissible(virtualState, limits, candidates, selected);
      var decision := SelectAmongAdmissible(admissible, ordinal);
      if decision.value == None {
        RoundsStop(virtualState, limits, candidates, ordinal, limit - |selected|);
        break;
      }
      var c := decision.value.value;
      PickIsAdmitted(virtualState, limits, candidates, ordinal);
      if EvaluateAdmission(virtualState, AttemptOf(c), limits) != None {
        assert false;
        break;
      }
      PrependRound(selected, virtualState, limits, candidates, ordinal, limit - |selected|);
      AdmittedStaysActive(virtualState, c, selected);
      virtualState := Admitted(virtualState, AttemptOf(c));
      selected := selected + [c];
      ordinal := AdvanceOrdinal(ordinal);
    }
    if |selected| >= limit { RoundsStop(virtualState, limits, candidates, ordinal, 0); }
    assert selected + [] == selected;
    batch := Batch(selected, virtualState, ordinal);
  }

  lemma AdmittedStaysActive(state: seq<Attempt>, c: Candidate, selected: seq<Candidate>)
    requires forall s :: s in selected ==> IsActive(state, s.attemptId)
    ensures forall s :: s in selected + [c] ==> IsActive(Admitted(state, AttemptOf(c)), s.attemptId)
  {
    forall s | s in selected + [c] ensures IsActive(Admitted(state, AttemptOf(c)), s.attemptId) {
      AdmittedActive(state, AttemptOf(c), s.attemptId);
    }
  }
}
