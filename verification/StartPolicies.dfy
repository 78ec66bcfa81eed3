/** When a check, a code or an effect node may start, and when it may start without waiting. */
module StartPolicies {
  import opened Wrappers
  import opened Text
  import opened Workflow

  // Check and code nodes share one policy; they differ in the result they look at.
  datatype Step = CheckStep | CodeStep

  function ResultOf(step: Step, attempt: Attempt): Option<StepResult> {
    match step
    case CheckStep => attempt.checkResult
    case CodeStep => attempt.codeResult
  }

  datatype Refusal =
    | AttemptIdReused
    | NotReady
    | RetryNotAllowed
    | RetryLimitReached
    | RetryStatusNotAllowed
    | InvalidRetryTime
    | RetryBackoff(earliest: int)

  datatype Eligibility = Eligible(retryOf: Option<string>) | Refused(refusal: Refusal)

  // The attempt that a retry would follow.
  function Previous(runtime: NodeRuntime): Option<Attempt> {
    if Present(runtime.currentAttemptId) then FindAttempt(runtime.attempts, runtime.currentAttemptId.value) else None
  }

  function PreviousStatus(step: Step, runtime: NodeRuntime): Option<ResultStatus> {
    match Previous(runtime)
    case None => None
    case Some(attempt) =>
      match ResultOf(step, attempt)
      case None => None
      case Some(result) => Some(result.status)
  }

  predicate RetriableStatus(status: ResultStatus) {
    status.FailedResult? || status.TimedOutResult? || status.ErrorResult?
  }

  predicate CanStartWithoutWaiting(step: Step, runtime: NodeRuntime, definition: StepDefinition) {
    if runtime.status == Ready then true
    else if runtime.status != Failed then false
    else if definition.retry.None? then false
    else
      var policy := definition.retry.value;
      if policy.backoffMs.GetOr(0) > 0 || runtime.attemptCount >= policy.maxAttempts then false
      else
        match PreviousStatus(step, runtime)
        case None => false
        case Some(status) => RetriableStatus(status) && status in policy.retryOn
  }

  // The completion time that the backoff counts from.
  function CompletedAt(step: Step, attempt: Attempt): Timestamp
    requires ResultOf(step, attempt).Some?
  {
    attempt.completedAt.GetOr(ResultOf(step, attempt).value.completedAt)
  }

  function EvaluateStart(step: Step, runtime: NodeRuntime, definition: StepDefinition, attemptId: string, at: Timestamp): Eligibility {
    if FindAttempt(runtime.attempts, attemptId).Some? then Refused(AttemptIdReused)
    else if runtime.status == Ready then Eligible(None)
    else if runtime.status != Failed then Refused(NotReady)
    else if definition.retry.None? then Refused(RetryNotAllowed)
    else
      var policy := definition.retry.value;
      if runtime.attemptCount >= policy.maxAttempts then Refused(RetryLimitReached)
      else if PreviousStatus(step, runtime).None? || PreviousStatus(step, runtime).value !in policy.retryOn then Refused(RetryStatusNotAllowed)
      else
        var backoff := policy.backoffMs.GetOr(0);
        if backoff <= 0 then Eligible(runtime.currentAttemptId)
        else
          var previousTime := CompletedAt(step, Previous(runtime).value);
          if previousTime.Unparseable? || at.Unparseable? then Refused(InvalidRetryTime)
          else if at.at < previousTime.at + backoff then Refused(RetryBackoff(previousTime.at + backoff))
          else Eligible(runtime.currentAttemptId)
  }

  // A retry policy that names only the statuses the definition type admits.
  predicate RetriesFailuresOnly(definition: StepDefinition) {
    definition.retry.Some? ==> forall status :: status in definition.retry.value.retryOn ==> status in {FailedResult, TimedOutResult, ErrorResult}
  }

  /** A node can start without waiting exactly when a start with an unused id is accepted at every time, parseable or not. */
  lemma StartsAtAnyTime(step: Step, runtime: NodeRuntime, definition: StepDefinition, attemptId: string)
    requires FindAttempt(runtime.attempts, attemptId).None?
    ensures CanStartWithoutWaiting(step, runtime, definition)
        ==> forall at :: EvaluateStart(step, runtime, definition, attemptId, at).Eligible?
    ensures RetriesFailuresOnly(definition) && (forall at :: EvaluateStart(step, runtime, definition, attemptId, at).Eligible?)
        ==> CanStartWithoutWaiting(step, runtime, definition)
  {
    var atNoTime := EvaluateStart(step, runtime, definition, attemptId, Unparseable);
    assert atNoTime.Eligible? || atNoTime.Refused?;
  }

  /** A refusal for backoff names the first time at which the same start is accepted. */
  lemma BackoffNamesFirstTime(step: Step, runtime: NodeRuntime, definition: StepDefinition, attemptId: string, at: int, later: int)
    requires EvaluateStart(step, runtime, definition, attemptId, Millis(at)).Refused?
    requires EvaluateStart(step, runtime, definition, attemptId, Millis(at)).refusal.RetryBackoff?
    ensures EvaluateStart(step, runtime, definition, attemptId, Millis(later)).Eligible?
        <==> later >= EvaluateStart(step, runtime, definition, attemptId, Millis(at)).refusal.earliest
  {
  }

  // The result of the current attempt, where there is one.
  ghost predicate CurrentResult(step: Step, runtime: NodeRuntime, attempt: Attempt, result: StepResult) {
    && runtime.currentAttemptId.Some? && runtime.currentAttemptId.value != ""
    && FindAttempt(runtime.attempts, runtime.currentAttemptId.value) == Some(attempt)
    && (if step.CheckStep? then attempt.checkResult else attempt.codeResult) == Some(result)
  }

  lemma TheCurrentResult(step: Step, runtime: NodeRuntime)
    ensures forall attempt, result :: CurrentResult(step, runtime, attempt, result) <==>
      Previous(runtime) == Some(attempt) && ResultOf(step, attempt) == Some(result)
    ensures match PreviousStatus(step, runtime)
            case None => forall attempt, result :: !CurrentResult(step, runtime, attempt, result)
            case Some(status) =>
              && Previous(runtime).Some? && ResultOf(step, Previous(runtime).value).Some?
              && CurrentResult(step, runtime, Previous(runtime).value, ResultOf(step, Previous(runtime).value).value)
              && ResultOf(step, Previous(runtime).value).value.status == status
  {
  }

  // A failed node whose policy has an attempt left and retries the status of the current result.
  ghost predicate MayRetry(step: Step, runtime: NodeRuntime, definition: StepDefinition, attempt: Attempt, result: StepResult) {
    && runtime.status == Failed && definition.retry.Some? && runtime.attemptCount < definition.retry.value.maxAttempts
    && CurrentResult(step, runtime, attempt, result) && result.status in definition.retry.value.retryOn
  }

  /** A node can start without waiting exactly when it is ready, or may retry a failed, timed-out or erroneous result without backoff. */
  lemma CanStartExactly(step: Step, runtime: NodeRuntime, definition: StepDefinition)
    ensures CanStartWithoutWaiting(step, runtime, definition) <==>
      || runtime.status == Ready
      || exists attempt, result ::
           && MayRetry(step, runtime, definition, attempt, result)
           && definition.retry.value.backoffMs.GetOr(0) <= 0 && result.status in {FailedResult, TimedOutResult, ErrorResult}
  {
    hide CurrentResult, PreviousStatus, Previous;
    TheCurrentResult(step, runtime);
    if CanStartWithoutWaiting(step, runtime, definition) && runtime.status != Ready {
      var attempt := Previous(runtime).value;
      assert MayRetry(step, runtime, definition, attempt, ResultOf(step, attempt).value);
    }
  }

  // The time of the attempt's completion, else of its result.
  ghost function CompletionOf(attempt: Attempt, result: StepResult): Timestamp {
    match attempt.completedAt
    case Some(time) => time
    case None => result.completedAt
  }

  // A positive backoff has passed since the completion.
  ghost predicate BackoffOver(policy: RetryPolicy, completed: Timestamp, at: Timestamp) {
    policy.backoffMs.Some? && policy.backoffMs.value > 0 ==>
      completed.Millis? && at.Millis? && completed.at + policy.backoffMs.value <= at.at
  }

  /**
   * A start is accepted exactly under an unused id, for a ready node as its first attempt,
   * or for a failed node that may retry its current attempt once the backoff is over.
   */
  lemma StartExactly(step: Step, runtime: NodeRuntime, definition: StepDefinition, attemptId: string, at: Timestamp)
    ensures var decision := EvaluateStart(step, runtime, definition, attemptId, at);
      && (decision.Eligible? <==>
            && (forall i :: 0 <= i < |runtime.attempts| ==> runtime.attempts[i].attemptId != attemptId)
            && (runtime.status == Ready
                || exists attempt, result ::
                     && MayRetry(step, runtime, definition, attempt, result)
                     && BackoffOver(definition.retry.value, CompletionOf(attempt, result), at)))
      && (decision.Eligible? ==> decision.retryOf == if runtime.status == Ready then None else runtime.currentAttemptId)
  {
    hide CurrentResult, PreviousStatus, Previous;
    TheCurrentResult(step, runtime);
    if PreviousStatus(step, runtime).Some? {
      var attempt := Previous(runtime).value;
      var result := ResultOf(step, attempt).value;
      assert MayRetry(step, runtime, definition, attempt, result)
        <==> (runtime.status == Failed && definition.retry.Some? && runtime.attemptCount < definition.retry.value.maxAttempts
              && result.status in definition.retry.value.retryOn);
    }
  }

  // The reason for which a start is refused: the first of these that holds.
  ghost predicate RefusedFor(step: Step, runtime: NodeRuntime, definition: StepDefinition, attemptId: string, at: Timestamp, refusal: Refusal) {
    var used := exists i :: 0 <= i < |runtime.attempts| && runtime.attempts[i].attemptId == attemptId;
    match refusal
    case AttemptIdReused => used
    case NotReady => !used && runtime.status !in {Ready, Failed}
    case RetryNotAllowed => !used && runtime.status == Failed && definition.retry.None?
    case RetryLimitReached =>
      !used && runtime.status == Failed && definition.retry.Some? && runtime.attemptCount >= definition.retry.value.maxAttempts
    case RetryStatusNotAllowed =>
      && !used && runtime.status == Failed && definition.retry.Some? && runtime.attemptCount < definition.retry.value.maxAttempts
      && forall attempt, result :: !MayRetry(step, runtime, definition, attempt, result)
    case InvalidRetryTime =>
      && !used && exists attempt, result ::
           && MayRetry(step, runtime, definition, attempt, result)
           && definition.retry.value.backoffMs.GetOr(0) > 0
           && (CompletionOf(attempt, result).Unparseable? || at.Unparseable?)
    case RetryBackoff(earliest) =>
      && !used && exists attempt, result ::
           && MayRetry(step, runtime, definition, attempt, result)
           && definition.retry.value.backoffMs.GetOr(0) > 0 && CompletionOf(attempt, result).Millis? && at.Millis?
           && earliest == CompletionOf(attempt, result).at + definition.retry.value.backoffMs.value && at.at < earliest
  }

  /** Each refusal is the answer exactly for its own reason; a backoff refusal names the completion plus the backoff. */
  lemma RefusalExactly(step: Step, runtime: NodeRuntime, definition: StepDefinition, attemptId: string, at: Timestamp, refusal: Refusal)
    ensures EvaluateStart(step, runtime, definition, attemptId, at) == Refused(refusal)
      <==> RefusedFor(step, runtime, definition, attemptId, at, refusal)
  {
    hide CurrentResult, PreviousStatus, Previous;
    TheCurrentResult(step, runtime);
    if PreviousStatus(step, runtime).Some? {
      var attempt := Previous(runtime).value;
      var result := ResultOf(step, attempt).value;
      assert MayRetry(step, runtime, definition, attempt, result)
        <==> (runtime.status == Failed && definition.retry.Some? && runtime.attemptCount < definition.retry.value.maxAttempts
              && result.status in definition.retry.value.retryOn);
    }
  }

  // ---------------------------------------------------------------------
  // Effects
  // ---------------------------------------------------------------------

  predicate EffectCanStartWithoutWaiting(runtime: NodeRuntime) {
    runtime.status == Ready
  }

  function EvaluateEffectStart(runtime: NodeRuntime, attemptId: string): Eligibility {
    if FindAttempt(runtime.attempts, attemptId).Some? then Refused(AttemptIdReused)
    else if runtime.status != Ready then Refused(NotReady)
    else Eligible(None)
  }

  /** An effect starts exactly on a ready node under an unused id, and never as a retry; each refusal has its own reason. */
  lemma EffectStartExactly(runtime: NodeRuntime, attemptId: string)
    ensures var used := exists i :: 0 <= i < |runtime.attempts| && runtime.attempts[i].attemptId == attemptId;
      EvaluateEffectStart(runtime, attemptId) ==
        if used then Refused(AttemptIdReused) else if runtime.status == Ready then Eligible(None) else Refused(NotReady)
  {
  }

  ghost predicate NamesIndeterminate(attempts: seq<Attempt>, id: string) {
    exists i :: 0 <= i < |attempts| && attempts[i].attemptId == id && attempts[i].effectState == Some(EffectIndeterminate)
  }

  // The ids of the attempts whose effect is indeterminate, as the record lists them.
  function Indeterminate(attempts: seq<Attempt>): (r: seq<string>)
    ensures forall id :: id in r <==> NamesIndeterminate(attempts, id)
  {
    if attempts == [] then []
    else
      var rest := Indeterminate(attempts[1..]);
      assert forall i :: 0 < i < |attempts| ==> attempts[i] == attempts[1..][i - 1];
      if attempts[0].effectState == Some(EffectIndeterminate) then [attempts[0].attemptId] + rest else rest
  }

  function IndeterminateAttempts(attempts: seq<Attempt>): (r: seq<string>)
    ensures multiset(r) == multiset(Indeterminate(attempts))
  {
    SortBy(Itself, Indeterminate(attempts))
  }

  /** With unique attempt ids the result is strictly sorted, whatever order the record lists them in. */
  lemma {:induction false} IndeterminateSorted(attempts: seq<Attempt>)
    requires forall i, j :: 0 <= i < j < |attempts| ==> attempts[i].attemptId != attempts[j].attemptId
    ensures StrictlySorted(IndeterminateAttempts(attempts))
    ensures forall id :: id in IndeterminateAttempts(attempts) <==> NamesIndeterminate(attempts, id)
  {
    hide SortBy;
    IndeterminateDistinct(attempts);
    SortBySorted(Itself, Indeterminate(attempts));
    forall id ensures id in IndeterminateAttempts(attempts) <==> id in Indeterminate(attempts) {
      assert id in multiset(IndeterminateAttempts(attempts)) <==> id in multiset(Indeterminate(attempts));
    }
  }

  lemma {:induction false} IndeterminateDistinct(attempts: seq<Attempt>)
    requires forall i, j :: 0 <= i < j < |attempts| ==> attempts[i].attemptId != attempts[j].attemptId
    ensures KeysDistinct(Itself, Indeterminate(attempts))
  {
    if attempts != [] {
      var rest := attempts[1..];
      forall i, j | 0 <= i < j < |rest| ensures rest[i].attemptId != rest[j].attemptId {
        assert rest[i] == attempts[i + 1] && rest[j] == attempts[j + 1];
      }
      IndeterminateDistinct(rest);
      forall id | id in Indeterminate(rest) ensures id != attempts[0].attemptId {
        assert NamesIndeterminate(rest, id);
        var i :| 0 <= i < |rest| && rest[i].attemptId == id;
        assert attempts[i + 1].attemptId == id;
      }
      var found, fewer := Indeterminate(attempts), Indeterminate(rest);
      forall i, j | 0 <= i < j < |found| ensures Itself(found[i]) != Itself(found[j]) {
        if found != fewer {
          assert found == [attempts[0].attemptId] + fewer && found[j] == fewer[j - 1];
          if i == 0 {
            assert fewer[j - 1] in Indeterminate(rest);
          } else {
            assert found[i] == fewer[i - 1] && Itself(fewer[i - 1]) != Itself(fewer[j - 1]);
          }
        } else {
          assert Itself(fewer[i]) != Itself(fewer[j]);
        }
      }
    }
  }

  lemma NoneIndeterminate(attempts: seq<Attempt>)
    ensures IndeterminateAttempts(attempts) == [] <==> Indeterminate(attempts) == []
  {
    hide SortBy;
    assert |IndeterminateAttempts(attempts)| == |multiset(IndeterminateAttempts(attempts))| == |Indeterminate(attempts)|;
  }

  /** The loop that collects the attempts still to be reconciled, sorted in place at its end. */
  method CollectIndeterminateAttempts(attempts: seq<Attempt>) returns (results: seq<string>)
    ensures results == IndeterminateAttempts(attempts)
  {
    results := [];
    for i := 0 to |attempts|
      invariant results + Indeterminate(attempts[i..]) == Indeterminate(attempts)
    {
      assert attempts[i..][0] == attempts[i] && attempts[i..][1..] == attempts[i + 1..];
      if attempts[i].effectState == Some(EffectIndeterminate) {
        results := results + [attempts[i].attemptId];
      }
    }
    assert results == Indeterminate(attempts);
    results := SortBy(Itself, results);
  }
}
