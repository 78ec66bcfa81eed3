/**
 * The fair run: what a batch selects, said of its inputs and of the picks alone.
 * One list of picks is a fair run, and it is the one the batch loop selects.
 */
module FairRuns {
  import opened Wrappers
  import opened Text
  import opened Counting
  import opened Ordinals
  import opened ConcurrencyGroups
  import opened FairSelection
  import opened FairBatch
  import opened FairBatchLaws

  function Joins(g: string): Candidate -> bool {
    (c: Candidate) => g in c.groupIds
  }

  // After these picks the candidate is neither active nor picked, and every group of it has room.
  ghost predicate Open(state: seq<Attempt>, limits: Limits, picks: seq<Candidate>, c: Candidate) {
    && (forall a :: a in state ==> a.attemptId != c.attemptId)
    && (forall p :: p in picks ==> p.attemptId != c.attemptId)
    && (forall g :: g in c.groupIds ==> g in limits && Active(state, g) + Count(Joins(g), picks) < limits[g])
  }

  ghost function OpenSet(state: seq<Attempt>, limits: Limits, candidates: seq<Candidate>, picks: seq<Candidate>): (r: set<Candidate>)
    ensures forall c :: c in r <==> c in candidates && Open(state, limits, picks, c)
  {
    set c | c in candidates && Open(state, limits, picks, c)
  }

  // Pick k is the fair choice among what the earlier picks leave open, at the ordinal k turns on.
  ghost predicate FairAt(state: seq<Attempt>, limits: Limits, candidates: seq<Candidate>, ordinal: nat, picks: seq<Candidate>, k: nat)
    requires k < |picks|
  {
    FairPick(OpenSet(state, limits, candidates, picks[..k]), (ordinal + k) % ORDINALS, picks[k])
  }

  // Some order of turns makes this candidate the fair choice.
  ghost predicate FairPick(open: set<Candidate>, ordinal: nat, c: Candidate) {
    exists turns :: IsFairChoice(open, turns, ordinal, c)
  }

  // Fair picks up to the limit, if there is one, and short of it only when nothing is left open.
  ghost predicate FairRun(state: seq<Attempt>, limits: Limits, candidates: seq<Candidate>, ordinal: nat, limit: Option<nat>, picks: seq<Candidate>) {
    && (limit.Some? ==> |picks| <= limit.value)
    && (forall k :: 0 <= k < |picks| ==> FairAt(state, limits, candidates, ordinal, picks, k))
    && (limit == Some(|picks|) || OpenSet(state, limits, candidates, picks) == {})
  }

  // The candidates admissible after k rounds are the ones that the first k picks leave open.
  lemma OpenIsAdmissible(state: seq<Attempt>, limits: Limits, candidates: seq<Candidate>, ordinal: nat, k: nat)
    ensures OpenSet(state, limits, candidates, Rounds(state, limits, candidates, ordinal, k).selected)
      == Elems(Admissible(StateAt(state, limits, candidates, ordinal, k), limits, candidates))
  {
    hide Rounds, Admissible, Active, IsActive, Count;
    var batch := Rounds(state, limits, candidates, ordinal, k);
    forall c ensures c in candidates && Open(state, limits, batch.selected, c) <==> c in Admissible(batch.state, limits, candidates) {
      AdmissibleMember(batch.state, limits, candidates, c);
      BatchOccupancy(state, limits, candidates, ordinal, k, "", c.attemptId);
      IsActiveMember(state, c.attemptId);
      forall g ensures Active(batch.state, g) == Active(state, g) + Count(Joins(g), batch.selected) {
        GroupAfter(state, limits, candidates, ordinal, k, g);
      }
    }
  }

  lemma GroupAfter(state: seq<Attempt>, limits: Limits, candidates: seq<Candidate>, ordinal: nat, k: nat, g: string)
    ensures Active(Rounds(state, limits, candidates, ordinal, k).state, g)
      == Active(state, g) + Count(Joins(g), Rounds(state, limits, candidates, ordinal, k).selected)
  {
    hide Rounds, Active;
    BatchOccupancy(state, limits, candidates, ordinal, k, g, "");
    SameCount((c: Candidate) => g in c.groupIds, Joins(g), Rounds(state, limits, candidates, ordinal, k).selected);
  }

  lemma {:induction false} SameCount(p: Candidate -> bool, q: Candidate -> bool, s: seq<Candidate>)
    requires forall c :: p(c) <==> q(c)
    ensures Count(p, s) == Count(q, s)
  {
    if s != [] { SameCount(p, q, s[1..]); }
  }

  lemma PrefixOfRounds(state: seq<Attempt>, limits: Limits, candidates: seq<Candidate>, ordinal: nat, n: nat, k: nat)
    requires k <= |Rounds(state, limits, candidates, ordinal, n).selected|
    ensures Rounds(state, limits, candidates, ordinal, k).selected == Rounds(state, limits, candidates, ordinal, n).selected[..k]
  {
    hide Rounds, Admissible, Chosen;
    PickAt(state, limits, candidates, ordinal, n, k);
    RoundsSplit(state, limits, candidates, ordinal, k, n - k);
    assert k + (n - k) == n;
  }

  lemma RoundsFairAt(state: seq<Attempt>, limits: Limits, candidates: seq<Candidate>, ordinal: nat, n: nat, k: nat)
    requires ordinal <= MAX_SAFE_INTEGER && k < |Rounds(state, limits, candidates, ordinal, n).selected|
    ensures FairAt(state, limits, candidates, ordinal, Rounds(state, limits, candidates, ordinal, n).selected, k)
  {
    hide Rounds, Admissible, Pick, OpenSet, IsFairChoice;
    PrefixOfRounds(state, limits, candidates, ordinal, n, k);
    PickAt(state, limits, candidates, ordinal, n, k);
    OpenIsAdmissible(state, limits, candidates, ordinal, k);
    OrdinalAfterMod(ordinal, k);
    PickIsFair(Admissible(StateAt(state, limits, candidates, ordinal, k), limits, candidates), OrdinalAfter(ordinal, k));
  }

  // The batch loop selects a fair run.
  lemma RoundsAreFair(state: seq<Attempt>, limits: Limits, candidates: seq<Candidate>, ordinal: nat, n: nat)
    requires ordinal <= MAX_SAFE_INTEGER
    ensures var picks := Rounds(state, limits, candidates, ordinal, n).selected;
      && FairRun(state, limits, candidates, ordinal, Some(n), picks)
      && (|picks| < n ==> FairRun(state, limits, candidates, ordinal, None, picks))
  {
    hide Rounds, Admissible, OpenSet, FairAt;
    var batch := Rounds(state, limits, candidates, ordinal, n);
    var m := |batch.selected|;
    forall k | 0 <= k < m ensures FairAt(state, limits, candidates, ordinal, batch.selected, k) {
      RoundsFairAt(state, limits, candidates, ordinal, n, k);
    }
    PickAt(state, limits, candidates, ordinal, n, m);
    PrefixOfRounds(state, limits, candidates, ordinal, n, m);
    assert batch.selected[..m] == batch.selected;
    OpenIsAdmissible(state, limits, candidates, ordinal, m);
  }

  // Two fair runs agree as far as both go.
  lemma {:induction false} SamePrefix(state: seq<Attempt>, limits: Limits, candidates: seq<Candidate>, ordinal: nat, limit: Option<nat>, a: seq<Candidate>, b: seq<Candidate>, k: nat)
    requires UniqueIds(Elems(candidates)) && k <= |a| && k <= |b|
    requires FairRun(state, limits, candidates, ordinal, limit, a) && FairRun(state, limits, candidates, ordinal, limit, b)
    ensures a[..k] == b[..k]
  {
    hide IsFairChoice, OpenSet;
    if k > 0 {
      SamePrefix(state, limits, candidates, ordinal, limit, a, b, k - 1);
      var open := OpenSet(state, limits, candidates, a[..k - 1]);
      assert FairAt(state, limits, candidates, ordinal, a, k - 1) && FairAt(state, limits, candidates, ordinal, b, k - 1);
      var turnsA :| IsFairChoice(open, turnsA, (ordinal + (k - 1)) % ORDINALS, a[k - 1]);
      var turnsB :| IsFairChoice(open, turnsB, (ordinal + (k - 1)) % ORDINALS, b[k - 1]);
      OpenUnique(state, limits, candidates, a[..k - 1]);
      FairChoiceUnique(open, (ordinal + (k - 1)) % ORDINALS, turnsA, a[k - 1], turnsB, b[k - 1]);
      assert a[..k] == a[..k - 1] + [a[k - 1]] && b[..k] == b[..k - 1] + [b[k - 1]];
    }
  }

  lemma OpenUnique(state: seq<Attempt>, limits: Limits, candidates: seq<Candidate>, picks: seq<Candidate>)
    requires UniqueIds(Elems(candidates))
    ensures UniqueIds(OpenSet(state, limits, candidates, picks))
  {
    hide Open;
  }

  lemma NotLonger(state: seq<Attempt>, limits: Limits, candidates: seq<Candidate>, ordinal: nat, limit: Option<nat>, a: seq<Candidate>, b: seq<Candidate>)
    requires UniqueIds(Elems(candidates))
    requires FairRun(state, limits, candidates, ordinal, limit, a) && FairRun(state, limits, candidates, ordinal, limit, b)
    ensures |a| <= |b|
  {
    hide FairAt;
    if |a| > |b| && OpenSet(state, limits, candidates, b) == {} {
      SamePrefix(state, limits, candidates, ordinal, limit, a, b, |b|);
      assert a[..|b|] == b[..|b|] == b;
      PickIsOpen(state, limits, candidates, ordinal, a, |b|);
    }
  }

  lemma PickIsOpen(state: seq<Attempt>, limits: Limits, candidates: seq<Candidate>, ordinal: nat, picks: seq<Candidate>, k: nat)
    requires k < |picks| && FairAt(state, limits, candidates, ordinal, picks, k)
    ensures OpenSet(state, limits, candidates, picks[..k]) != {}
  {
    hide OpenSet;
  }

  lemma FairRunUnique(state: seq<Attempt>, limits: Limits, candidates: seq<Candidate>, ordinal: nat, limit: Option<nat>, a: seq<Candidate>, b: seq<Candidate>)
    requires UniqueIds(Elems(candidates))
    requires FairRun(state, limits, candidates, ordinal, limit, a) && FairRun(state, limits, candidates, ordinal, limit, b)
    ensures a == b
  {
    hide FairRun;
    NotLonger(state, limits, candidates, ordinal, limit, a, b);
    NotLonger(state, limits, candidates, ordinal, limit, b, a);
    SamePrefix(state, limits, candidates, ordinal, limit, a, b, |a|);
    assert a[..|a|] == a && b[..|a|] == b;
  }

  lemma FewSelected(state: seq<Attempt>, limits: Limits, candidates: seq<Candidate>, ordinal: nat, n: nat)
    ensures |Rounds(state, limits, candidates, ordinal, n).selected| <= |candidates|
  {
    hide Rounds;
    var selected := Rounds(state, limits, candidates, ordinal, n).selected;
    SelectedWereAdmissible(state, limits, candidates, ordinal, n);
    forall i, j | 0 <= i < j < |selected| ensures selected[i] != selected[j] {
      assert CandidateKey(selected[i]) != CandidateKey(selected[j]);
    }
    DistinctCard(selected);
    assert Elems(selected) <= Elems(candidates);
    CardBound(Elems(selected), Elems(candidates));
    ElemsCard(candidates);
  }

  lemma CardBound<T>(a: set<T>, b: set<T>)
    requires a <= b
    ensures |a| <= |b|
  {
    assert b == a + (b - a);
  }

  lemma {:induction false} ElemsCard<T(!new)>(s: seq<T>)
    ensures |Elems(s)| <= |s|
  {
    if s != [] {
      ElemsCard(s[1..]);
      assert s == [s[0]] + s[1..];
      ElemsConcat([s[0]], s[1..]);
      assert Elems([s[0]]) == {s[0]};
    }
  }

  /**
   * A list of picks is what the batch selects if and only if it is a fair run of the
   * same inputs; without a limit the run ends only when nothing is left open.
   */
  lemma BatchIsTheFairRun(state: seq<Attempt>, registry: Option<seq<GroupDefinition>>, definitions: seq<GroupDefinition>, candidates: seq<Candidate>, ordinal: nat, limit: Option<nat>, picks: seq<Candidate>)
    requires CleanState(state) && CleanCandidates(candidates) && ResolveRegistry(registry) == Ok(definitions)
    requires AllKnown(candidates, LimitMap(definitions)) && |candidates| < MAX_SAFE_INTEGER
    requires ordinal <= MAX_SAFE_INTEGER && (limit.Some? ==> limit.value <= MAX_SAFE_INTEGER)
    ensures var outcome := BatchOutcome(state, registry, candidates, ordinal, limit);
      && outcome.Ok?
      && (outcome.value.selected == picks <==> FairRun(state, LimitMap(definitions), candidates, ordinal, limit, picks))
      && outcome.value.fairnessOrdinal == (ordinal + |outcome.value.selected|) % ORDINALS
  {
    hide Rounds, ParseInputs, LimitMap, FairRun, CleanState, CleanCandidates, AllKnown, UniqueIds;
    ParseCleanInputs(state, registry, definitions, candidates);
    UniqueIdsOfKeys(candidates) by { CleanKeys(candidates); }
    RoundsAreTheFairRun(state, LimitMap(definitions), candidates, ordinal, limit, picks);
  }

  lemma CleanKeys(candidates: seq<Candidate>)
    requires CleanCandidates(candidates)
    ensures KeysDistinct(CandidateKey, candidates)
  {
  }

  lemma RoundsAreTheFairRun(state: seq<Attempt>, limits: Limits, candidates: seq<Candidate>, ordinal: nat, limit: Option<nat>, picks: seq<Candidate>)
    requires UniqueIds(Elems(candidates)) && |candidates| < MAX_SAFE_INTEGER && ordinal <= MAX_SAFE_INTEGER
    ensures var batch := Rounds(state, limits, candidates, ordinal, limit.GetOr(MAX_SAFE_INTEGER));
      && (batch.selected == picks <==> FairRun(state, limits, candidates, ordinal, limit, picks))
      && batch.fairnessOrdinal == (ordinal + |batch.selected|) % ORDINALS
  {
    hide Rounds, FairRun, UniqueIds, Admissible, Chosen, StateAt;
    var n: nat := limit.GetOr(MAX_SAFE_INTEGER);
    RoundsAreFair(state, limits, candidates, ordinal, n);
    FewSelected(state, limits, candidates, ordinal, n);
    PickAt(state, limits, candidates, ordinal, n, 0);
    var selected := Rounds(state, limits, candidates, ordinal, n).selected;
    OrdinalAfterMod(ordinal, |selected|);
    if FairRun(state, limits, candidates, ordinal, limit, picks) {
      FairRunUnique(state, limits, candidates, ordinal, limit, selected, picks);
    }
  }
}
