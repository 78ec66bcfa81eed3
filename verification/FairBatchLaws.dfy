/**
 * Laws of whole batches: refinement of iterated single picks, splitting, order
 * independence, capacity, maximality, age order and round-robin turns.
 */
module FairBatchLaws {
  import opened Wrappers
  import opened Text
  import opened Counting
  import opened KeyedRecords
  import opened Ordinals
  import opened ConcurrencyGroups
  import opened FairSelection
  import opened FairBatch

  // ---------------------------------------------------------------------
  // One round
  // ---------------------------------------------------------------------

  // The pick of a round that is not idle, and the occupancy after it.
  function Chosen(state: seq<Attempt>, limits: Limits, candidates: seq<Candidate>, ordinal: nat): Candidate
    requires Admissible(state, limits, candidates) != []
  {
    Pick(Admissible(state, limits, candidates), ordinal)
  }

  function After(state: seq<Attempt>, limits: Limits, candidates: seq<Candidate>, ordinal: nat): seq<Attempt>
    requires Admissible(state, limits, candidates) != []
  {
    Admitted(state, AttemptOf(Chosen(state, limits, candidates, ordinal)))
  }

  lemma RoundsGo(state: seq<Attempt>, limits: Limits, candidates: seq<Candidate>, ordinal: nat, n: nat)
    requires n > 0 && Admissible(state, limits, candidates) != []
    ensures Rounds(state, limits, candidates, ordinal, n)
      == Prepend([Chosen(state, limits, candidates, ordinal)],
                 Rounds(After(state, limits, candidates, ordinal), limits, candidates, AdvanceOrdinal(ordinal), n - 1))
  {
    hide Pick, Admissible, Admitted;
  }

  lemma ChosenFacts(state: seq<Attempt>, limits: Limits, candidates: seq<Candidate>, ordinal: nat)
    requires Admissible(state, limits, candidates) != []
    ensures var c := Chosen(state, limits, candidates, ordinal);
      && c in candidates && !IsActive(state, c.attemptId) && HasCapacity(state, c.groupIds, limits)
      && forall d :: d in Admissible(state, limits, candidates) ==> c.readySequence <= d.readySequence
  {
    hide Pick;
    var admissible := Admissible(state, limits, candidates);
    PickIsFair(admissible, ordinal);
    assert IsAdmissible(state, limits)(Pick(admissible, ordinal));
  }

  lemma AdmissibleMember(state: seq<Attempt>, limits: Limits, candidates: seq<Candidate>, c: Candidate)
    ensures c in Admissible(state, limits, candidates)
      <==> c in candidates && !IsActive(state, c.attemptId) && HasCapacity(state, c.groupIds, limits)
  {
    assert IsAdmissible(state, limits)(c) <==> !IsActive(state, c.attemptId) && HasCapacity(state, c.groupIds, limits);
  }

  lemma AfterCount(state: seq<Attempt>, limits: Limits, candidates: seq<Candidate>, ordinal: nat, g: string)
    requires Admissible(state, limits, candidates) != []
    ensures Active(After(state, limits, candidates, ordinal), g)
      == Active(state, g) + (if g in Chosen(state, limits, candidates, ordinal).groupIds then 1 else 0)
  {
    hide Pick, Admissible, Admitted, Active;
    AdmittedCount(state, AttemptOf(Chosen(state, limits, candidates, ordinal)), g);
  }

  lemma AfterActive(state: seq<Attempt>, limits: Limits, candidates: seq<Candidate>, ordinal: nat, id: string)
    requires Admissible(state, limits, candidates) != []
    ensures IsActive(After(state, limits, candidates, ordinal), id)
      <==> IsActive(state, id) || id == Chosen(state, limits, candidates, ordinal).attemptId
  {
    hide Pick, Admissible, Admitted, IsActive;
    AdmittedActive(state, AttemptOf(Chosen(state, limits, candidates, ordinal)), id);
  }

  // ---------------------------------------------------------------------
  // Splitting
  // ---------------------------------------------------------------------

  /** A batch of a + b is a batch of a followed by a batch of b from the returned state and ordinal. */
  lemma {:induction false} RoundsSplit(state: seq<Attempt>, limits: Limits, candidates: seq<Candidate>, ordinal: nat, a: nat, b: nat)
    ensures var first := Rounds(state, limits, candidates, ordinal, a);
      Rounds(state, limits, candidates, ordinal, a + b)
      == Prepend(first.selected, Rounds(first.state, limits, candidates, first.fairnessOrdinal, b))
    decreases a
  {
    hide Rounds, Admissible, Chosen, After;
    if a == 0 || Admissible(state, limits, candidates) == [] {
      RoundsStop(state, limits, candidates, ordinal, a);
      if a > 0 {
        RoundsStop(state, limits, candidates, ordinal, a + b);
        RoundsStop(state, limits, candidates, ordinal, b);
      }
      assert [] + Rounds(state, limits, candidates, ordinal, b).selected == Rounds(state, limits, candidates, ordinal, b).selected;
    } else {
      RoundsGo(state, limits, candidates, ordinal, a);
      RoundsGo(state, limits, candidates, ordinal, a + b);
      var next := After(state, limits, candidates, ordinal);
      RoundsSplit(next, limits, candidates, AdvanceOrdinal(ordinal), a - 1, b);
      assert a - 1 + b == a + b - 1;
      var c := Chosen(state, limits, candidates, ordinal);
      var first := Rounds(next, limits, candidates, AdvanceOrdinal(ordinal), a - 1);
      var rest := Rounds(first.state, limits, candidates, first.fairnessOrdinal, b);
      assert [c] + (first.selected + rest.selected) == ([c] + first.selected) + rest.selected;
    }
  }

  // ---------------------------------------------------------------------
  // What the picks of a batch are
  // ---------------------------------------------------------------------

  // Occupancy before pick k of a batch.
  function StateAt(state: seq<Attempt>, limits: Limits, candidates: seq<Candidate>, ordinal: nat, k: nat): seq<Attempt> {
    Rounds(state, limits, candidates, ordinal, k).state
  }

  /**
   * Pick k is the fair choice among the candidates admissible after the first k
   * picks, at the ordinal advanced k times; and the batch is idle or full at its end.
   */
  lemma {:induction false} PickAt(state: seq<Attempt>, limits: Limits, candidates: seq<Candidate>, ordinal: nat, n: nat, k: nat)
    requires k <= |Rounds(state, limits, candidates, ordinal, n).selected|
    ensures var batch := Rounds(state, limits, candidates, ordinal, n);
      && |batch.selected| <= n
      && |Rounds(state, limits, candidates, ordinal, k).selected| == k
      && batch.fairnessOrdinal == OrdinalAfter(ordinal, |batch.selected|)
      && (k < |batch.selected| ==>
            && Admissible(StateAt(state, limits, candidates, ordinal, k), limits, candidates) != []
            && batch.selected[k] == Chosen(StateAt(state, limits, candidates, ordinal, k), limits, candidates, OrdinalAfter(ordinal, k)))
      && (|batch.selected| < n ==> Admissible(batch.state, limits, candidates) == [])
      && (k == |batch.selected| ==> StateAt(state, limits, candidates, ordinal, k) == batch.state)
    decreases n
  {
    hide Rounds, Admissible, Chosen, After;
    if n == 0 || Admissible(state, limits, candidates) == [] {
      RoundsStop(state, limits, candidates, ordinal, n);
      RoundsStop(state, limits, candidates, ordinal, k);
    } else {
      RoundsGo(state, limits, candidates, ordinal, n);
      var next := After(state, limits, candidates, ordinal);
      if k == 0 {
        PickAt(next, limits, candidates, AdvanceOrdinal(ordinal), n - 1, 0);
        RoundsStop(state, limits, candidates, ordinal, 0);
      } else {
        RoundsGo(state, limits, candidates, ordinal, k);
        PickAt(next, limits, candidates, AdvanceOrdinal(ordinal), n - 1, k - 1);
      }
    }
  }

  // Occupancy only grows during a batch, by exactly the selected attempts.
  lemma {:induction false} BatchOccupancy(state: seq<Attempt>, limits: Limits, candidates: seq<Candidate>, ordinal: nat, n: nat, g: string, id: string)
    ensures var batch := Rounds(state, limits, candidates, ordinal, n);
      && Active(batch.state, g) == Active(state, g) + Count((c: Candidate) => g in c.groupIds, batch.selected)
      && (IsActive(batch.state, id) <==> IsActive(state, id) || exists c :: c in batch.selected && c.attemptId == id)
    decreases n
  {
    hide Rounds, Admissible, Chosen, After, Active, IsActive;
    var inGroup := (c: Candidate) => g in c.groupIds;
    if n == 0 || Admissible(state, limits, candidates) == [] {
      RoundsStop(state, limits, candidates, ordinal, n);
    } else {
      RoundsGo(state, limits, candidates, ordinal, n);
      var c := Chosen(state, limits, candidates, ordinal);
      BatchOccupancy(After(state, limits, candidates, ordinal), limits, candidates, AdvanceOrdinal(ordinal), n - 1, g, id);
      AfterCount(state, limits, candidates, ordinal, g);
      AfterActive(state, limits, candidates, ordinal, id);
      var rest := Rounds(After(state, limits, candidates, ordinal), limits, candidates, AdvanceOrdinal(ordinal), n - 1);
      CountConcat(inGroup, [c], rest.selected);
      assert forall d :: d in [c] + rest.selected <==> d == c || d in rest.selected;
    }
  }

  // ---------------------------------------------------------------------
  // Capacity and maximality
  // ---------------------------------------------------------------------

  /** A group within its bound at the start is within it at the end; any other group does not grow. */
  lemma {:induction false} CapacityKept(state: seq<Attempt>, limits: Limits, candidates: seq<Candidate>, ordinal: nat, n: nat, g: string)
    ensures Active(Rounds(state, limits, candidates, ordinal, n).state, g)
      <= if g in limits && Active(state, g) <= limits[g] then limits[g] else Active(state, g)
    decreases n
  {
    hide Rounds, Admissible, Chosen, After, Active, IsActive;
    if n == 0 || Admissible(state, limits, candidates) == [] {
      RoundsStop(state, limits, candidates, ordinal, n);
    } else {
      RoundsGo(state, limits, candidates, ordinal, n);
      ChosenFacts(state, limits, candidates, ordinal);
      AfterCount(state, limits, candidates, ordinal, g);
      CapacityKept(After(state, limits, candidates, ordinal), limits, candidates, AdvanceOrdinal(ordinal), n - 1, g);
    }
  }

  // Some group of the candidate is known and full.
  ghost predicate Blocked(state: seq<Attempt>, limits: Limits, c: Candidate) {
    exists g :: g in c.groupIds && Full(state, limits, g)
  }

  predicate Full(state: seq<Attempt>, limits: Limits, g: string) {
    g in limits && Active(state, g) >= limits[g]
  }

  /** A batch that stops below its limit leaves nothing admissible: every candidate is active, selected, or blocked by a full group. */
  lemma BatchIsMaximal(state: seq<Attempt>, limits: Limits, candidates: seq<Candidate>, ordinal: nat, n: nat, c: Candidate)
    requires AllKnown(candidates, limits) && c in candidates
    requires |Rounds(state, limits, candidates, ordinal, n).selected| < n
    ensures || IsActive(state, c.attemptId)
            || (exists s :: s in Rounds(state, limits, candidates, ordinal, n).selected && s.attemptId == c.attemptId)
            || Blocked(Rounds(state, limits, candidates, ordinal, n).state, limits, c)
  {
    hide Rounds, Admissible, Chosen, After, Active, IsActive;
    var batch := Rounds(state, limits, candidates, ordinal, n);
    PickAt(state, limits, candidates, ordinal, n, 0);
    AdmissibleMember(batch.state, limits, candidates, c);
    BatchOccupancy(state, limits, candidates, ordinal, n, "", c.attemptId);
  }

  // ---------------------------------------------------------------------
  // Age order
  // ---------------------------------------------------------------------

  lemma AdmissibleShrinks(state: seq<Attempt>, limits: Limits, candidates: seq<Candidate>, ordinal: nat, c: Candidate)
    requires Admissible(state, limits, candidates) != []
    requires c in Admissible(After(state, limits, candidates, ordinal), limits, candidates)
    ensures c in Admissible(state, limits, candidates)
  {
    hide Admissible, Chosen, After, Active, IsActive;
    var next := After(state, limits, candidates, ordinal);
    AdmissibleMember(next, limits, candidates, c);
    AdmissibleMember(state, limits, candidates, c);
    AfterActive(state, limits, candidates, ordinal, c.attemptId);
    forall g | g in c.groupIds ensures g in limits && Active(state, g) < limits[g] {
      AfterCount(state, limits, candidates, ordinal, g);
    }
  }

  // Every pick of a batch was admissible when the batch began, and no two picks share an identity.
  lemma {:induction false} SelectedWereAdmissible(state: seq<Attempt>, limits: Limits, candidates: seq<Candidate>, ordinal: nat, n: nat)
    ensures forall c :: c in Rounds(state, limits, candidates, ordinal, n).selected ==> c in Admissible(state, limits, candidates)
    ensures KeysDistinct(CandidateKey, Rounds(state, limits, candidates, ordinal, n).selected)
    decreases n
  {
    hide Rounds, Admissible, Chosen, After, Active, IsActive;
    if n == 0 || Admissible(state, limits, candidates) == [] {
      RoundsStop(state, limits, candidates, ordinal, n);
    } else {
      RoundsGo(state, limits, candidates, ordinal, n);
      var next := After(state, limits, candidates, ordinal);
      var c := Chosen(state, limits, candidates, ordinal);
      SelectedWereAdmissible(next, limits, candidates, AdvanceOrdinal(ordinal), n - 1);
      ChosenFacts(state, limits, candidates, ordinal);
      AdmissibleMember(state, limits, candidates, c);
      forall d | d in Rounds(next, limits, candidates, AdvanceOrdinal(ordinal), n - 1).selected
        ensures d in Admissible(state, limits, candidates) && CandidateKey(d) != CandidateKey(c)
      {
        AdmissibleShrinks(state, limits, candidates, ordinal, d);
        AdmissibleMember(next, limits, candidates, d);
        AfterActive(state, limits, candidates, ordinal, d.attemptId);
      }
    }
  }

  ghost predicate AgesNeverDecrease(s: seq<Candidate>) {
    forall i, j :: 0 <= i < j < |s| ==> s[i].readySequence <= s[j].readySequence
  }

  /** The ready sequence never decreases along the selected list. */
  lemma {:induction false} SelectedByAge(state: seq<Attempt>, limits: Limits, candidates: seq<Candidate>, ordinal: nat, n: nat)
    ensures AgesNeverDecrease(Rounds(state, limits, candidates, ordinal, n).selected)
    decreases n
  {
    hide Rounds, Admissible, Chosen, After, Active, IsActive;
    if n == 0 || Admissible(state, limits, candidates) == [] {
      RoundsStop(state, limits, candidates, ordinal, n);
    } else {
      RoundsGo(state, limits, candidates, ordinal, n);
      var next := After(state, limits, candidates, ordinal);
      SelectedByAge(next, limits, candidates, AdvanceOrdinal(ordinal), n - 1);
      SelectedWereAdmissible(next, limits, candidates, AdvanceOrdinal(ordinal), n - 1);
      ChosenFacts(state, limits, candidates, ordinal);
      forall d | d in Rounds(next, limits, candidates, AdvanceOrdinal(ordinal), n - 1).selected
        ensures Chosen(state, limits, candidates, ordinal).readySequence <= d.readySequence
      {
        AdmissibleShrinks(state, limits, candidates, ordinal, d);
      }
    }
  }

  /**
   * No priority inversion: an initially inactive candidate that the batch leaves
   * out although it is strictly older than pick k had a full group at pick k,
   * and that group is still full at the end.
   */
  lemma NoPriorityInversion(state: seq<Attempt>, limits: Limits, candidates: seq<Candidate>, ordinal: nat, n: nat, k: nat, d: Candidate)
    requires AllKnown(candidates, limits) && d in candidates && !IsActive(state, d.attemptId)
    requires var selected := Rounds(state, limits, candidates, ordinal, n).selected;
      && k < |selected| && d.readySequence < selected[k].readySequence
      && forall s :: s in selected ==> s.attemptId != d.attemptId
    ensures var before, final := StateAt(state, limits, candidates, ordinal, k), Rounds(state, limits, candidates, ordinal, n).state;
      exists g :: g in d.groupIds && Full(before, limits, g) && Full(final, limits, g)
  {
    hide Rounds, Admissible, Chosen, After, Active, IsActive;
    var batch := Rounds(state, limits, candidates, ordinal, n);
    var before := Rounds(state, limits, candidates, ordinal, k);
    PickAt(state, limits, candidates, ordinal, n, k);
    RoundsSplit(state, limits, candidates, ordinal, k, n - k);
    ChosenFacts(before.state, limits, candidates, OrdinalAfter(ordinal, k));
    AdmissibleMember(before.state, limits, candidates, d);
    BatchOccupancy(state, limits, candidates, ordinal, k, "", d.attemptId);
    assert !HasCapacity(before.state, d.groupIds, limits);
    var g :| g in d.groupIds && !(g in limits && Active(before.state, g) < limits[g]);
    BatchOccupancy(before.state, limits, candidates, before.fairnessOrdinal, n - k, g, "");
  }

  // ---------------------------------------------------------------------
  // Order independence
  // ---------------------------------------------------------------------

  // The same candidates and the same active attempts, listed in any order.
  ghost predicate SameInputs(s1: seq<Attempt>, s2: seq<Attempt>, c1: seq<Candidate>, c2: seq<Candidate>) {
    && multiset(s1) == multiset(s2) && KeysDistinct(AttemptKey, s1) && KeysDistinct(AttemptKey, s2)
    && Elems(c1) == Elems(c2) && UniqueIds(Elems(c1))
  }

  lemma PermutationActive(s1: seq<Attempt>, s2: seq<Attempt>, id: string)
    requires multiset(s1) == multiset(s2)
    ensures IsActive(s1, id) <==> IsActive(s2, id)
  {
    IsActiveMember(s1, id);
    IsActiveMember(s2, id);
    assert forall a :: a in s1 <==> a in multiset(s1);
    assert forall a :: a in s2 <==> a in multiset(s2);
  }

  lemma SameAdmissible(s1: seq<Attempt>, s2: seq<Attempt>, limits: Limits, c1: seq<Candidate>, c2: seq<Candidate>)
    requires SameInputs(s1, s2, c1, c2)
    ensures Elems(Admissible(s1, limits, c1)) == Elems(Admissible(s2, limits, c2))
    ensures UniqueIds(Elems(Admissible(s1, limits, c1)))
  {
    hide Admissible, Active, IsActive;
    forall c ensures c in Admissible(s1, limits, c1) <==> c in Admissible(s2, limits, c2) {
      AdmissibleMember(s1, limits, c1, c);
      AdmissibleMember(s2, limits, c2, c);
      PermutationActive(s1, s2, c.attemptId);
      assert c in c1 <==> c in Elems(c1);
      assert c in c2 <==> c in Elems(c2);
      forall g ensures Active(s1, g) == Active(s2, g) { PermutationCount(s1, s2, g); }
    }
    forall c | c in Admissible(s1, limits, c1) ensures c in Elems(c1) { AdmissibleMember(s1, limits, c1, c); }
  }

  lemma PermutationCount(s1: seq<Attempt>, s2: seq<Attempt>, g: string)
    requires multiset(s1) == multiset(s2)
    ensures Active(s1, g) == Active(s2, g)
  {
    CountPermutation(InGroup(g), s1, s2);
  }

  lemma AdmittedPermutation(s1: seq<Attempt>, s2: seq<Attempt>, a: Attempt)
    requires multiset(s1) == multiset(s2) && KeysDistinct(AttemptKey, s1) && KeysDistinct(AttemptKey, s2)
    requires !IsActive(s1, a.attemptId)
    ensures Admitted(s1, a) == Admitted(s2, a)
    ensures KeysDistinct(AttemptKey, Admitted(s1, a))
  {
    PermutationActive(s1, s2, a.attemptId);
    AdmittedKeys(s1, a);
    AdmittedKeys(s2, a);
    KeyedSortedUnique(AttemptKey, Admitted(s1, a), Admitted(s2, a));
    KeyedSortedDistinct(AttemptKey, Admitted(s1, a));
  }

  lemma SameRound(s1: seq<Attempt>, s2: seq<Attempt>, limits: Limits, c1: seq<Candidate>, c2: seq<Candidate>, ordinal: nat)
    requires SameInputs(s1, s2, c1, c2) && Admissible(s1, limits, c1) != []
    ensures Admissible(s2, limits, c2) != []
    ensures Chosen(s1, limits, c1, ordinal) == Chosen(s2, limits, c2, ordinal)
    ensures After(s1, limits, c1, ordinal) == After(s2, limits, c2, ordinal)
    ensures KeysDistinct(AttemptKey, After(s1, limits, c1, ordinal))
  {
    hide Admissible, Pick, Admitted, IsActive;
    SameAdmissible(s1, s2, limits, c1, c2);
    var a1, a2 := Admissible(s1, limits, c1), Admissible(s2, limits, c2);
    assert a1[0] in Elems(a1) && a1[0] in Elems(a2);
    PickOfSet(a1, a2, ordinal);
    ChosenFacts(s1, limits, c1, ordinal);
    AdmittedPermutation(s1, s2, AttemptOf(Chosen(s1, limits, c1, ordinal)));
  }

  /** Permuting the candidates or the active attempts changes neither the selected sequence, nor the ordinal, nor the occupancy. */
  lemma {:induction false} RoundsOrderIndependent(s1: seq<Attempt>, s2: seq<Attempt>, limits: Limits, c1: seq<Candidate>, c2: seq<Candidate>, ordinal: nat, n: nat)
    requires SameInputs(s1, s2, c1, c2)
    ensures var b1, b2 := Rounds(s1, limits, c1, ordinal, n), Rounds(s2, limits, c2, ordinal, n);
      && b1.selected == b2.selected && b1.fairnessOrdinal == b2.fairnessOrdinal
      && multiset(b1.state) == multiset(b2.state)
      && (b1.selected != [] || s1 == s2 ==> b1.state == b2.state)
    decreases n
  {
    hide Rounds, Admissible, Chosen, After, IsActive;
    SameAdmissible(s1, s2, limits, c1, c2);
    if n == 0 || Admissible(s1, limits, c1) == [] {
      RoundsStop(s1, limits, c1, ordinal, n);
      if Admissible(s1, limits, c1) == [] {
        assert |Admissible(s2, limits, c2)| > 0 ==> Admissible(s2, limits, c2)[0] in Elems(Admissible(s2, limits, c2));
      }
      RoundsStop(s2, limits, c2, ordinal, n);
    } else {
      SameRound(s1, s2, limits, c1, c2, ordinal);
      RoundsGo(s1, limits, c1, ordinal, n);
      RoundsGo(s2, limits, c2, ordinal, n);
      var next := After(s1, limits, c1, ordinal);
      RoundsOrderIndependent(next, next, limits, c1, c2, AdvanceOrdinal(ordinal), n - 1);
    }
  }

  lemma KeysDistinctPermutation<T(!new)>(key: T -> string, a: seq<T>, b: seq<T>)
    requires KeysDistinct(key, a) && multiset(a) == multiset(b)
    ensures KeysDistinct(key, b)
  {
    forall i, j | 0 <= i < j < |b| ensures key(b[i]) != key(b[j]) {
      assert b[i] in multiset(a) && b[j] in multiset(a);
      var p :| 0 <= p < |a| && a[p] == b[i];
      var q :| 0 <= q < |a| && a[q] == b[j];
      if b[i] == b[j] {
        TwiceInList(b, i, j);
        OnceInList(key, a, b[i]);
      } else {
        assert p != q;
      }
    }
  }

  lemma TwiceInList<T>(s: seq<T>, i: nat, j: nat)
    requires i < j < |s| && s[i] == s[j]
    ensures multiset(s)[s[i]] >= 2
  {
    assert s == s[..j] + ([s[j]] + s[j + 1..]);
    assert s[i] in s[..j];
  }

  lemma {:induction false} OnceInList<T>(key: T -> string, s: seq<T>, x: T)
    requires KeysDistinct(key, s)
    ensures multiset(s)[x] <= 1
  {
    if s != [] {
      assert s == [s[0]] + s[1..];
      OnceInList(key, s[1..], x);
      forall y | y in s[1..] ensures y != s[0] {
        var k :| 0 <= k < |s[1..]| && s[1..][k] == y;
        assert y == s[k + 1];
      }
    }
  }

  lemma UniqueIdsOfKeys(candidates: seq<Candidate>)
    requires KeysDistinct(CandidateKey, candidates)
    ensures UniqueIds(Elems(candidates))
  {
    forall c, d | c in candidates && d in candidates && c.attemptId == d.attemptId ensures c == d {
      var i :| 0 <= i < |candidates| && candidates[i] == c;
      var j :| 0 <= j < |candidates| && candidates[j] == d;
      assert CandidateKey(candidates[i]) == CandidateKey(candidates[j]);
    }
  }

  lemma ParseCleanInputs(state: seq<Attempt>, registry: Option<seq<GroupDefinition>>, definitions: seq<GroupDefinition>, candidates: seq<Candidate>)
    requires CleanState(state) && CleanCandidates(candidates) && ResolveRegistry(registry) == Ok(definitions)
    ensures ParseInputs(state, registry, candidates)
      == if AllKnown(candidates, LimitMap(definitions)) then Ok(Inputs(state, LimitMap(definitions), candidates)) else Err([UnknownGroup])
  {
    ParseStateClean(state);
    ParseCandidatesClean(candidates);
  }

  /** The whole operation, its error paths included, is blind to the order of candidates and of stored attempts. */
  lemma BatchOrderIndependent(s1: seq<Attempt>, s2: seq<Attempt>, registry: Option<seq<GroupDefinition>>, c1: seq<Candidate>, c2: seq<Candidate>, ordinal: int, maxCount: Option<int>)
    requires CleanState(s1) && CleanCandidates(c1) && multiset(s1) == multiset(s2) && multiset(c1) == multiset(c2)
    ensures var b1, b2 := BatchOutcome(s1, registry, c1, ordinal, maxCount), BatchOutcome(s2, registry, c2, ordinal, maxCount);
      if b1.Err? then b2 == b1
      else && b2.Ok? && b1.value.selected == b2.value.selected && b1.value.fairnessOrdinal == b2.value.fairnessOrdinal
           && multiset(b1.value.state) == multiset(b2.value.state)
           && (b1.value.selected != [] ==> b1.value.state == b2.value.state)
  {
    hide Rounds, ParseState, ParseCandidates, ResolveRegistry;
    KeysDistinctPermutation(AttemptKey, s1, s2);
    KeysDistinctPermutation(CandidateKey, c1, c2);
    assert forall a :: a in s2 <==> a in multiset(s1);
    assert forall c :: c in c2 <==> c in multiset(c1);
    assert Elems(c1) == Elems(c2);
    UniqueIdsOfKeys(c1);
    ParseStateClean(s1);
    ParseStateClean(s2);
    match ResolveRegistry(registry) {
      case Err(_) =>
      case Ok(definitions) =>
        ParseCleanInputs(s1, registry, definitions, c1);
        ParseCleanInputs(s2, registry, definitions, c2);
        assert AllKnown(c1, LimitMap(definitions)) <==> AllKnown(c2, LimitMap(definitions));
        if NonNegativeSafe(ordinal) && NonNegativeSafe(BatchLimit(maxCount)) {
          RoundsOrderIndependent(s1, s2, LimitMap(definitions), c1, c2, ordinal, BatchLimit(maxCount));
        }
    }
  }

  // ---------------------------------------------------------------------
  // Refinement of iterated single picks, and splitting, on unchecked input
  // ---------------------------------------------------------------------

  lemma CandidateAttempt(candidates: seq<Candidate>, c: Candidate)
    requires CleanCandidates(candidates) && c in candidates
    ensures CleanAttempt(AttemptOf(c))
  {
  }

  // A batch keeps the occupancy well formed and the ordinal a safe integer.
  lemma {:induction false} RoundsClean(state: seq<Attempt>, limits: Limits, candidates: seq<Candidate>, ordinal: nat, n: nat)
    requires CleanState(state) && CleanCandidates(candidates) && ordinal <= MAX_SAFE_INTEGER
    ensures CleanState(Rounds(state, limits, candidates, ordinal, n).state)
    ensures Rounds(state, limits, candidates, ordinal, n).fairnessOrdinal <= MAX_SAFE_INTEGER
    decreases n
  {
    hide Rounds, Admissible, Chosen, IsActive, CleanState, CleanCandidates, Admitted;
    if n == 0 || Admissible(state, limits, candidates) == [] {
      RoundsStop(state, limits, candidates, ordinal, n);
    } else {
      RoundsGo(state, limits, candidates, ordinal, n);
      ChosenFacts(state, limits, candidates, ordinal);
      var c := Chosen(state, limits, candidates, ordinal);
      CandidateAttempt(candidates, c);
      AdmittedClean(state, AttemptOf(c));
      RoundsClean(After(state, limits, candidates, ordinal), limits, candidates, AdvanceOrdinal(ordinal), n - 1);
    }
  }

  // One call of the single-pick helper on parsed occupancy is one round.
  lemma SinglePickIsRound(state: seq<Attempt>, registry: Option<seq<GroupDefinition>>, raw: seq<Candidate>, inputs: Inputs, ordinal: nat)
    requires CleanState(state) && ordinal <= MAX_SAFE_INTEGER && ParseInputs(state, registry, raw) == Ok(inputs)
    ensures inputs.state == state
    ensures SelectAndAdmit(state, registry, raw, ordinal)
      == if Admissible(state, inputs.limits, inputs.candidates) == [] then Ok(None)
         else Ok(Some((Chosen(state, inputs.limits, inputs.candidates, ordinal), After(state, inputs.limits, inputs.candidates, ordinal))))
  {
    hide Admissible, Pick, Admitted, IsActive, ParseCandidates, ResolveRegistry, AdmitGroupAttempt, EvaluateAdmission, ParseState, CleanState;
    ParseStateClean(state);
    ParseCandidatesClean(raw);
    if Admissible(state, inputs.limits, inputs.candidates) != [] {
      var c := Chosen(state, inputs.limits, inputs.candidates, ordinal);
      ChosenFacts(state, inputs.limits, inputs.candidates, ordinal);
      CandidateAttempt(inputs.candidates, c);
      PickIsAdmitted(state, inputs.limits, inputs.candidates, ordinal);
      AdmitCleanInputs(state, AttemptOf(c), registry, ResolveRegistry(registry).value);
    }
  }

  lemma {:induction false} RoundsAreSinglePicks(state: seq<Attempt>, registry: Option<seq<GroupDefinition>>, raw: seq<Candidate>, inputs: Inputs, ordinal: nat, n: nat)
    requires CleanState(state) && ordinal <= MAX_SAFE_INTEGER && ParseInputs(state, registry, raw) == Ok(inputs)
    ensures IterateSinglePicks(state, registry, raw, ordinal, n) == Ok(Rounds(state, inputs.limits, inputs.candidates, ordinal, n))
    decreases n
  {
    hide Rounds, Admissible, Chosen, After, IsActive, SelectAndAdmit, ParseState, ParseCandidates, ResolveRegistry, CleanState, CleanCandidates;
    if n == 0 {
      RoundsStop(state, inputs.limits, inputs.candidates, ordinal, n);
    } else {
      SinglePickIsRound(state, registry, raw, inputs, ordinal);
      if Admissible(state, inputs.limits, inputs.candidates) == [] {
        RoundsStop(state, inputs.limits, inputs.candidates, ordinal, n);
      } else {
        RoundsGo(state, inputs.limits, inputs.candidates, ordinal, n);
        var next := After(state, inputs.limits, inputs.candidates, ordinal);
        ParseCandidatesClean(raw);
        RoundsClean(state, inputs.limits, inputs.candidates, ordinal, 1);
        RoundsGo(state, inputs.limits, inputs.candidates, ordinal, 1);
        RoundsStop(next, inputs.limits, inputs.candidates, AdvanceOrdinal(ordinal), 0);
        ParseStateClean(next);
        RoundsAreSinglePicks(next, registry, raw, Inputs(next, inputs.limits, inputs.candidates), AdvanceOrdinal(ordinal), n - 1);
      }
    }
  }

  /**
   * The batch loop refines iterated single picks: on the same unchecked inputs it
   * fails exactly when a bound or an input is invalid, and otherwise its selected
   * list, occupancy and ordinal are those of repeating the single-pick helper. It
   * reports a bad bound before any input, and a bad input with the helper's own codes.
   */
  lemma BatchRefinesSinglePicks(state: seq<Attempt>, registry: Option<seq<GroupDefinition>>, candidates: seq<Candidate>, ordinal: int, maxCount: Option<int>)
    ensures BatchOutcome(state, registry, candidates, ordinal, maxCount).Ok?
      <==> NonNegativeSafe(BatchLimit(maxCount)) && SelectAndAdmit(state, registry, candidates, ordinal).Ok?
    ensures BatchOutcome(state, registry, candidates, ordinal, maxCount).Ok? ==>
      BatchOutcome(state, registry, candidates, ordinal, maxCount)
      == IterateSinglePicks(ParseState(state).value, registry, candidates, ordinal, BatchLimit(maxCount))
    ensures BatchOutcome(state, registry, candidates, ordinal, maxCount).Err? ==>
      BatchOutcome(state, registry, candidates, ordinal, maxCount).error ==
        if !NonNegativeSafe(ordinal) then [FairnessInvalidOrdinal]
        else if !NonNegativeSafe(BatchLimit(maxCount)) then [FairnessInvalidBatchLimit]
        else SelectAndAdmit(state, registry, candidates, ordinal).error
  {
    hide Rounds, Admissible, Pick, IsActive, ParseState, ParseCandidates, ResolveRegistry, AdmitGroupAttempt, Admitted, CleanState;
    match ParseInputs(state, registry, candidates) {
      case Err(_) =>
      case Ok(inputs) =>
        ParseStateClean(state);
        ParseStateClean(inputs.state);
        if NonNegativeSafe(ordinal) {
          SinglePickIsRound(inputs.state, registry, candidates, inputs, ordinal);
          SelectAndAdmitParses(state, inputs.state, registry, candidates, ordinal);
          if NonNegativeSafe(BatchLimit(maxCount)) {
            RoundsAreSinglePicks(inputs.state, registry, candidates, inputs, ordinal, BatchLimit(maxCount));
          }
        }
    }
  }

  /**
   * The single-pick helper reports what is wrong with the occupancy, else with the
   * registry, else with the candidates, else an unknown group, else the ordinal; with
   * nothing wrong it is idle exactly when no candidate is admissible.
   */
  lemma SinglePickReportsFirst(state: seq<Attempt>, registry: Option<seq<GroupDefinition>>, candidates: seq<Candidate>, ordinal: int)
    ensures var r := SelectFairCandidate(state, registry, candidates, ordinal);
      match (ParseState(state), ResolveRegistry(registry), ParseCandidates(candidates))
      case (Err(codes), _, _) => r == Err(codes)
      case (_, Err(codes), _) => r == Err(codes)
      case (_, _, Err(codes)) => r == Err(codes)
      case (Ok(attempts), Ok(definitions), Ok(clean)) =>
        if exists c, g :: c in clean && g in c.groupIds && g !in LimitMap(definitions) then r == Err([UnknownGroup])
        else if !(0 <= ordinal <= MAX_SAFE_INTEGER) then r == Err([FairnessInvalidOrdinal])
        else
          && r.Ok?
          && (r.value.None? <==> forall c :: c in clean ==>
                IsActive(attempts, c.attemptId) || exists g :: g in c.groupIds && Full(attempts, LimitMap(definitions), g))
          && (r.value.Some? ==> r.value.value in clean)
  {
    hide ParseState, ResolveRegistry, ParseCandidates, Pick, Active, IsActive, LimitMap;
    if ParseState(state).Ok? && ResolveRegistry(registry).Ok? && ParseCandidates(candidates).Ok? {
      var attempts, limits, clean := ParseState(state).value, LimitMap(ResolveRegistry(registry).value), ParseCandidates(candidates).value;
      forall c ensures c in Admissible(attempts, limits, clean) <==> c in clean && !IsActive(attempts, c.attemptId) && HasCapacity(attempts, c.groupIds, limits) {
        AdmissibleMember(attempts, limits, clean, c);
      }
      NothingAdmissible(attempts, limits, clean);
    }
  }

  lemma NothingAdmissible(state: seq<Attempt>, limits: Limits, candidates: seq<Candidate>)
    ensures Admissible(state, limits, candidates) == [] <==>
      forall c :: c in candidates ==> IsActive(state, c.attemptId) || !HasCapacity(state, c.groupIds, limits)
  {
    hide IsActive, HasCapacity, Admissible;
    var admissible := Admissible(state, limits, candidates);
    forall c ensures c in admissible <==> c in candidates && !IsActive(state, c.attemptId) && HasCapacity(state, c.groupIds, limits) {
      AdmissibleMember(state, limits, candidates, c);
    }
    if admissible != [] { assert admissible[0] in admissible; }
  }

  // The single-pick helper sees stored attempts only through their parsed form.
  lemma SelectAndAdmitParses(raw: seq<Attempt>, state: seq<Attempt>, registry: Option<seq<GroupDefinition>>, candidates: seq<Candidate>, ordinal: int)
    requires ParseState(raw) == Ok(state) && ParseState(state) == Ok(state)
    ensures SelectAndAdmit(raw, registry, candidates, ordinal) == SelectAndAdmit(state, registry, candidates, ordinal)
  {
    hide Admissible, Pick, IsActive, ParseState, ParseCandidates, ResolveRegistry, Admitted, ExtractAttempt, EvaluateAdmission;
  }

  /** A batch of a + b is a batch of a, then a batch of b on the same candidates from what the first returned. */
  lemma BatchSplits(state: seq<Attempt>, registry: Option<seq<GroupDefinition>>, candidates: seq<Candidate>, ordinal: int, a: nat, b: nat)
    requires a + b <= MAX_SAFE_INTEGER
    ensures var whole := BatchOutcome(state, registry, candidates, ordinal, Some(a + b));
      var first := BatchOutcome(state, registry, candidates, ordinal, Some(a));
      && (whole.Ok? <==> first.Ok?)
      && (first.Ok? ==>
            var second := BatchOutcome(first.value.state, registry, candidates, first.value.fairnessOrdinal, Some(b));
            second.Ok? && whole.value == Prepend(first.value.selected, second.value))
  {
    hide Rounds, ParseState, ParseCandidates, ResolveRegistry, CleanState, CleanCandidates;
    if NonNegativeSafe(ordinal) && ParseInputs(state, registry, candidates).Ok? {
      var inputs := ParseInputs(state, registry, candidates).value;
      ParseStateClean(state);
      ParseCandidatesClean(candidates);
      RoundsClean(inputs.state, inputs.limits, inputs.candidates, ordinal, a);
      RoundsSplit(inputs.state, inputs.limits, inputs.candidates, ordinal, a, b);
      ParseStateClean(Rounds(inputs.state, inputs.limits, inputs.candidates, ordinal, a).state);
    }
  }

  // ---------------------------------------------------------------------
  // Round-robin turns
  // ---------------------------------------------------------------------

  // The fairness keys of the oldest candidates admissible before pick k, in turn order.
  function KeysAt(state: seq<Attempt>, limits: Limits, candidates: seq<Candidate>, ordinal: nat, k: nat): seq<string> {
    var admissible := Admissible(StateAt(state, limits, candidates, ordinal, k), limits, candidates);
    if admissible == [] then [] else KeyTurns(Oldest(admissible))
  }

  // Pick k takes the key whose turn its ordinal names.
  lemma KeyOfPick(state: seq<Attempt>, limits: Limits, candidates: seq<Candidate>, ordinal: nat, n: nat, k: nat)
    requires k < |Rounds(state, limits, candidates, ordinal, n).selected|
    ensures var keys := KeysAt(state, limits, candidates, ordinal, k);
      keys != [] && Rounds(state, limits, candidates, ordinal, n).selected[k].fairnessKey == keys[OrdinalAfter(ordinal, k) % |keys|]
  {
    hide Rounds, Admissible, Pick;
    PickAt(state, limits, candidates, ordinal, n, k);
    PickIsFair(Admissible(StateAt(state, limits, candidates, ordinal, k), limits, candidates), OrdinalAfter(ordinal, k));
  }

  /**
   * Round-robin inside a batch: while the oldest admissible work keeps the same
   * m fairness keys over m consecutive picks, and the turns do not break at the
   * wrap, each key is picked exactly once.
   */
  lemma RoundRobinInBatch(state: seq<Attempt>, limits: Limits, candidates: seq<Candidate>, ordinal: nat, n: nat, k: nat, keys: seq<string>, slot: nat)
    requires slot < |keys| && StrictlySorted(keys) && ordinal <= MAX_SAFE_INTEGER
    requires k + |keys| <= |Rounds(state, limits, candidates, ordinal, n).selected|
    requires forall i :: k <= i < k + |keys| ==> KeysAt(state, limits, candidates, ordinal, i) == keys
    requires OrdinalAfter(ordinal, k) + |keys| - 1 <= MAX_SAFE_INTEGER || ORDINALS % |keys| == 0
    ensures var selected := Rounds(state, limits, candidates, ordinal, n).selected;
      exists i :: k <= i < k + |keys| && selected[i].fairnessKey == keys[slot]
        && forall j :: k <= j < k + |keys| && selected[j].fairnessKey == keys[slot] ==> j == i
  {
    hide Rounds, KeysAt;
    var selected := Rounds(state, limits, candidates, ordinal, n).selected;
    var m, start := |keys|, OrdinalAfter(ordinal, k);
    OrdinalAfterSafe(ordinal, k);
    if ORDINALS % m == 0 { DivisorKeepsCycle(start, m); } else { RoundRobinTurns(start, m); }
    StrictlySortedNoDup(keys);
    forall i | 0 <= i < m ensures selected[k + i].fairnessKey == keys[slot] <==> TurnHits(start, m, i, slot) {
      KeyOfPick(state, limits, candidates, ordinal, n, k + i);
      OrdinalAfterAdd(ordinal, k, i);
    }
    assert HitOnce(start, m, slot);
    var i :| 0 <= i < m && TurnHits(start, m, i, slot) && forall j :: 0 <= j < m && TurnHits(start, m, j, slot) ==> j == i;
    forall j | k <= j < k + m && selected[j].fairnessKey == keys[slot] ensures j == k + i {
      assert TurnHits(start, m, j - k, slot);
    }
    assert selected[k + i].fairnessKey == keys[slot];
  }
}
