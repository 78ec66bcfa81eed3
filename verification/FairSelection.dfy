/**
 * The choice of one candidate: the oldest ready work first, then the fairness
 * key whose turn the ordinal names, then the least identity.
 */
module FairSelection {
  import opened Wrappers
  import opened Text
  import opened Counting
  import opened Ordinals
  import opened RecordLists
  import opened ConcurrencyGroups

  datatype Candidate = Candidate(attemptId: string, readySequence: int, fairnessKey: string, groupIds: seq<string>)

  // ---------------------------------------------------------------------
  // Candidate lists
  // ---------------------------------------------------------------------

  function CandidateKey(candidate: Candidate): string {
    candidate.attemptId
  }

  function ExtractCandidate(raw: Candidate): Result<Candidate, Codes> {
    var codes :=
      (if Trim(raw.attemptId) == "" then [FairnessInvalidAttemptId] else []) +
      (if NonNegativeSafe(raw.readySequence) then [] else [FairnessInvalidReadySequence]) +
      (if Trim(raw.fairnessKey) == "" then [FairnessInvalidKey] else []);
    match ParseGroupIds(raw.groupIds)
    case Err(groupCodes) => Err(codes + groupCodes)
    case Ok(groupIds) =>
      if codes == [] then Ok(Candidate(Trim(raw.attemptId), raw.readySequence, Trim(raw.fairnessKey), groupIds))
      else Err(codes)
  }

  function ParseCandidates(raw: seq<Candidate>): Result<seq<Candidate>, Codes> {
    ParseAll(raw, ExtractCandidate, CandidateKey, FairnessDuplicateAttemptId)
  }

  ghost predicate CleanCandidate(c: Candidate) {
    CleanId(c.attemptId) && NonNegativeSafe(c.readySequence) && CleanId(c.fairnessKey) && CleanGroupIds(c.groupIds)
  }

  ghost predicate CleanCandidates(candidates: seq<Candidate>) {
    && (forall c :: c in candidates ==> CleanCandidate(c))
    && KeysDistinct(CandidateKey, candidates)
  }

  lemma ExtractCandidateClean(raw: Candidate)
    ensures ExtractCandidate(raw) != Err([])
    ensures ExtractCandidate(raw).Ok? ==> CleanCandidate(ExtractCandidate(raw).value)
    ensures CleanCandidate(raw) ==> ExtractCandidate(raw) == Ok(raw)
  {
    ParseGroupIdsClean(raw.groupIds);
  }

  /** Parsed candidates are clean, with unique attempt ids. */
  lemma ParseCandidatesClean(raw: seq<Candidate>)
    ensures ParseCandidates(raw) != Err([])
    ensures ParseCandidates(raw).Ok? ==> CleanCandidates(ParseCandidates(raw).value)
    ensures CleanCandidates(raw) ==> ParseCandidates(raw) == Ok(raw)
  {
    forall c: Candidate { ExtractCandidateClean(c); }
    ParseAllAccepts(raw, ExtractCandidate, CandidateKey, FairnessDuplicateAttemptId);
    if ParseCandidates(raw).Ok? {
      var clean := ParseCandidates(raw).value;
      forall c | c in clean ensures CleanCandidate(c) {
        var i :| 0 <= i < |clean| && clean[i] == c;
        assert ExtractCandidate(raw[i]) == Ok(c);
      }
    }
    if CleanCandidates(raw) {
      ParseAllIdentity(raw, ExtractCandidate, CandidateKey, FairnessDuplicateAttemptId);
    }
  }

  // What is wrong with one candidate.
  ghost predicate CandidateFault(raw: Candidate, code: Code) {
    match code
    case FairnessInvalidAttemptId => Blank(raw.attemptId)
    case FairnessInvalidReadySequence => !(0 <= raw.readySequence <= MAX_SAFE_INTEGER)
    case FairnessInvalidKey => Blank(raw.fairnessKey)
    case _ => GroupIdFault(raw.groupIds, code)
  }

  ghost predicate SoundCandidate(raw: Candidate) {
    && !Blank(raw.attemptId) && 0 <= raw.readySequence <= MAX_SAFE_INTEGER && !Blank(raw.fairnessKey)
    && NamesGroups(raw.groupIds)
  }

  // The parsed form of a candidate: its texts trimmed, its group ids in order.
  ghost predicate ParsedCandidate(raw: Candidate, c: Candidate) {
    && c.attemptId == Trim(raw.attemptId) && c.fairnessKey == Trim(raw.fairnessKey) && c.readySequence == raw.readySequence
    && TrimmedIds(raw.groupIds, c.groupIds)
  }

  /** A candidate extracts to its parsed form exactly when it is sound; otherwise it reports exactly its faults. */
  lemma ExtractCandidateExactly(raw: Candidate)
    ensures match ExtractCandidate(raw)
            case Ok(c) => SoundCandidate(raw) && ParsedCandidate(raw, c)
            case Err(codes) => !SoundCandidate(raw) && forall code :: code in codes <==> CandidateFault(raw, code)
  {
    hide Trim, ParseGroupIds, TrimmedIds;
    ParseGroupIdsExactly(raw.groupIds);
    if NamesGroups(raw.groupIds) {
      NoGroupFault(raw.groupIds);
    }
  }

  // What is wrong with a candidate list: a faulty candidate, or two sound ones of one trimmed id.
  ghost predicate CandidatesFault(raw: seq<Candidate>, code: Code) {
    || (exists i :: 0 <= i < |raw| && CandidateFault(raw[i], code))
    || (code == FairnessDuplicateAttemptId && exists i, j :: 0 <= i < j < |raw| && SameSoundCandidate(raw[i], raw[j]))
  }

  ghost predicate SameSoundCandidate(a: Candidate, b: Candidate) {
    SoundCandidate(a) && SoundCandidate(b) && Trim(a.attemptId) == Trim(b.attemptId)
  }

  /** Candidates parse to the parsed forms of the entries, in their order, or the parse reports exactly their faults. */
  lemma ParseCandidatesExactly(raw: seq<Candidate>)
    ensures match ParseCandidates(raw)
            case Ok(clean) =>
              && |clean| == |raw| && (forall code :: !CandidatesFault(raw, code))
              && forall i :: 0 <= i < |raw| ==> ParsedCandidate(raw[i], clean[i])
            case Err(codes) => forall code :: code in codes <==> CandidatesFault(raw, code)
  {
    hide Trim, ExtractCandidate, ParsedCandidate, CleanCandidate;
    forall c: Candidate { ExtractCandidateClean(c); }
    ParseAllAccepts(raw, ExtractCandidate, CandidateKey, FairnessDuplicateAttemptId);
    ParseAllDiagnoses(raw, ExtractCandidate, CandidateKey, FairnessDuplicateAttemptId);
    forall i | 0 <= i < |raw| && ExtractCandidate(raw[i]).Ok? ensures ParsedCandidate(raw[i], ExtractCandidate(raw[i]).value) {
      ExtractCandidateExactly(raw[i]);
    }
    forall code ensures Diagnosed(raw, ExtractCandidate, CandidateKey, FairnessDuplicateAttemptId, code) <==> CandidatesFault(raw, code) {
      CandidatesDiagnosed(raw, code);
    }
  }

  lemma CandidateFaultAt(raw: Candidate, code: Code)
    ensures match ExtractCandidate(raw)
            case Ok(c) => SoundCandidate(raw) && c.attemptId == Trim(raw.attemptId) && !CandidateFault(raw, code)
            case Err(codes) => !SoundCandidate(raw) && (code in codes <==> CandidateFault(raw, code))
  {
    hide Trim, ExtractCandidate, GroupIdFault;
    ExtractCandidateExactly(raw);
    if SoundCandidate(raw) {
      NoGroupFault(raw.groupIds);
    }
  }

  lemma CandidatesDiagnosed(raw: seq<Candidate>, code: Code)
    ensures Diagnosed(raw, ExtractCandidate, CandidateKey, FairnessDuplicateAttemptId, code) <==> CandidatesFault(raw, code)
  {
    hide Trim, ExtractCandidate, SoundCandidate, CandidateFault, Diagnosed;
    ghost var fault: Candidate -> bool := c => CandidateFault(c, code);
    var idOf: Candidate -> string := (c: Candidate) => Trim(c.attemptId);
    forall c: Candidate
      ensures FaultAt(c, ExtractCandidate, CandidateKey, code, fault, idOf) && (ExtractCandidate(c).Ok? <==> SoundCandidate(c))
    {
      CandidateFaultAt(c, code);
    }
    DiagnosedExactly(raw, ExtractCandidate, CandidateKey, FairnessDuplicateAttemptId, code, fault, idOf);
    assert forall a, b :: SameKey(a, b, ExtractCandidate, idOf) <==> SameSoundCandidate(a, b);
  }

  // ---------------------------------------------------------------------
  // Identity order
  // ---------------------------------------------------------------------

  // The group ids joined by NUL characters.
  function Joined(groupIds: seq<string>): string {
    if groupIds == [] then ""
    else if |groupIds| == 1 then groupIds[0]
    else groupIds[0] + "\0" + Joined(groupIds[1..])
  }

  // The final tie-break puts l strictly before r.
  predicate Before(l: Candidate, r: Candidate) {
    if l.attemptId != r.attemptId then Less(l.attemptId, r.attemptId)
    else if l.fairnessKey != r.fairnessKey then Less(l.fairnessKey, r.fairnessKey)
    else Less(Joined(l.groupIds), Joined(r.groupIds))
  }

  lemma BeforeTransitive(a: Candidate, b: Candidate, c: Candidate)
    requires Before(a, b) && Before(b, c)
    ensures Before(a, c)
  {
    if a.attemptId != c.attemptId {
      if a.attemptId != b.attemptId && b.attemptId != c.attemptId { LessTransitive(a.attemptId, b.attemptId, c.attemptId); }
    } else if a.attemptId != b.attemptId {
      LessAsymmetric(a.attemptId, b.attemptId);
    } else if a.fairnessKey != c.fairnessKey {
      if a.fairnessKey != b.fairnessKey && b.fairnessKey != c.fairnessKey { LessTransitive(a.fairnessKey, b.fairnessKey, c.fairnessKey); }
    } else if a.fairnessKey != b.fairnessKey {
      LessAsymmetric(a.fairnessKey, b.fairnessKey);
    } else {
      LessTransitive(Joined(a.groupIds), Joined(b.groupIds), Joined(c.groupIds));
    }
  }

  lemma BeforeIrreflexive(a: Candidate)
    ensures !Before(a, a)
  {
    LessIrreflexive(Joined(a.groupIds));
  }

  function InsertOrdered(x: Candidate, s: seq<Candidate>): (r: seq<Candidate>)
    ensures multiset(r) == multiset(s) + multiset{x}
  {
    if s == [] || Before(x, s[0]) then
      assert multiset([x] + s) == multiset{x} + multiset(s);
      [x] + s
    else
      var rest := InsertOrdered(x, s[1..]);
      assert s == [s[0]] + s[1..];
      assert multiset([s[0]] + rest) == multiset{s[0]} + multiset(rest);
      [s[0]] + rest
  }

  // The in-place sort by the identity order.
  function Ordered(s: seq<Candidate>): (r: seq<Candidate>)
    ensures multiset(r) == multiset(s)
  {
    if s == [] then []
    else
      assert s == [s[0]] + s[1..];
      InsertOrdered(s[0], Ordered(s[1..]))
  }

  lemma OrderedMember(s: seq<Candidate>)
    ensures |Ordered(s)| == |s|
    ensures s != [] ==> Ordered(s)[0] in s
  {
    assert |Ordered(s)| == |multiset(Ordered(s))| == |multiset(s)|;
    if s != [] { assert Ordered(s)[0] in multiset(s); }
  }

  lemma {:induction false} OrderedHead(s: seq<Candidate>)
    requires s != []
    ensures |Ordered(s)| == |s|
    ensures Ordered(s)[0] in s
    ensures forall d :: d in s ==> !Before(d, Ordered(s)[0])
  {
    OrderedMember(s);
    assert s == [s[0]] + s[1..];
    if |s| > 1 {
      OrderedHead(s[1..]);
      var head := Ordered(s[1..])[0];
      BeforeIrreflexive(s[0]);
      forall d | d in s ensures !Before(d, Ordered(s)[0]) {
        if Before(s[0], head) && d in s[1..] && Before(d, s[0]) {
          BeforeTransitive(d, s[0], head);
        }
      }
    } else {
      BeforeIrreflexive(s[0]);
    }
  }

  // ---------------------------------------------------------------------
  // The pick
  // ---------------------------------------------------------------------

  function MinReady(s: seq<Candidate>): (r: int)
    requires s != []
    ensures forall c :: c in s ==> r <= c.readySequence
    ensures exists c :: c in s && c.readySequence == r
  {
    if |s| == 1 then
      assert s[0] in s;
      s[0].readySequence
    else
      var rest := MinReady(s[1..]);
      assert s == [s[0]] + s[1..] && s[0] in s;
      if s[0].readySequence < rest then s[0].readySequence else rest
  }

  function ReadyAt(ready: int): Candidate -> bool {
    (c: Candidate) => c.readySequence == ready
  }

  function KeyedBy(key: string): Candidate -> bool {
    (c: Candidate) => c.fairnessKey == key
  }

  function Oldest(s: seq<Candidate>): (r: seq<Candidate>)
    requires s != []
    ensures r != []
    ensures forall c :: c in r <==> c in s && forall d :: d in s ==> c.readySequence <= d.readySequence
  {
    Filter(ReadyAt(MinReady(s)), s)
  }

  function FairnessKeys(s: seq<Candidate>): (r: seq<string>)
    ensures |r| == |s|
    ensures forall i :: 0 <= i < |s| ==> r[i] == s[i].fairnessKey
  {
    seq(|s|, i requires 0 <= i < |s| => s[i].fairnessKey)
  }

  // The distinct fairness keys in identity order.
  function KeyTurns(s: seq<Candidate>): (r: seq<string>)
    ensures StrictlySorted(r)
    ensures forall k :: k in r <==> exists c :: c in s && c.fairnessKey == k
    ensures s != [] ==> r != []
  {
    var keys := FairnessKeys(s);
    var r := SortedUnique(keys);
    assert Elems(r) == Elems(keys);
    assert forall k :: k in r <==> k in Elems(keys);
    assert forall k :: k in keys <==> exists c :: c in s && c.fairnessKey == k by {
      forall k ensures k in keys <==> exists c :: c in s && c.fairnessKey == k {
        if k in keys {
          var i :| 0 <= i < |keys| && keys[i] == k;
          assert s[i] in s;
        }
        if exists c :: c in s && c.fairnessKey == k {
          var c :| c in s && c.fairnessKey == k;
          var i :| 0 <= i < |s| && s[i] == c;
          assert keys[i] == k;
        }
      }
    }
    assert s != [] ==> keys[0] in r;
    r
  }

  function TurnKey(s: seq<Candidate>, ordinal: nat): (key: string)
    requires s != []
    ensures exists c :: c in s && c.fairnessKey == key
  {
    var turns := KeyTurns(s);
    var key := turns[ordinal % |turns|];
    assert key in turns;
    key
  }

  function Pick(admissible: seq<Candidate>, ordinal: nat): (c: Candidate)
    requires admissible != []
    ensures c in admissible
  {
    var oldest := Oldest(admissible);
    var keyed := Filter(KeyedBy(TurnKey(oldest, ordinal)), oldest);
    OrderedMember(keyed);
    Ordered(keyed)[0]
  }

  // What the three policy levels promise about the pick, over the candidates as a set.
  ghost predicate IsFairChoice(admissible: set<Candidate>, turns: seq<string>, ordinal: nat, c: Candidate) {
    && c in admissible
    && (forall d :: d in admissible ==> c.readySequence <= d.readySequence)
    && StrictlySorted(turns) && turns != []
    && (forall k :: k in turns <==> exists d :: d in admissible && d.readySequence == c.readySequence && d.fairnessKey == k)
    && c.fairnessKey == turns[ordinal % |turns|]
    && (forall d :: d in admissible && d.readySequence == c.readySequence && d.fairnessKey == c.fairnessKey ==> !Before(d, c))
    && (forall d :: d in admissible && d.readySequence == c.readySequence && d.fairnessKey == c.fairnessKey ==>
          c.attemptId == d.attemptId || Less(c.attemptId, d.attemptId))
  }

  lemma PickIsFair(admissible: seq<Candidate>, ordinal: nat)
    requires admissible != []
    ensures IsFairChoice(Elems(admissible), KeyTurns(Oldest(admissible)), ordinal, Pick(admissible, ordinal))
  {
    var oldest := Oldest(admissible);
    var keyed := Filter(KeyedBy(TurnKey(oldest, ordinal)), oldest);
    OrderedHead(keyed);
    var c := Pick(admissible, ordinal);
    forall d | d in keyed ensures c.attemptId == d.attemptId || Less(c.attemptId, d.attemptId) {
      LessTrichotomy(c.attemptId, d.attemptId);
    }
  }

  ghost predicate UniqueIds(candidates: set<Candidate>) {
    forall c, d :: c in candidates && d in candidates && c.attemptId == d.attemptId ==> c == d
  }

  /** With unique attempt ids the three policy levels leave no choice: they name one key order and one candidate. */
  lemma FairChoiceUnique(admissible: set<Candidate>, ordinal: nat, turnsC: seq<string>, c: Candidate, turnsD: seq<string>, d: Candidate)
    requires UniqueIds(admissible)
    requires IsFairChoice(admissible, turnsC, ordinal, c)
    requires IsFairChoice(admissible, turnsD, ordinal, d)
    ensures c == d && turnsC == turnsD
  {
    assert c.readySequence == d.readySequence;
    forall k ensures k in Elems(turnsC) <==> k in Elems(turnsD) {}
    StrictlySortedUnique(turnsC, turnsD);
    LessTrichotomy(c.attemptId, d.attemptId);
  }

  // The pick depends on the set of admissible candidates only.
  lemma PickOfSet(a: seq<Candidate>, b: seq<Candidate>, ordinal: nat)
    requires a != [] && b != []
    requires Elems(a) == Elems(b) && UniqueIds(Elems(a))
    ensures Pick(a, ordinal) == Pick(b, ordinal)
  {
    PickIsFair(a, ordinal);
    PickIsFair(b, ordinal);
    FairChoiceUnique(Elems(a), ordinal, KeyTurns(Oldest(a)), Pick(a, ordinal), KeyTurns(Oldest(b)), Pick(b, ordinal));
  }

  method OldestReady(admissible: seq<Candidate>) returns (minReady: int)
    requires admissible != []
    ensures minReady == MinReady(admissible)
  {
    minReady := admissible[0].readySequence;
    for i := 0 to |admissible|
      invariant forall j :: 0 <= j < i ==> minReady <= admissible[j].readySequence
      invariant exists c :: c in admissible && c.readySequence == minReady
    {
      if admissible[i].readySequence < minReady {
        minReady := admissible[i].readySequence;
      }
    }
  }

  method CollectKeys(oldest: seq<Candidate>) returns (keys: seq<string>)
    ensures keys == KeyTurns(oldest)
  {
    var keySet: seq<string> := [];
    ghost var all := FairnessKeys(oldest);
    for i := 0 to |oldest|
      invariant forall k :: k in keySet <==> k in all[..i]
    {
      if oldest[i].fairnessKey !in keySet {
        keySet := keySet + [oldest[i].fairnessKey];
      }
      assert all[..i + 1] == all[..i] + [oldest[i].fairnessKey];
    }
    assert all[..|oldest|] == all;
    assert Elems(keySet) == Elems(all);
    keys := SortedUnique(keySet);
    SortedUniqueOfSet(keySet, all);
  }

  /** The selection: validate the ordinal before the idle path, then pick by age, turn and identity. */
  method SelectAmongAdmissible(admissible: seq<Candidate>, ordinal: int) returns (r: Result<Option<Candidate>, Codes>)
    ensures !NonNegativeSafe(ordinal) ==> r == Err([FairnessInvalidOrdinal])
    ensures NonNegativeSafe(ordinal) && admissible == [] ==> r == Ok(None)
    ensures NonNegativeSafe(ordinal) && admissible != [] ==> r == Ok(Some(Pick(admissible, ordinal)))
  {
    if !NonNegativeSafe(ordinal) {
      return Err([FairnessInvalidOrdinal]);
    }
    if admissible == [] {
      return Ok(None);
    }
    var minReady := OldestReady(admissible);
    var oldest := Filter(ReadyAt(minReady), admissible);
    var keys := CollectKeys(oldest);
    var selectedKey := keys[ordinal % |keys|];
    var keyed := Filter(KeyedBy(selectedKey), oldest);
    assert selectedKey == TurnKey(oldest, ordinal);
    OrderedMember(keyed);
    return Ok(Some(Ordered(keyed)[0]));
  }
}
