/** Fan-in over the terminal states of the branches under the declared policy. */
module FanIn {
  import opened Wrappers
  import opened Counting
  import opened DerivedFanOut

  datatype FanInStatus = FanInSucceeded | FanInFailed | FanInPending

  datatype FanInResult = FanInResult(
    status: FanInStatus, policy: Policy,
    succeededBranchIds: seq<string>, failedBranchIds: seq<string>,
    cancelledBranchIds: seq<string>, pendingBranchIds: seq<string>)

  // The stable numeric sort by collection index.
  function InsertByIndex(b: Branch, s: seq<Branch>): (r: seq<Branch>)
    ensures multiset(r) == multiset(s) + multiset{b}
  {
    if s == [] || b.index <= s[0].index then
      assert multiset([b] + s) == multiset{b} + multiset(s);
      [b] + s
    else
      var rest := InsertByIndex(b, s[1..]);
      assert s == [s[0]] + s[1..];
      assert multiset([s[0]] + rest) == multiset{s[0]} + multiset(rest);
      [s[0]] + rest
  }

  function ByIndex(branches: seq<Branch>): (r: seq<Branch>)
    ensures multiset(r) == multiset(branches)
  {
    if branches == [] then []
    else
      assert branches == [branches[0]] + branches[1..];
      InsertByIndex(branches[0], ByIndex(branches[1..]))
  }

  // The ids of the branches whose status satisfies the test, in order.
  function IdsWhere(test: Status -> bool, branches: seq<Branch>): (r: seq<string>)
    ensures r == [] <==> forall b :: b in branches ==> !test(b.status)
    ensures |r| == |branches| <==> forall b :: b in branches ==> test(b.status)
    ensures |r| <= |branches|
  {
    if branches == [] then []
    else
      var n := |branches| - 1;
      assert branches == branches[..n] + [branches[n]];
      IdsWhere(test, branches[..n]) + (if test(branches[n].status) then [branches[n].branchId] else [])
  }

  function IsSucceeded(s: Status): bool { s.Succeeded? }
  function IsFailed(s: Status): bool { s.Failed? }
  function IsCancelled(s: Status): bool { s.Cancelled? }
  function IsOpen(s: Status): bool { !s.Terminal() }

  function PolicyStatus(policy: Policy, succeeded: nat, failed: nat, total: nat): FanInStatus {
    match policy
    case FailAll => if failed > 0 then FanInFailed else FanInSucceeded
    case ContinueWithSuccesses => if succeeded > 0 then FanInSucceeded else if failed > 0 then FanInFailed else FanInSucceeded
    case RequireAllSuccess => if succeeded == total then FanInSucceeded else FanInFailed
  }

  function Evaluate(e: Expansion): Result<FanInResult, Codes> {
    if e.schemaVersion != SCHEMA_VERSION then Err([UnsupportedSchema])
    else
      var ordered := ByIndex(e.branches);
      var succeeded, failed := IdsWhere(IsSucceeded, ordered), IdsWhere(IsFailed, ordered);
      var cancelled, pending := IdsWhere(IsCancelled, ordered), IdsWhere(IsOpen, ordered);
      var status :=
        if pending != [] then FanInPending
        else if ordered == [] then FanInSucceeded
        else PolicyStatus(e.fanInPolicy, |succeeded|, |failed|, |ordered|);
      Ok(FanInResult(status, e.fanInPolicy, succeeded, failed, cancelled, pending))
  }

  lemma IdsWhereStep(test: Status -> bool, branches: seq<Branch>, i: nat)
    requires i < |branches|
    ensures IdsWhere(test, branches[..i + 1]) == IdsWhere(test, branches[..i]) + (if test(branches[i].status) then [branches[i].branchId] else [])
  {
    assert branches[..i + 1][..i] == branches[..i];
  }

  // The four lists the walk fills.
  datatype Lists = Lists(succeeded: seq<string>, failed: seq<string>, cancelled: seq<string>, pending: seq<string>)

  function ListsOf(ordered: seq<Branch>): Lists {
    Lists(IdsWhere(IsSucceeded, ordered), IdsWhere(IsFailed, ordered), IdsWhere(IsCancelled, ordered), IdsWhere(IsOpen, ordered))
  }

  lemma ListsStep(ordered: seq<Branch>, i: nat)
    requires i < |ordered|
    ensures var front, b := ListsOf(ordered[..i]), ordered[i];
      ListsOf(ordered[..i + 1]) ==
        match b.status
        case Succeeded => front.(succeeded := front.succeeded + [b.branchId])
        case Failed => front.(failed := front.failed + [b.branchId])
        case Cancelled => front.(cancelled := front.cancelled + [b.branchId])
        case _ => front.(pending := front.pending + [b.branchId])
  {
    hide IdsWhere;
    IdsWhereStep(IsSucceeded, ordered, i);
    IdsWhereStep(IsFailed, ordered, i);
    IdsWhereStep(IsCancelled, ordered, i);
    IdsWhereStep(IsOpen, ordered, i);
  }

  lemma NoLists()
    ensures ListsOf([]) == Lists([], [], [], [])
  {
  }

  /** The walk that distributes the branches over the four lists. */
  method Distribute(ordered: seq<Branch>) returns (lists: Lists)
    ensures lists == ListsOf(ordered)
  {
    lists := Lists([], [], [], []);
    hide IdsWhere;
    NoLists();
    for i := 0 to |ordered|
      invariant lists == ListsOf(ordered[..i])
    {
      hide ListsOf;
      ListsStep(ordered, i);
      var branch := ordered[i];
      match branch.status {
        case Succeeded => lists := lists.(succeeded := lists.succeeded + [branch.branchId]);
        case Failed => lists := lists.(failed := lists.failed + [branch.branchId]);
        case Cancelled => lists := lists.(cancelled := lists.cancelled + [branch.branchId]);
        case _ => lists := lists.(pending := lists.pending + [branch.branchId]);
      }
    }
    assert ordered[..|ordered|] == ordered;
  }

  method EvaluateDerivedFanIn(e: Expansion) returns (r: Result<FanInResult, Codes>)
    ensures r == Evaluate(e)
  {
    hide IdsWhere, ByIndex, PolicyStatus;
    if e.schemaVersion != SCHEMA_VERSION {
      return Err([UnsupportedSchema]);
    }
    var ordered := ByIndex(e.branches);
    var lists := Distribute(ordered);
    var status := FanInPending;
    if |lists.pending| == 0 {
      status := if |ordered| == 0 then FanInSucceeded
                else PolicyStatus(e.fanInPolicy, |lists.succeeded|, |lists.failed|, |ordered|);
    }
    return Ok(FanInResult(status, e.fanInPolicy, lists.succeeded, lists.failed, lists.cancelled, lists.pending));
  }

  // Some branch has one of these statuses.
  ghost predicate SomeBranch(statuses: set<Status>, branches: seq<Branch>) {
    exists b :: b in branches && b.status in statuses
  }

  // When a settled region fails under the policy.
  ghost predicate Fails(policy: Policy, branches: seq<Branch>) {
    match policy
    case FailAll => SomeBranch({Failed}, branches)
    case ContinueWithSuccesses => SomeBranch({Failed}, branches) && !SomeBranch({Succeeded}, branches)
    case RequireAllSuccess => SomeBranch({Failed, Cancelled}, branches)
  }

  /**
   * What each policy decides, said of the branches themselves: wait for every branch,
   * then judge. Another schema version is refused.
   */
  lemma FanInMeaning(e: Expansion)
    ensures e.schemaVersion != SCHEMA_VERSION ==> Evaluate(e) == Err([UnsupportedSchema])
    ensures e.schemaVersion == SCHEMA_VERSION ==>
      && Evaluate(e).Ok? && Evaluate(e).value.policy == e.fanInPolicy
      && var status := Evaluate(e).value.status;
      && (status == FanInPending <==> SomeBranch({Pending, Running}, e.branches))
      && (status == FanInFailed <==> !SomeBranch({Pending, Running}, e.branches) && Fails(e.fanInPolicy, e.branches))
  {
    hide IdsWhere, ByIndex, SomeBranch;
    ListedExactly(IsOpen, {Pending, Running}, e.branches);
    ListedExactly(IsFailed, {Failed}, e.branches);
    ListedExactly(IsSucceeded, {Succeeded}, e.branches);
    AllSucceeded(e.branches);
  }

  lemma OrderedMembers(branches: seq<Branch>)
    ensures forall b :: b in ByIndex(branches) <==> b in branches
  {
    hide ByIndex;
    forall b ensures b in ByIndex(branches) <==> b in branches {
      assert b in multiset(ByIndex(branches)) <==> b in multiset(branches);
    }
  }

  lemma ListedExactly(test: Status -> bool, statuses: set<Status>, branches: seq<Branch>)
    requires forall status: Status :: test(status) <==> status in statuses
    ensures IdsWhere(test, ByIndex(branches)) != [] <==> SomeBranch(statuses, branches)
  {
    hide ByIndex;
    OrderedMembers(branches);
  }

  lemma AllSucceeded(branches: seq<Branch>)
    ensures var succeeded := |IdsWhere(IsSucceeded, ByIndex(branches))|;
      succeeded == |ByIndex(branches)| <==> !SomeBranch({Pending, Running}, branches) && !SomeBranch({Failed, Cancelled}, branches)
  {
    hide ByIndex, IdsWhere;
    OrderedMembers(branches);
    assert forall s: Status :: IsSucceeded(s) <==> s !in {Pending, Running} && s !in {Failed, Cancelled};
  }

  function Ids(branches: seq<Branch>): seq<string> {
    if branches == [] then [] else Ids(branches[..|branches| - 1]) + [branches[|branches| - 1].branchId]
  }

  lemma JoinLists(a: multiset<string>, b: multiset<string>, c: multiset<string>, d: multiset<string>, x: multiset<string>)
    ensures (a + x) + b + c + d == a + b + c + d + x
    ensures a + (b + x) + c + d == a + b + c + d + x
    ensures a + b + (c + x) + d == a + b + c + d + x
    ensures a + b + c + (d + x) == a + b + c + d + x
  {
  }

  lemma {:induction false} ListsPartition(branches: seq<Branch>)
    ensures multiset(IdsWhere(IsSucceeded, branches)) + multiset(IdsWhere(IsFailed, branches))
      + multiset(IdsWhere(IsCancelled, branches)) + multiset(IdsWhere(IsOpen, branches)) == multiset(Ids(branches))
  {
    if branches != [] {
      hide IdsWhere;
      var n := |branches| - 1;
      var front, id := branches[..n], branches[n].branchId;
      ListsPartition(front);
      assert branches[..n + 1] == branches;
      ListsStep(branches, n);
      JoinLists(multiset(IdsWhere(IsSucceeded, front)), multiset(IdsWhere(IsFailed, front)),
                multiset(IdsWhere(IsCancelled, front)), multiset(IdsWhere(IsOpen, front)), multiset{id});
      assert multiset(Ids(branches)) == multiset(Ids(front)) + multiset{id};
    }
  }

  /** Every branch id is reported in exactly one of the four lists. */
  lemma FanInPartitionsBranches(e: Expansion)
    requires e.schemaVersion == SCHEMA_VERSION
    ensures var result := Evaluate(e).value;
      multiset(result.succeededBranchIds) + multiset(result.failedBranchIds)
      + multiset(result.cancelledBranchIds) + multiset(result.pendingBranchIds) == multiset(Ids(ByIndex(e.branches)))
  {
    ListsPartition(ByIndex(e.branches));
  }

  // ---------------------------------------------------------------------
  // The four lists
  // ---------------------------------------------------------------------

  function AtIndex(index: int): Branch -> bool {
    (b: Branch) => b.index == index
  }

  function StatusIn(statuses: set<Status>): Branch -> bool {
    (b: Branch) => b.status in statuses
  }

  ghost predicate IndexOrdered(s: seq<Branch>) {
    forall i, j :: 0 <= i < j < |s| ==> s[i].index <= s[j].index
  }

  // The same branches at every index, and in the same order there.
  ghost predicate SameAtIndex(a: seq<Branch>, b: seq<Branch>) {
    forall index :: Filter(AtIndex(index), a) == Filter(AtIndex(index), b)
  }

  // The branches in index order, those of one index as they were: a stable sort.
  ghost predicate StableByIndex(ordered: seq<Branch>, branches: seq<Branch>) {
    IndexOrdered(ordered) && SameAtIndex(ordered, branches)
  }

  // The branches of an index, with one more branch in front.
  lemma FilterCons(b: Branch, s: seq<Branch>)
    ensures forall index :: Filter(AtIndex(index), [b] + s) == (if b.index == index then [b] else []) + Filter(AtIndex(index), s)
  {
    forall index ensures Filter(AtIndex(index), [b] + s) == (if b.index == index then [b] else []) + Filter(AtIndex(index), s) {
      assert ([b] + s)[1..] == s;
    }
  }

  lemma {:induction false} InsertOrdered(b: Branch, s: seq<Branch>)
    requires IndexOrdered(s)
    ensures IndexOrdered(InsertByIndex(b, s))
  {
    if s != [] && s[0].index < b.index {
      InsertOrdered(b, s[1..]);
      var rest := InsertByIndex(b, s[1..]);
      forall j | 0 <= j < |rest| ensures s[0].index <= rest[j].index {
        assert rest[j] in multiset(rest);
        assert rest[j] in s[1..] || rest[j] == b;
      }
    }
  }

  lemma {:induction false} InsertKeeps(b: Branch, s: seq<Branch>, index: int)
    ensures Filter(AtIndex(index), InsertByIndex(b, s)) == Filter(AtIndex(index), [b] + s)
  {
    hide Filter;
    if s != [] && s[0].index < b.index {
      var first, tail := s[0], s[1..];
      assert s == [first] + tail;
      InsertKeeps(b, tail, index);
      FilterCons(first, InsertByIndex(b, tail));
      FilterCons(b, tail);
      FilterCons(b, s);
      FilterCons(first, tail);
      assert InsertByIndex(b, s) == [first] + InsertByIndex(b, tail);
    } else {
      assert InsertByIndex(b, s) == [b] + s;
    }
  }

  lemma {:induction false} ByIndexStable(branches: seq<Branch>)
    ensures StableByIndex(ByIndex(branches), branches)
  {
    hide Filter, InsertByIndex;
    if branches != [] {
      var first, rest := branches[0], branches[1..];
      ByIndexStable(rest);
      InsertOrdered(first, ByIndex(rest));
      assert branches == [first] + rest;
      FilterCons(first, rest);
      FilterCons(first, ByIndex(rest));
      forall index ensures Filter(AtIndex(index), ByIndex(branches)) == Filter(AtIndex(index), branches) {
        InsertKeeps(first, ByIndex(rest), index);
        assert Filter(AtIndex(index), ByIndex(branches)) == Filter(AtIndex(index), [first] + ByIndex(rest));
        assert Filter(AtIndex(index), ByIndex(rest)) == Filter(AtIndex(index), rest);
      }
    }
  }

  lemma FirstIndex(a: seq<Branch>, b: seq<Branch>)
    requires IndexOrdered(b) && SameAtIndex(a, b) && a != []
    ensures b != [] && b[0].index <= a[0].index
  {
    var index := a[0].index;
    assert a[0] in Filter(AtIndex(index), a);
    assert a[0] in Filter(AtIndex(index), b);
  }

  // A stable sort leaves no choice.
  lemma {:induction false} StableUnique(a: seq<Branch>, b: seq<Branch>)
    requires IndexOrdered(a) && IndexOrdered(b) && SameAtIndex(a, b)
    ensures a == b
  {
    hide Filter;
    if a != [] {
      FirstIndex(a, b);
      FirstIndex(b, a);
      var x, y, s, t := a[0], b[0], a[1..], b[1..];
      assert a == [x] + s && b == [y] + t;
      FilterCons(x, s);
      FilterCons(y, t);
      assert Filter(AtIndex(x.index), a) == Filter(AtIndex(x.index), b);
      assert x == ([x] + Filter(AtIndex(x.index), s))[0] == ([y] + Filter(AtIndex(x.index), t))[0] == y;
      forall index ensures Filter(AtIndex(index), s) == Filter(AtIndex(index), t) {
        assert Filter(AtIndex(index), a) == Filter(AtIndex(index), b);
        var front := if x.index == index then [x] else [];
        assert (front + Filter(AtIndex(index), s))[|front|..] == (front + Filter(AtIndex(index), t))[|front|..];
      }
      StableUnique(s, t);
    } else if b != [] {
      FirstIndex(b, a);
    }
  }

  lemma {:induction false} IdsWhereFilters(test: Status -> bool, statuses: set<Status>, branches: seq<Branch>)
    requires forall status: Status :: test(status) <==> status in statuses
    ensures IdsWhere(test, branches) == Ids(Filter(StatusIn(statuses), branches))
  {
    if branches != [] {
      var n := |branches| - 1;
      var front, last := branches[..n], branches[n];
      assert branches == front + [last];
      IdsWhereFilters(test, statuses, front);
      FilterAppend(StatusIn(statuses), front, last);
      var kept := Filter(StatusIn(statuses), front);
      assert (kept + [last])[..|kept|] == kept && kept + [] == kept;
    }
  }

  /**
   * Whatever list is the stable sort of the branches by index, the four lists are the
   * ids of its succeeded, failed, cancelled and open branches, in its order.
   */
  lemma FanInLists(e: Expansion, ordered: seq<Branch>)
    requires e.schemaVersion == SCHEMA_VERSION && StableByIndex(ordered, e.branches)
    ensures var result := Evaluate(e).value;
      && result.succeededBranchIds == Ids(Filter(StatusIn({Succeeded}), ordered))
      && result.failedBranchIds == Ids(Filter(StatusIn({Failed}), ordered))
      && result.cancelledBranchIds == Ids(Filter(StatusIn({Cancelled}), ordered))
      && result.pendingBranchIds == Ids(Filter(StatusIn({Pending, Running}), ordered))
  {
    hide IdsWhere, Ids, Filter, ByIndex, IndexOrdered;
    ByIndexStable(e.branches);
    SameAsBoth(ByIndex(e.branches), ordered, e.branches);
    StableUnique(ByIndex(e.branches), ordered);
    IdsWhereFilters(IsSucceeded, {Succeeded}, ordered);
    IdsWhereFilters(IsFailed, {Failed}, ordered);
    IdsWhereFilters(IsCancelled, {Cancelled}, ordered);
    IdsWhereFilters(IsOpen, {Pending, Running}, ordered);
  }

  lemma SameAsBoth(a: seq<Branch>, b: seq<Branch>, c: seq<Branch>)
    requires SameAtIndex(a, c) && SameAtIndex(b, c)
    ensures SameAtIndex(a, b)
  {
    forall index ensures Filter(AtIndex(index), a) == Filter(AtIndex(index), b) {
      assert Filter(AtIndex(index), a) == Filter(AtIndex(index), c);
      assert Filter(AtIndex(index), b) == Filter(AtIndex(index), c);
    }
  }

  function Listed(id: string, statuses: set<Status>): Branch -> bool {
    (b: Branch) => b.branchId == id && b.status in statuses
  }

  lemma {:induction false} IdsCount(test: Status -> bool, statuses: set<Status>, branches: seq<Branch>, id: string)
    requires forall status: Status :: test(status) <==> status in statuses
    ensures multiset(IdsWhere(test, branches))[id] == Count(Listed(id, statuses), branches)
  {
    if branches != [] {
      var n := |branches| - 1;
      assert branches == branches[..n] + [branches[n]];
      IdsCount(test, statuses, branches[..n], id);
      CountConcat(Listed(id, statuses), branches[..n], [branches[n]]);
    }
  }

  lemma ReportedCount(test: Status -> bool, statuses: set<Status>, branches: seq<Branch>, id: string)
    requires forall status: Status :: test(status) <==> status in statuses
    ensures multiset(IdsWhere(test, ByIndex(branches)))[id] == Count(Listed(id, statuses), branches)
  {
    hide IdsWhere, ByIndex;
    IdsCount(test, statuses, ByIndex(branches), id);
    CountPermutation(Listed(id, statuses), ByIndex(branches), branches);
  }

  /** An id occurs in a list exactly as often as a branch of that id has the status the list stands for. */
  lemma FanInCounts(e: Expansion, id: string)
    requires e.schemaVersion == SCHEMA_VERSION
    ensures var result := Evaluate(e).value;
      && multiset(result.succeededBranchIds)[id] == Count(Listed(id, {Succeeded}), e.branches)
      && multiset(result.failedBranchIds)[id] == Count(Listed(id, {Failed}), e.branches)
      && multiset(result.cancelledBranchIds)[id] == Count(Listed(id, {Cancelled}), e.branches)
      && multiset(result.pendingBranchIds)[id] == Count(Listed(id, {Pending, Running}), e.branches)
  {
    hide IdsWhere, ByIndex, Count;
    ReportedCount(IsSucceeded, {Succeeded}, e.branches, id);
    ReportedCount(IsFailed, {Failed}, e.branches, id);
    ReportedCount(IsCancelled, {Cancelled}, e.branches, id);
    ReportedCount(IsOpen, {Pending, Running}, e.branches, id);
  }
}
