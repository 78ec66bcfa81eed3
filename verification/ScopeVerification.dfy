/**
 * The check that a mutating program stayed inside its declared scope: content
 * hashes of the dirty paths before the program ran are compared with the hashes
 * of the same paths, and of the newly dirty ones, after it ran.
 */
module ScopeVerification {
  import opened Wrappers
  import opened Text
  import opened Counting
  import opened Porcelain

  // The workspace services: containment in the root, the content hash, and the abort signal at each file.
  datatype Host<!C> = Host(inside: string -> bool, digest: C -> string, aborted: nat -> bool)

  // The older form of the input has paths and no content hashes.
  datatype Baseline = Baseline(paths: seq<string>, contentHashes: map<string, string>)

  datatype ScopeError = ScopeRequired | OutsideScope(violations: seq<string>) | Cancelled | GitFailed(text: string)

  datatype CodeScopeVerification = CodeScopeVerification(
    passed: bool,
    changedPaths: Option<seq<string>>,
    baselinePaths: Option<seq<string>>,
    error: Option<ScopeError>)

  // ---------------------------------------------------------------------
  // Hashing
  // ---------------------------------------------------------------------

  function HashOf<C>(host: Host<C>, files: map<string, C>, path: string): string {
    if !host.inside(path) then "outside-root"
    else if path in files then host.digest(files[path])
    else "missing"
  }

  function HashesFrom<C>(host: Host<C>, files: map<string, C>, paths: seq<string>, at: nat, hashes: map<string, string>): Result<map<string, string>, ScopeError>
    requires at <= |paths|
    decreases |paths| - at
  {
    if at == |paths| then Ok(hashes)
    else if host.aborted(at) then Err(Cancelled)
    else HashesFrom(host, files, paths, at + 1, hashes[paths[at] := HashOf(host, files, paths[at])])
  }

  function Hashes<C>(host: Host<C>, files: map<string, C>, paths: seq<string>): Result<map<string, string>, ScopeError> {
    HashesFrom(host, files, paths, 0, map[])
  }

  method HashWorkspacePaths<C>(host: Host<C>, files: map<string, C>, paths: seq<string>)
    returns (r: Result<map<string, string>, ScopeError>)
    ensures r == Hashes(host, files, paths)
    ensures r.Ok? ==> r.value.Keys == Elems(paths) && forall p :: p in paths ==> r.value[p] == HashOf(host, files, p)
    ensures r.Err? <==> exists i :: 0 <= i < |paths| && host.aborted(i)
  {
    var hashes: map<string, string> := map[];
    for i := 0 to |paths|
      invariant HashesFrom(host, files, paths, i, hashes) == Hashes(host, files, paths)
      invariant forall p :: p in hashes <==> p in paths[..i]
      invariant forall p :: p in hashes ==> hashes[p] == HashOf(host, files, p)
      invariant forall k :: 0 <= k < i ==> !host.aborted(k)
    {
      if host.aborted(i) {
        return Err(Cancelled);
      }
      hashes := hashes[paths[i] := HashOf(host, files, paths[i])];
    }
    assert paths[..|paths|] == paths;
    return Ok(hashes);
  }

  lemma {:induction false} HashesMeaning<C>(host: Host<C>, files: map<string, C>, paths: seq<string>, at: nat, hashes: map<string, string>)
    requires at <= |paths|
    requires forall p :: p in hashes <==> p in paths[..at]
    requires forall p :: p in hashes ==> hashes[p] == HashOf(host, files, p)
    ensures var r := HashesFrom(host, files, paths, at, hashes);
      && (r.Ok? ==> r.value.Keys == Elems(paths) && forall p :: p in paths ==> r.value[p] == HashOf(host, files, p))
      && (r.Err? <==> exists i :: at <= i < |paths| && host.aborted(i))
    decreases |paths| - at
  {
    if at == |paths| {
      assert paths[..at] == paths;
    } else if !host.aborted(at) {
      HashesMeaning(host, files, paths, at + 1, hashes[paths[at] := HashOf(host, files, paths[at])]);
    }
  }

  // ---------------------------------------------------------------------
  // Capture and verification
  // ---------------------------------------------------------------------

  // The outcome of running `git status`: its output, or a failure.
  type StatusOutput = Result<string, ScopeError>

  function CapturedBaseline<C>(host: Host<C>, files: map<string, C>, status: StatusOutput): Result<Baseline, ScopeError> {
    match status
    case Err(e) => Err(e)
    case Ok(output) =>
      match Hashes(host, files, Parsed(output))
      case Err(e) => Err(e)
      case Ok(hashes) => Ok(Baseline(Parsed(output), hashes))
  }

  method CaptureScopeBaseline<C>(host: Host<C>, files: map<string, C>, status: StatusOutput) returns (r: Result<Baseline, ScopeError>)
    ensures r == CapturedBaseline(host, files, status)
  {
    if status.Err? {
      return Err(status.error);
    }
    var paths := ParsePorcelainZ(status.value);
    var hashes := HashWorkspacePaths(host, files, paths);
    match hashes {
      case Err(e) => return Err(e);
      case Ok(contentHashes) => return Ok(Baseline(paths, contentHashes));
    }
  }

  predicate FurtherModified(baseline: Baseline, afterHashes: map<string, string>, path: string) {
    if path !in baseline.contentHashes || path !in afterHashes then true
    else baseline.contentHashes[path] != afterHashes[path]
  }

  function Introduced(baseline: Baseline, after: seq<string>): seq<string> {
    Filter(path => path !in baseline.paths, after)
  }

  function ToCheck(baseline: Baseline, after: seq<string>, afterHashes: map<string, string>): (r: seq<string>)
    ensures StrictlySorted(r)
    ensures forall p :: p in r <==>
      (p in after && p !in baseline.paths) || (p in baseline.paths && FurtherModified(baseline, afterHashes, p))
  {
    var introduced := Introduced(baseline, after);
    var furtherModified := Filter(path => FurtherModified(baseline, afterHashes, path), baseline.paths);
    ElemsConcat(introduced, furtherModified);
    var r := SortedUnique(introduced + furtherModified);
    assert forall p :: p in r <==> p in Elems(introduced + furtherModified);
    r
  }

  function Verdict(toCheck: seq<string>, baselinePaths: seq<string>, allowed: string -> bool): CodeScopeVerification {
    var violations := Filter(path => !allowed(path), toCheck);
    if violations != [] then CodeScopeVerification(false, Some(toCheck), Some(baselinePaths), Some(OutsideScope(violations)))
    else CodeScopeVerification(true, Some(toCheck), Some(baselinePaths), None)
  }

  function FailedWith(error: ScopeError, baselinePaths: seq<string>): CodeScopeVerification {
    CodeScopeVerification(false, None, if baselinePaths != [] then Some(baselinePaths) else None, Some(error))
  }

  // `[...new Set(xs)]`: first occurrences, in order.
  function Distinct(xs: seq<string>): (r: seq<string>)
    ensures Elems(r) == Elems(xs)
  {
    if xs == [] then []
    else
      var last := xs[|xs| - 1];
      var earlier := Distinct(xs[..|xs| - 1]);
      assert xs == xs[..|xs| - 1] + [last];
      ElemsConcat(xs[..|xs| - 1], [last]);
      ElemsConcat(earlier, [last]);
      if last in earlier then
        assert last in Elems(earlier);
        earlier
      else earlier + [last]
  }

  function Observed(after: seq<string>, baseline: Baseline): (r: seq<string>)
    ensures Elems(r) == Elems(after) + Elems(baseline.paths)
  {
    ElemsConcat(after, baseline.paths);
    Distinct(after + baseline.paths)
  }

  function Verification<C>(host: Host<C>, mutating: bool, scopePaths: seq<string>, allowed: (string, seq<string>) -> bool,
                           baseline: Baseline, files: map<string, C>, status: StatusOutput): CodeScopeVerification {
    if !mutating then CodeScopeVerification(true, Some([]), None, None)
    else if scopePaths == [] then CodeScopeVerification(false, None, None, Some(ScopeRequired))
    else
      match status
      case Err(e) => FailedWith(e, baseline.paths)
      case Ok(output) =>
        match Hashes(host, files, Observed(Parsed(output), baseline))
        case Err(e) => FailedWith(e, baseline.paths)
        case Ok(afterHashes) =>
          Verdict(ToCheck(baseline, Parsed(output), afterHashes), baseline.paths, path => allowed(path, scopePaths))
  }

  method VerifyCodeScope<C>(host: Host<C>, mutating: bool, scopePaths: seq<string>, allowed: (string, seq<string>) -> bool,
                            baseline: Baseline, files: map<string, C>, status: StatusOutput)
    returns (r: CodeScopeVerification)
    ensures r == Verification(host, mutating, scopePaths, allowed, baseline, files, status)
    ensures !mutating ==> r.passed
    ensures mutating && r.passed ==> scopePaths != [] && forall p :: p in r.changedPaths.GetOr([]) ==> allowed(p, scopePaths)
  {
    if !mutating {
      return CodeScopeVerification(true, Some([]), None, None);
    }
    if scopePaths == [] {
      return CodeScopeVerification(false, None, None, Some(ScopeRequired));
    }
    if status.Err? {
      return FailedWith(status.error, baseline.paths);
    }
    var after := ParsePorcelainZ(status.value);
    var hashed := HashWorkspacePaths(host, files, Observed(after, baseline));
    match hashed {
      case Err(e) =>
        return FailedWith(e, baseline.paths);
      case Ok(afterHashes) =>
        r := Verdict(ToCheck(baseline, after, afterHashes), baseline.paths, path => allowed(path, scopePaths));
        NoViolations(ToCheck(baseline, after, afterHashes), path => allowed(path, scopePaths));
    }
  }

  // A path the verification must report: newly dirty, or dirty before and now without the same known hash.
  ghost predicate Reported<C>(host: Host<C>, baseline: Baseline, files: map<string, C>, after: seq<string>, path: string) {
    if path in baseline.paths then path !in baseline.contentHashes || baseline.contentHashes[path] != HashOf(host, files, path)
    else path in after
  }

  // The paths that are hashed: each path dirty before or after, once.
  ghost function Touched(baseline: Baseline, after: seq<string>): set<string> {
    Elems(after) + Elems(baseline.paths)
  }

  // The hashing of that many files is not interrupted.
  ghost predicate Unaborted<C>(host: Host<C>, files: nat) {
    forall i :: 0 <= i < files ==> !host.aborted(i)
  }

  // The paths, strictly sorted and once each, that satisfy the test.
  ghost predicate Lists(paths: seq<string>, test: string -> bool) {
    StrictlySorted(paths) && forall p :: p in paths <==> test(p)
  }

  ghost predicate Violates(error: ScopeError, test: string -> bool) {
    error.OutsideScope? && Lists(error.violations, test)
  }

  lemma {:induction false} DistinctOnce(xs: seq<string>)
    ensures forall i, j :: 0 <= i < j < |Distinct(xs)| ==> Distinct(xs)[i] != Distinct(xs)[j]
    ensures |Distinct(xs)| == |Elems(xs)|
  {
    if xs != [] {
      DistinctOnce(xs[..|xs| - 1]);
    }
    DistinctCard(Distinct(xs));
  }

  lemma {:induction false} FilterStrictlySorted(test: string -> bool, paths: seq<string>)
    requires StrictlySorted(paths)
    ensures StrictlySorted(Filter(test, paths))
  {
    if paths != [] {
      FilterStrictlySorted(test, paths[1..]);
      var rest := Filter(test, paths[1..]);
      forall j | 0 <= j < |rest| ensures Less(paths[0], rest[j]) {
        assert rest[j] in paths[1..];
      }
    }
  }

  // What the comparison reports once every touched path is hashed.
  lemma ReportedExactly<C>(host: Host<C>, baseline: Baseline, files: map<string, C>, after: seq<string>)
    requires Unaborted(host, |Touched(baseline, after)|)
    ensures Hashes(host, files, Observed(after, baseline)).Ok?
    ensures var toCheck := ToCheck(baseline, after, Hashes(host, files, Observed(after, baseline)).value);
      StrictlySorted(toCheck) && forall p :: p in toCheck <==> Reported(host, baseline, files, after, p)
  {
    hide Distinct, HashOf, Filter, Hashes;
    var observed := Observed(after, baseline);
    DistinctOnce(after + baseline.paths);
    ElemsConcat(after, baseline.paths);
    HashesExactly(host, files, observed);
    assert forall p :: p in baseline.paths ==> p in Elems(observed);
  }

  lemma HashesExactly<C>(host: Host<C>, files: map<string, C>, paths: seq<string>)
    ensures Hashes(host, files, paths).Ok? <==> Unaborted(host, |paths|)
    ensures Hashes(host, files, paths).Err? ==> Hashes(host, files, paths).error == Cancelled
    ensures Hashes(host, files, paths).Ok? ==>
      && Hashes(host, files, paths).value.Keys == Elems(paths)
      && forall p :: p in paths ==> Hashes(host, files, paths).value[p] == HashOf(host, files, p)
  {
    HashesMeaning(host, files, paths, 0, map[]);
    OnlyCancelled(host, files, paths, 0, map[]);
  }

  lemma {:induction false} OnlyCancelled<C>(host: Host<C>, files: map<string, C>, paths: seq<string>, at: nat, hashes: map<string, string>)
    requires at <= |paths|
    ensures HashesFrom(host, files, paths, at, hashes).Err? ==> HashesFrom(host, files, paths, at, hashes).error == Cancelled
    decreases |paths| - at
  {
    if at < |paths| {
      OnlyCancelled(host, files, paths, at + 1, hashes[paths[at] := HashOf(host, files, paths[at])]);
    }
  }

  /** A baseline is captured exactly when the status is read and no file's hashing is interrupted; each failure is passed on. */
  lemma CaptureExactly<C>(host: Host<C>, files: map<string, C>, status: StatusOutput)
    ensures status.Err? ==> CapturedBaseline(host, files, status) == Err(status.error)
    ensures status.Ok? ==>
      var captured, paths := CapturedBaseline(host, files, status), Parsed(status.value);
      if Unaborted(host, |paths|) then
        && captured.Ok? && captured.value.paths == paths && captured.value.contentHashes.Keys == Elems(paths)
        && forall p :: p in paths ==>
             captured.value.contentHashes[p] == if !host.inside(p) then "outside-root" else if p in files then host.digest(files[p]) else "missing"
      else captured == Err(Cancelled)
  {
    hide Parsed, Hashes;
    if status.Ok? {
      HashesExactly(host, files, Parsed(status.value));
    }
  }

  // The verification fails before any comparison, with this error, and reports at most the baseline.
  ghost predicate FailsWith(r: CodeScopeVerification, error: ScopeError, baselinePaths: Option<seq<string>>) {
    !r.passed && r.changedPaths.None? && r.baselinePaths == baselinePaths && r.error == Some(error)
  }

  /**
   * A program that cannot mutate the workspace passes unseen. The verification of a
   * mutating program passes if and only if its scope is not
   * empty, the status was read, no file's hashing was interrupted, and every path to
   * report is allowed. Where it does not reach the comparison its error is the one
   * that occurred; where it does, it lists the reported paths, and those outside the
   * scope as its error.
   */
  lemma PassesExactly<C>(host: Host<C>, scopePaths: seq<string>, allowed: (string, seq<string>) -> bool,
                         baseline: Baseline, files: map<string, C>, status: StatusOutput)
    ensures Verification(host, false, scopePaths, allowed, baseline, files, status) == CodeScopeVerification(true, Some([]), None, None)
    ensures var r := Verification(host, true, scopePaths, allowed, baseline, files, status);
      var before := if baseline.paths != [] then Some(baseline.paths) else None;
      && (r.passed <==>
            && scopePaths != [] && status.Ok? && Unaborted(host, |Touched(baseline, Parsed(status.value))|)
            && forall p :: Reported(host, baseline, files, Parsed(status.value), p) ==> allowed(p, scopePaths))
      && (scopePaths == [] ==> FailsWith(r, ScopeRequired, None))
      && (scopePaths != [] && status.Err? ==> FailsWith(r, status.error, before))
      && (scopePaths != [] && status.Ok? ==>
            var after := Parsed(status.value);
            if !Unaborted(host, |Touched(baseline, after)|) then FailsWith(r, Cancelled, before)
            else
              && r.changedPaths.Some? && r.baselinePaths == Some(baseline.paths)
              && Lists(r.changedPaths.value, p => Reported(host, baseline, files, after, p))
              && (r.passed <==> r.error.None?)
              && (!r.passed ==> Violates(r.error.value, p => Reported(host, baseline, files, after, p) && !allowed(p, scopePaths))))
  {
    hide Parsed, Hashes, HashOf, Filter, ToCheck, Observed, Reported;
    if scopePaths != [] && status.Ok? {
      var after := Parsed(status.value);
      var observed := Observed(after, baseline);
      DistinctOnce(after + baseline.paths);
      ObservedCount(after, baseline);
      HashesExactly(host, files, observed);
      if Unaborted(host, |Touched(baseline, after)|) {
        ReportedExactly(host, baseline, files, after);
        var toCheck := ToCheck(baseline, after, Hashes(host, files, observed).value);
        VerdictExactly(toCheck, baseline.paths, path => allowed(path, scopePaths));
      }
    }
  }

  lemma ObservedCount(after: seq<string>, baseline: Baseline)
    ensures |Observed(after, baseline)| == |Touched(baseline, after)|
  {
    DistinctOnce(after + baseline.paths);
    ElemsConcat(after, baseline.paths);
  }

  lemma VerdictExactly(toCheck: seq<string>, baselinePaths: seq<string>, allowed: string -> bool)
    requires StrictlySorted(toCheck)
    ensures var r := Verdict(toCheck, baselinePaths, allowed);
      && r.changedPaths == Some(toCheck) && r.baselinePaths == Some(baselinePaths)
      && (r.passed <==> forall p :: p in toCheck ==> allowed(p))
      && (r.passed <==> r.error.None?)
      && (!r.passed ==> Violates(r.error.value, p => p in toCheck && !allowed(p)))
  {
    NoViolations(toCheck, allowed);
    FilterStrictlySorted(path => !allowed(path), toCheck);
  }

  lemma NoViolations(toCheck: seq<string>, allowed: string -> bool)
    ensures Filter(path => !allowed(path), toCheck) == [] <==> forall p :: p in toCheck ==> allowed(p)
  {
    var violations := Filter(path => !allowed(path), toCheck);
    if violations != [] {
      assert violations[0] in toCheck && !allowed(violations[0]);
    }
  }

  // ---------------------------------------------------------------------
  // Exactness
  // ---------------------------------------------------------------------

  ghost predicate SameContent<C>(a: map<string, C>, b: map<string, C>, path: string) {
    (path in a <==> path in b) && (path in a ==> a[path] == b[path])
  }

  // The output lists exactly the paths whose content differs from the fixed HEAD, all inside the root.
  ghost predicate ListsChanges<C(!new)>(host: Host<C>, output: string, head: map<string, C>, files: map<string, C>) {
    forall p :: (p in Parsed(output) <==> !SameContent(head, files, p)) && (p in Parsed(output) ==> host.inside(p))
  }

  // Different contents have different hashes, and no hash is the sentinel of a missing file.
  ghost predicate InjectiveHash<C(!new)>(host: Host<C>) {
    && (forall c, d :: host.digest(c) == host.digest(d) ==> c == d)
    && (forall c :: host.digest(c) != "missing")
  }

  ghost predicate NeverAborted<C>(host: Host<C>) {
    forall i :: !host.aborted(i)
  }

  lemma HashTellsContent<C(!new)>(host: Host<C>, a: map<string, C>, b: map<string, C>, path: string)
    requires InjectiveHash(host) && host.inside(path)
    ensures HashOf(host, a, path) == HashOf(host, b, path) <==> SameContent(a, b, path)
  {
  }

  lemma CaptureMeaning<C(!new)>(host: Host<C>, files: map<string, C>, output: string)
    requires NeverAborted(host)
    ensures var captured := CapturedBaseline(host, files, Ok(output));
      && captured.Ok? && captured.value.paths == Parsed(output)
      && captured.value.contentHashes.Keys == Elems(Parsed(output))
      && forall p :: p in Parsed(output) ==> captured.value.contentHashes[p] == HashOf(host, files, p)
  {
    HashesMeaning(host, files, Parsed(output), 0, map[]);
  }

  lemma ChangedExactly<C(!new)>(host: Host<C>, head: map<string, C>, before: map<string, C>, after: map<string, C>,
                                outputBefore: string, outputAfter: string, baseline: Baseline, afterHashes: map<string, string>)
    requires InjectiveHash(host)
    requires ListsChanges(host, outputBefore, head, before) && ListsChanges(host, outputAfter, head, after)
    requires baseline.paths == Parsed(outputBefore) && baseline.contentHashes.Keys == Elems(baseline.paths)
    requires forall p :: p in baseline.paths ==> baseline.contentHashes[p] == HashOf(host, before, p)
    requires forall p :: p in baseline.paths ==> p in afterHashes && afterHashes[p] == HashOf(host, after, p)
    ensures forall p :: p in ToCheck(baseline, Parsed(outputAfter), afterHashes) <==> !SameContent(before, after, p)
  {
    hide Parsed, HashOf;
    forall p ensures p in ToCheck(baseline, Parsed(outputAfter), afterHashes) <==> !SameContent(before, after, p) {
      if p in baseline.paths {
        assert p in baseline.contentHashes.Keys;
        HashTellsContent(host, before, after, p);
      } else {
        assert SameContent(head, before, p);
      }
    }
  }

  /**
   * With a captured baseline the reported changes are exactly the paths whose
   * content after the program differs from before it, a dirty path restored to
   * its committed content included; so the verification passes if and only if
   * every such path is allowed.
   */
  lemma VerificationIsExact<C(!new)>(host: Host<C>, scopePaths: seq<string>, allowed: (string, seq<string>) -> bool,
                                     head: map<string, C>, before: map<string, C>, after: map<string, C>,
                                     outputBefore: string, outputAfter: string)
    requires scopePaths != [] && NeverAborted(host) && InjectiveHash(host)
    requires ListsChanges(host, outputBefore, head, before) && ListsChanges(host, outputAfter, head, after)
    ensures var captured := CapturedBaseline(host, before, Ok(outputBefore));
      captured.Ok? &&
      var r := Verification(host, true, scopePaths, allowed, captured.value, after, Ok(outputAfter));
      && r.changedPaths.Some? && StrictlySorted(r.changedPaths.value)
      && (forall p :: p in r.changedPaths.value <==> !SameContent(before, after, p))
      && (r.passed <==> forall p :: !SameContent(before, after, p) ==> allowed(p, scopePaths))
  {
    hide Parsed, Hashes, HashOf, Filter;
    CaptureMeaning(host, before, outputBefore);
    var baseline := CapturedBaseline(host, before, Ok(outputBefore)).value;
    var observed := Observed(Parsed(outputAfter), baseline);
    HashesOf(host, after, observed);
    var afterHashes := Hashes(host, after, observed).value;
    assert forall p :: p in baseline.paths ==> p in Elems(observed);
    ChangedExactly(host, head, before, after, outputBefore, outputAfter, baseline, afterHashes);
    NoViolations(ToCheck(baseline, Parsed(outputAfter), afterHashes), path => allowed(path, scopePaths));
  }

  lemma HashesOf<C>(host: Host<C>, files: map<string, C>, paths: seq<string>)
    requires NeverAborted(host)
    ensures Hashes(host, files, paths).Ok?
    ensures Hashes(host, files, paths).value.Keys == Elems(paths)
    ensures forall p :: p in paths ==> Hashes(host, files, paths).value[p] == HashOf(host, files, p)
  {
    HashesMeaning(host, files, paths, 0, map[]);
  }

  /** Without baseline hashes the check fails closed: every baseline path and every newly dirty path must be allowed. */
  lemma WithoutHashesFailsClosed<C>(host: Host<C>, scopePaths: seq<string>, allowed: (string, seq<string>) -> bool,
                                    baselinePaths: seq<string>, files: map<string, C>, output: string)
    requires scopePaths != [] && NeverAborted(host)
    ensures var r := Verification(host, true, scopePaths, allowed, Baseline(baselinePaths, map[]), files, Ok(output));
      r.passed <==> forall p :: p in Parsed(output) || p in baselinePaths ==> allowed(p, scopePaths)
  {
    hide Parsed, Hashes, HashOf, Filter;
    var baseline := Baseline(baselinePaths, map[]);
    var observed := Observed(Parsed(output), baseline);
    HashesOf(host, files, observed);
    NoViolations(ToCheck(baseline, Parsed(output), Hashes(host, files, observed).value), path => allowed(path, scopePaths));
  }

  /** Records that name exactly the changed paths, none with a backslash, print to an output that lists the changes. */
  lemma RenderedListsChanges<C(!new)>(host: Host<C>, records: seq<Record>, head: map<string, C>, files: map<string, C>)
    requires ValidRecords(records)
    requires forall p :: p in PathsOf(records) ==> '\\' !in p && host.inside(p)
    requires forall p :: p in PathsOf(records) <==> !SameContent(head, files, p)
    ensures ListsChanges(host, Render(records), head, files)
  {
    PorcelainRoundTrip(records);
    assert forall p :: p in Parsed(Render(records)) <==> p in Elems(Parsed(Render(records)));
  }
}
