/**
 * Workspace-relative paths: their canonical form, and two tests of a path against a
 * list of entries. The allowlist, which enforces the scope a node declares, takes
 * every entry literally. The lease test, which checks the file evidence of an
 * executor against the paths of its lease, strips one directory glob first.
 */
module ScopePaths {
  import opened Wrappers
  import opened Text

  const GLOB := "/**"

  predicate EndsWith(s: string, suffix: string) {
    |s| >= |suffix| && s[|s| - |suffix|..] == suffix
  }

  predicate IsGlob(pattern: string) {
    EndsWith(pattern, GLOB)
  }

  function Base(pattern: string): (base: string)
    requires IsGlob(pattern)
    ensures pattern == base + GLOB
  {
    assert pattern == pattern[..|pattern| - 3] + pattern[|pattern| - 3..];
    pattern[..|pattern| - 3]
  }

  // ---------------------------------------------------------------------
  // Canonical paths
  // ---------------------------------------------------------------------

  // `text.split("/")`.
  function Split(text: string): (r: seq<string>)
    ensures r != []
    ensures forall i :: 0 <= i < |r| ==> '/' !in r[i]
  {
    if text == "" then [""]
    else
      var rest := Split(text[1..]);
      if text[0] == '/' then [""] + rest else [[text[0]] + rest[0]] + rest[1..]
  }

  // The segments that remain in a canonical path.
  function Named(segments: seq<string>): seq<string> {
    if segments == [] then []
    else if segments[0] == "" || segments[0] == "." then Named(segments[1..])
    else [segments[0]] + Named(segments[1..])
  }

  // `segments.join("/")`.
  function Join(segments: seq<string>): string {
    if segments == [] then ""
    else if |segments| == 1 then segments[0]
    else segments[0] + ("/" + Join(segments[1..]))
  }

  predicate IsLetter(c: char) {
    'a' <= c <= 'z' || 'A' <= c <= 'Z'
  }

  // Starts with a separator or with a drive.
  predicate Rooted(value: string) {
    || (value != "" && (value[0] == '/' || value[0] == '\\'))
    || (|value| >= 2 && IsLetter(value[0]) && value[1] == ':')
  }

  predicate IsControl(c: char) {
    c < ' ' || c == '\U{007F}'
  }

  predicate HasControl(value: string) {
    exists i :: 0 <= i < |value| && IsControl(value[i])
  }

  function SegmentsOf(value: string): seq<string> {
    Split(Slashed(value))
  }

  /** The canonical form, or None for a blank, rooted, escaping or nameless path. */
  function Canonical(value: string): Option<string> {
    if Blank(value) || Rooted(value) || HasControl(value) then None
    else if ".." in SegmentsOf(value) then None
    else if Named(SegmentsOf(value)) == [] then None
    else Some(Join(Named(SegmentsOf(value))))
  }

  // ---------------------------------------------------------------------
  // The allowlist
  // ---------------------------------------------------------------------

  // The path is the prefix or lies below it.
  predicate AtOrBelow(path: string, prefix: string) {
    path == prefix || prefix + "/" <= path
  }

  predicate MatchesEntry(path: string, entry: string) {
    Canonical(path).Some? && Canonical(entry).Some? && AtOrBelow(Canonical(path).value, Canonical(entry).value)
  }

  predicate PathMatchesAllowlist(path: string, allowed: seq<string>) {
    exists i :: 0 <= i < |allowed| && MatchesEntry(path, allowed[i])
  }

  // ---------------------------------------------------------------------
  // Lease scopes
  // ---------------------------------------------------------------------

  function CanonicalLease(value: string): Option<string> {
    if Blank(value) then None
    else
      var normalised := Trim(Slashed(value));
      if IsGlob(normalised) then
        var base := Base(normalised);
        if base == "" || base == "." then Some(GLOB)
        else if Canonical(base).None? then None
        else Some(Canonical(base).value + GLOB)
      else Canonical(normalised)
  }

  function WithoutGlob(pattern: string): string {
    if IsGlob(pattern) then Base(pattern) else pattern
  }

  predicate PathWithinSingleLeaseScope(path: string, scope: string) {
    if CanonicalLease(path).None? || CanonicalLease(scope).None? then false
    else if CanonicalLease(scope).value == GLOB then true
    else AtOrBelow(WithoutGlob(CanonicalLease(path).value), WithoutGlob(CanonicalLease(scope).value))
  }

  predicate WithinLease(path: string, scopes: seq<string>) {
    exists i :: 0 <= i < |scopes| && PathWithinSingleLeaseScope(path, scopes[i])
  }

  method PathWithinLeaseScope(path: string, scopes: seq<string>) returns (r: bool)
    ensures r <==> WithinLease(path, scopes)
  {
    hide PathWithinSingleLeaseScope;
    for i := 0 to |scopes|
      invariant forall k :: 0 <= k < i ==> !PathWithinSingleLeaseScope(path, scopes[k])
    {
      if PathWithinSingleLeaseScope(path, scopes[i]) {
        return true;
      }
    }
    return false;
  }

  // The directory that a valid lease entry stands for; the whole workspace is the empty text.
  function LeaseBase(value: string): Option<string> {
    match CanonicalLease(value)
    case None => None
    case Some(text) => Some(WithoutGlob(text))
  }

  // ---------------------------------------------------------------------
  // Segments of a path below a directory
  // ---------------------------------------------------------------------

  lemma {:induction false} SplitAtSlash(a: string, b: string)
    ensures Split(a + ("/" + b)) == Split(a) + Split(b)
  {
    var text := a + ("/" + b);
    if a == "" {
      assert text[1..] == b;
    } else {
      assert text[0] == a[0] && text[1..] == a[1..] + ("/" + b);
      SplitAtSlash(a[1..], b);
    }
  }

  lemma {:induction false} SplitPlain(name: string)
    requires '/' !in name
    ensures Split(name) == [name]
  {
    if name != "" {
      SplitPlain(name[1..]);
      assert [name[0]] + name[1..] == name;
    }
  }

  lemma {:induction false} NamedUnseparated(segments: seq<string>)
    requires forall i :: 0 <= i < |segments| ==> '/' !in segments[i]
    ensures forall i :: 0 <= i < |Named(segments)| ==> '/' !in Named(segments)[i]
  {
    if segments != [] { NamedUnseparated(segments[1..]); }
  }

  lemma {:induction false} NamedConcat(a: seq<string>, b: seq<string>)
    ensures Named(a + b) == Named(a) + Named(b)
  {
    if a == [] {
      assert a + b == b;
    } else {
      assert (a + b)[0] == a[0] && (a + b)[1..] == a[1..] + b;
      NamedConcat(a[1..], b);
    }
  }

  lemma {:induction false} JoinConcat(a: seq<string>, b: seq<string>)
    requires a != [] && b != []
    ensures Join(a + b) == Join(a) + ("/" + Join(b))
  {
    assert (a + b)[0] == a[0] && (a + b)[1..] == a[1..] + b;
    if |a| == 1 {
      assert a[1..] + b == b;
    } else {
      JoinConcat(a[1..], b);
    }
  }

  lemma {:induction false} NamedParts(segments: seq<string>)
    ensures forall i :: 0 <= i < |Named(segments)| ==> Named(segments)[i] != ""
  {
    if segments != [] { NamedParts(segments[1..]); }
  }

  lemma {:induction false} JoinNonEmpty(segments: seq<string>)
    requires segments != [] && segments[0] != ""
    ensures Join(segments) != "" && Join(segments)[0] == segments[0][0]
  {
  }

  lemma SlashedConcat(a: string, b: string)
    ensures Slashed(a + ("/" + b)) == Slashed(a) + ("/" + Slashed(b))
  {
  }

  lemma SegmentsBelow(b: string, t: string)
    ensures SegmentsOf(b + ("/" + t)) == SegmentsOf(b) + SegmentsOf(t)
    ensures Named(SegmentsOf(b + ("/" + t))) == Named(SegmentsOf(b)) + Named(SegmentsOf(t))
  {
    hide Slashed, Split, Named;
    SlashedConcat(b, t);
    SplitAtSlash(Slashed(b), Slashed(t));
    NamedConcat(SegmentsOf(b), SegmentsOf(t));
  }
}
