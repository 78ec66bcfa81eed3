/**
 * What narrowing a scope means for the allowlist test, and for the lease test of a
 * scope used as a lease list: when every scope that narrows an ancestor's, at any
 * depth, permits no path that the ancestor's own scope forbids.
 */
module ScopeEnforcement {
  import opened Wrappers
  import opened Text
  import opened ScopePaths
  import opened ScopeNarrowing

  // ---------------------------------------------------------------------
  // Chains of narrowing
  // ---------------------------------------------------------------------

  // The directory under all the trailing globs of a pattern.
  function Root(pattern: string): string {
    if IsGlob(pattern) then Root(Base(pattern)) else pattern
  }

  ghost predicate HoldsAll(ok: string -> bool, scope: seq<string>) {
    forall i :: 0 <= i < |scope| ==> ok(scope[i])
  }

  // Every non-empty chain of narrowings that ends in the scope starts with a scope all of whose patterns hold.
  ghost predicate HoldsAtEveryDepth(ok: string -> bool, scope: seq<string>) {
    forall scopes :: scopes != [] && Chain(scopes) && scopes[|scopes| - 1] == scope ==> HoldsAll(ok, scopes[0])
  }

  ghost predicate HoldsInDirectory(ok: string -> bool, directory: string) {
    forall c :: AtOrBelow(c, directory) ==> ok(c)
  }

  // What a pattern must satisfy so that everything narrowed from it holds.
  ghost predicate Safe(ok: string -> bool, pattern: string) {
    ok(pattern) && (IsGlob(pattern) ==> HoldsInDirectory(ok, Root(pattern)))
  }

  lemma {:induction false} RootInDirectory(pattern: string, directory: string)
    requires directory + "/" <= pattern
    ensures Root(pattern) == Root(directory) || AtOrBelow(Root(pattern), directory)
    decreases |pattern|
  {
    if IsGlob(pattern) {
      GlobBelow(pattern, directory);
      if pattern == directory + GLOB {
        assert Base(pattern) == directory;
      } else {
        RootInDirectory(Base(pattern), directory);
      }
    }
  }

  lemma {:induction false} PatternInRoot(pattern: string)
    ensures AtOrBelow(pattern, Root(pattern)) && !IsGlob(Root(pattern))
  {
    if IsGlob(pattern) {
      PatternInRoot(Base(pattern));
    }
  }

  lemma AtOrBelowTransitive(a: string, b: string, c: string)
    requires AtOrBelow(a, b) && AtOrBelow(b, c)
    ensures AtOrBelow(a, c)
  {
  }

  lemma SafeNarrows(ok: string -> bool, child: string, parent: string)
    requires PathIsWithinScope(child, parent) && Safe(ok, parent)
    ensures Safe(ok, child)
  {
    if child != parent {
      var base, root := Base(parent), Root(parent);
      PatternInRoot(base);
      assert AtOrBelow(child, base);
      AtOrBelowTransitive(child, base, root);
      if IsGlob(child) {
        assert child != root by { PatternInRoot(parent); }
        RootInDirectory(child, root);
        PatternInRoot(parent);
        assert AtOrBelow(Root(child), root);
        forall c | AtOrBelow(c, Root(child)) ensures ok(c) {
          AtOrBelowTransitive(c, Root(child), root);
        }
      }
    }
  }

  lemma {:induction false} SafeChain(ok: string -> bool, scopes: seq<seq<string>>)
    requires scopes != [] && Chain(scopes)
    requires var last := scopes[|scopes| - 1]; last != [] && forall i :: 0 <= i < |last| ==> Safe(ok, last[i])
    ensures scopes[0] != [] && forall i :: 0 <= i < |scopes[0]| ==> Safe(ok, scopes[0][i])
    decreases |scopes|
  {
    hide Safe;
    if |scopes| > 1 {
      var rest := scopes[1..];
      forall i | 0 <= i < |rest| - 1 ensures ChildScopeIsWithinParent(rest[i], rest[i + 1]) {
        assert rest[i] == scopes[i + 1] && rest[i + 1] == scopes[i + 2];
      }
      SafeChain(ok, rest);
      assert ChildScopeIsWithinParent(scopes[0], scopes[0 + 1]);
      forall i | 0 <= i < |scopes[0]| ensures Safe(ok, scopes[0][i]) {
        assert CoveredBy(scopes[0][i], scopes[1]);
        var j :| 0 <= j < |scopes[1]| && PathIsWithinScope(scopes[0][i], scopes[1][j]);
        SafeNarrows(ok, scopes[0][i], scopes[1][j]);
      }
    }
  }

  lemma ChainGrows(child: seq<string>, scopes: seq<seq<string>>)
    requires scopes != [] && Chain(scopes) && ChildScopeIsWithinParent(child, scopes[0])
    ensures Chain([child] + scopes) && ([child] + scopes)[|scopes|] == scopes[|scopes| - 1]
  {
    var longer := [child] + scopes;
    forall i | 0 <= i < |longer| - 1 ensures ChildScopeIsWithinParent(longer[i], longer[i + 1]) {
      assert i > 0 ==> longer[i] == scopes[i - 1];
      assert longer[i + 1] == scopes[i];
    }
  }

  lemma SingleWithin(child: string, parent: seq<string>, i: nat)
    requires i < |parent| && PathIsWithinScope(child, parent[i])
    ensures ChildScopeIsWithinParent([child], parent)
  {
    assert CoveredBy(child, parent);
  }

  // A chain from anything in the root directory of a glob up to the scope that a longer chain ends in.
  lemma {:induction false} ChainFromDirectory(pattern: string, child: string, scopes: seq<seq<string>>) returns (chain: seq<seq<string>>)
    requires scopes != [] && Chain(scopes) && scopes[0] == [pattern] && IsGlob(pattern) && AtOrBelow(child, Root(pattern))
    ensures chain != [] && Chain(chain) && chain[0] == [child] && chain[|chain| - 1] == scopes[|scopes| - 1]
    decreases |pattern|
  {
    var base := Base(pattern);
    if IsGlob(base) {
      SingleWithin(base, scopes[0], 0);
      ChainGrows([base], scopes);
      assert Root(pattern) == Root(base);
      chain := ChainFromDirectory(base, child, [[base]] + scopes);
    } else {
      assert Root(pattern) == base;
      SingleWithin(child, scopes[0], 0);
      ChainGrows([child], scopes);
      chain := [[child]] + scopes;
    }
  }

  /** All narrowings of a scope hold exactly when each of its patterns holds and each of its globs holds throughout its root directory. */
  lemma EveryDepthExactly(ok: string -> bool, scope: seq<string>)
    requires scope != []
    ensures HoldsAtEveryDepth(ok, scope) <==> forall i :: 0 <= i < |scope| ==> Safe(ok, scope[i])
  {
    if HoldsAtEveryDepth(ok, scope) {
      assert Chain([scope]) && [scope][0] == scope;
      assert HoldsAll(ok, [scope][0]);
      forall i, c | 0 <= i < |scope| && IsGlob(scope[i]) && AtOrBelow(c, Root(scope[i])) ensures ok(c) {
        SingleWithin(scope[i], scope, i);
        ChainGrows([scope[i]], [scope]);
        var chain := ChainFromDirectory(scope[i], c, [[scope[i]]] + [scope]);
        assert HoldsAll(ok, chain[0]);
        assert chain[0][0] == c;
      }
    }
    if forall i :: 0 <= i < |scope| ==> Safe(ok, scope[i]) {
      forall scopes | scopes != [] && Chain(scopes) && scopes[|scopes| - 1] == scope ensures HoldsAll(ok, scopes[0]) {
        SafeChain(ok, scopes);
      }
    }
  }

  // ---------------------------------------------------------------------
  // A name that no entry has
  // ---------------------------------------------------------------------

  function Letters(n: nat): (r: string)
    ensures |r| == n && forall i :: 0 <= i < n ==> r[i] == 'a'
  {
    seq(n, _ => 'a')
  }

  function LongerThan(texts: seq<string>): (n: nat)
    ensures forall i :: 0 <= i < |texts| ==> |texts[i]| < n
    ensures n > 0
  {
    if texts == [] then 1
    else
      var rest := LongerThan(texts[1..]);
      assert forall i :: 0 < i < |texts| ==> texts[i] == texts[1..][i - 1];
      if |texts[0]| < rest then rest else |texts[0]| + 1
  }

  lemma LettersSegments(n: nat)
    requires n > 0
    ensures SegmentsOf(Letters(n)) == [Letters(n)] && Named([Letters(n)]) == [Letters(n)] && !HasControl(Letters(n))
    ensures ".." !in SegmentsOf(Letters(n))
  {
    assert Slashed(Letters(n)) == Letters(n);
    SplitPlain(Letters(n));
    assert Letters(n)[0] == 'a';
    assert Named([]) == [];
  }

  // A name longer than a text, without a separator, is neither that text nor below it.
  lemma FreshIsElsewhere(n: nat, text: string)
    requires |text| < n
    ensures !AtOrBelow(Letters(n), text)
  {
    assert (text + "/")[|text|] == '/' && Letters(n)[|text|] == 'a';
  }

  // ---------------------------------------------------------------------
  // Canonical paths below a directory
  // ---------------------------------------------------------------------

  // What canonical form asks of a path besides a name and a non-blank text.
  ghost predicate Plain(value: string) {
    !Rooted(value) && !HasControl(value) && ".." !in SegmentsOf(value)
  }

  lemma {:induction false} TrimStartBelow(b: string, t: string)
    ensures TrimStart(b + ("/" + t)) == TrimStart(b) + ("/" + t)
  {
    var text := b + ("/" + t);
    if b == "" {
      assert text == "/" + t;
    } else {
      assert text[0] == b[0] && text[1..] == b[1..] + ("/" + t);
      TrimStartBelow(b[1..], t);
    }
  }

  lemma {:induction false} TrimEndBelow(b: string, t: string)
    ensures TrimEnd(b + ("/" + t)) == b + ("/" + TrimEnd(t))
    decreases |t|
  {
    var text := b + ("/" + t);
    var n := |t| - 1;
    if t == "" {
      assert text[|text| - 1] == '/';
    } else {
      assert text[|text| - 1] == t[n] && text[..|text| - 1] == b + ("/" + t[..n]);
      TrimEndBelow(b, t[..n]);
    }
  }

  lemma TrimBelow(b: string, t: string)
    ensures Trim(b + ("/" + t)) == TrimStart(b) + ("/" + TrimEnd(t))
    ensures !Blank(b + ("/" + t))
  {
    TrimStartBelow(b, t);
    TrimEndBelow(TrimStart(b), t);
  }

  lemma PlainSibling(b: string, t: string, u: string)
    requires Plain(b + ("/" + t)) && !HasControl(u) && ".." !in SegmentsOf(u)
    ensures Plain(b + ("/" + u))
  {
    hide SegmentsOf;
    var first, second := b + ("/" + t), b + ("/" + u);
    SegmentsBelow(b, t);
    SegmentsBelow(b, u);
    assert Rooted(second) ==> Rooted(first);
    forall i | 0 <= i < |b| ensures !IsControl(b[i]) {
      assert b[i] == first[i];
    }
    NoControlBelow(b, u);
  }

  lemma NoText()
    ensures !HasControl("") && SegmentsOf("") == [""] && Named([""]) == []
  {
    assert Named([]) == [];
  }

  // A canonical path in a directory is the canonical directory or lies below it, unless the directory has no name.
  lemma CanonicalBelow(b: string, t: string)
    requires Canonical(b + ("/" + t)).Some?
    ensures var path, directory := Canonical(b + ("/" + t)).value, Canonical(b + "/");
      if Named(SegmentsOf(b)) == [] then directory.None?
      else directory == Some(Join(Named(SegmentsOf(b)))) && AtOrBelow(path, directory.value)
  {
    hide SegmentsOf, Named, Join, Rooted, HasControl, Trim;
    SegmentsBelow(b, t);
    SegmentsBelow(b, "");
    NoText();
    assert b + ("/" + "") == b + "/";
    TrimBelow(b, "");
    PlainSibling(b, t, "");
    var up, down := Named(SegmentsOf(b)), Named(SegmentsOf(t));
    assert up + [] == up;
    if up != [] && down != [] {
      JoinConcat(up, down);
      assert Join(up) + "/" <= Join(up) + ("/" + Join(down));
    } else {
      assert up + down == up || up == [];
    }
  }

  // The canonical form of a fresh name in a directory.
  lemma CanonicalFresh(b: string, t: string, n: nat)
    requires Plain(b + ("/" + t)) && n > 0
    ensures var up := Named(SegmentsOf(b));
      Canonical(b + ("/" + Letters(n))) == Some(if up == [] then Letters(n) else Join(up) + ("/" + Letters(n)))
  {
    hide SegmentsOf, Named, Rooted, HasControl, Trim;
    var up := Named(SegmentsOf(b));
    LettersSegments(n);
    SegmentsBelow(b, Letters(n));
    PlainSibling(b, t, Letters(n));
    TrimBelow(b, Letters(n));
    if up == [] {
      assert up + [Letters(n)] == [Letters(n)];
    } else {
      JoinConcat(up, [Letters(n)]);
    }
  }

  lemma PlainOfCanonical(value: string)
    requires Canonical(value).Some?
    ensures Plain(value)
  {
  }

  // The text after the directory of a path that starts with it.
  lemma BelowSplits(path: string, directory: string) returns (t: string)
    requires directory + "/" <= path
    ensures path == directory + ("/" + t)
  {
    t := path[|directory| + 1..];
  }

  // A separator after a non-blank path does not change its canonical form.
  lemma CanonicalSlash(b: string)
    requires !Blank(b)
    ensures Canonical(b) == Canonical(b + "/")
  {
    hide Split, Named, Join, Trim;
    SegmentsBelow(b, "");
    NoText();
    assert b + ("/" + "") == b + "/";
    TrimBelow(b, "");
    assert Named(SegmentsOf(b)) + [] == Named(SegmentsOf(b));
    assert ".." in SegmentsOf(b + "/") <==> ".." in SegmentsOf(b);
    var longer := b + "/";
    assert HasControl(longer) <==> HasControl(b) by {
      if HasControl(b) {
        var i :| 0 <= i < |b| && IsControl(b[i]);
        assert longer[i] == b[i];
      }
      if HasControl(longer) {
        var i :| 0 <= i < |longer| && IsControl(longer[i]);
        assert i < |b| && longer[i] == b[i];
      }
    }
    assert b != "";
    assert Rooted(longer) <==> Rooted(b);
  }

  // The globs at the end of a pattern add named segments and nothing that spoils a path.
  lemma {:induction false} GlobTail(pattern: string) returns (t: string)
    requires IsGlob(pattern)
    ensures pattern == Root(pattern) + ("/" + t)
    ensures !HasControl(t) && ".." !in SegmentsOf(t) && Named(SegmentsOf(t)) != []
  {
    var base := Base(pattern);
    hide SegmentsOf, Named, HasControl;
    StarsSegments();
    if IsGlob(base) {
      var up := GlobTail(base);
      t := up + ("/" + "**");
      BelowTwice(Root(base), up, "**");
      SegmentsBelow(up, "**");
      NoControlBelow(up, "**");
    } else {
      t := "**";
      assert pattern == base + ("/" + "**");
    }
  }

  lemma BelowTwice(a: string, b: string, c: string)
    ensures (a + ("/" + b)) + ("/" + c) == a + ("/" + (b + ("/" + c)))
  {
  }

  lemma NoControlBelow(a: string, b: string)
    requires !HasControl(a) && !HasControl(b)
    ensures !HasControl(a + ("/" + b))
  {
    var text := a + ("/" + b);
    forall i | 0 <= i < |text| ensures !IsControl(text[i]) {
      if i < |a| {
        assert text[i] == a[i];
      } else if i > |a| {
        assert text[i] == b[i - |a| - 1];
      }
    }
  }

  lemma StarsSegments()
    ensures SegmentsOf("**") == ["**"] && Named(["**"]) == ["**"] && !HasControl("**")
  {
    assert Slashed("**") == "**";
    SplitPlain("**");
    assert Named([]) == [];
  }

  // ---------------------------------------------------------------------
  // The allowlist
  // ---------------------------------------------------------------------

  ghost predicate AllowsNoMore(child: seq<string>, parent: seq<string>) {
    forall path :: PathMatchesAllowlist(path, child) ==> PathMatchesAllowlist(path, parent)
  }

  // Invalid, or itself matched by the allowlist.
  function Allowed(allowed: seq<string>): string -> bool {
    (pattern: string) => Canonical(pattern).Some? ==> PathMatchesAllowlist(pattern, allowed)
  }

  lemma MatchesItself(pattern: string, allowed: seq<string>, i: nat)
    requires i < |allowed| && allowed[i] == pattern && Canonical(pattern).Some?
    ensures PathMatchesAllowlist(pattern, allowed)
  {
    assert MatchesEntry(pattern, allowed[i]);
  }

  /** A scope allows no path more than another exactly when every valid entry of it is itself allowed by the other. */
  lemma AllowsNoMoreExactly(child: seq<string>, parent: seq<string>)
    ensures AllowsNoMore(child, parent) <==> HoldsAll(Allowed(parent), child)
  {
    hide Canonical;
    if AllowsNoMore(child, parent) {
      forall i | 0 <= i < |child| ensures Allowed(parent)(child[i]) {
        if Canonical(child[i]).Some? { MatchesItself(child[i], child, i); }
      }
    }
    if HoldsAll(Allowed(parent), child) {
      forall path | PathMatchesAllowlist(path, child) ensures PathMatchesAllowlist(path, parent) {
        var i :| 0 <= i < |child| && MatchesEntry(path, child[i]);
        assert Allowed(parent)(child[i]);
        var j :| 0 <= j < |parent| && MatchesEntry(child[i], parent[j]);
        AtOrBelowTransitive(Canonical(path).value, Canonical(child[i]).value, Canonical(parent[j]).value);
        assert MatchesEntry(path, parent[j]);
      }
    }
  }

  // However deep the chain of narrowings, its first scope allows no path that the scope itself forbids.
  ghost predicate NarrowingKeepsAllowlist(scope: seq<string>) {
    forall scopes :: scopes != [] && Chain(scopes) && scopes[|scopes| - 1] == scope ==> AllowsNoMore(scopes[0], scope)
  }

  function CanonicalTexts(entries: seq<string>): (r: seq<string>)
    ensures |r| == |entries|
    ensures forall i :: 0 <= i < |entries| && Canonical(entries[i]).Some? ==> r[i] == Canonical(entries[i]).value
  {
    seq(|entries|, i requires 0 <= i < |entries| => Canonical(entries[i]).GetOr(""))
  }

  // A nameless directory holds a valid path that no allowlist entry matches.
  lemma NamelessDirectoryEscapes(b: string, t: string, allowed: seq<string>)
    requires Plain(b + ("/" + t)) && Named(SegmentsOf(b)) == []
    ensures !HoldsInDirectory(Allowed(allowed), b)
  {
    hide Canonical, SegmentsOf, Named;
    var n := LongerThan(CanonicalTexts(allowed));
    var c := b + ("/" + Letters(n));
    CanonicalFresh(b, t, n);
    forall i | 0 <= i < |allowed| ensures !MatchesEntry(c, allowed[i]) {
      if Canonical(allowed[i]).Some? {
        FreshIsElsewhere(n, Canonical(allowed[i]).value);
      }
    }
    assert b + "/" <= c;
    assert !Allowed(allowed)(c);
  }

  lemma DirectoryAllowedExactly(pattern: string, allowed: seq<string>)
    requires IsGlob(pattern)
    ensures HoldsInDirectory(Allowed(allowed), Root(pattern))
      <==> (Canonical(pattern).Some? ==> PathMatchesAllowlist(Root(pattern) + "/", allowed))
  {
    hide Canonical, SegmentsOf, Named, Root;
    var b := Root(pattern);
    var t := GlobTail(pattern);
    var directory := b + "/";
    if HoldsInDirectory(Allowed(allowed), b) && Canonical(pattern).Some? {
      PlainOfCanonical(pattern);
      CanonicalBelow(b, t);
      if Named(SegmentsOf(b)) == [] {
        NamelessDirectoryEscapes(b, t, allowed);
      }
      assert AtOrBelow(directory, b);
      assert Allowed(allowed)(directory);
    }
    if Canonical(pattern).Some? ==> PathMatchesAllowlist(directory, allowed) {
      forall c | AtOrBelow(c, b) ensures Allowed(allowed)(c) {
        if Canonical(c).Some? {
          ValidInDirectory(pattern, c);
          var j :| 0 <= j < |allowed| && MatchesEntry(directory, allowed[j]);
          DirectoryOfValid(b, c);
          AtOrBelowTransitive(Canonical(c).value, Canonical(directory).value, Canonical(allowed[j]).value);
          assert MatchesEntry(c, allowed[j]);
        }
      }
    }
  }

  // A glob over a directory that holds any valid path is valid.
  lemma ValidInDirectory(pattern: string, c: string)
    requires IsGlob(pattern) && AtOrBelow(c, Root(pattern)) && Canonical(c).Some?
    ensures Canonical(pattern).Some?
  {
    hide SegmentsOf, Named, Root, Rooted, HasControl, Trim, Join;
    var b := Root(pattern);
    var t := GlobTail(pattern);
    var below := b + "/";
    assert b + ("/" + "") == below;
    var u := "";
    if c == b {
      CanonicalSlash(b);
    } else {
      u := BelowSplits(c, b);
    }
    PlainOfCanonical(b + ("/" + u));
    PlainSibling(b, u, t);
    SegmentsBelow(b, t);
    TrimBelow(b, t);
  }

  lemma DirectoryOfValid(b: string, c: string)
    requires AtOrBelow(c, b) && Canonical(c).Some? && Canonical(b + "/").Some?
    ensures AtOrBelow(Canonical(c).value, Canonical(b + "/").value)
  {
    hide Canonical, SegmentsOf, Named, Join;
    if c == b {
      assert !Blank(b) by { NotBlankOfCanonical(b); }
      CanonicalSlash(b);
    } else {
      var u := BelowSplits(c, b);
      CanonicalBelow(b, u);
    }
  }

  lemma NotBlankOfCanonical(value: string)
    requires Canonical(value).Some?
    ensures !Blank(value)
  {
  }

  lemma LettersCanonical(n: nat)
    requires n > 0
    ensures Canonical(Letters(n)) == Some(Letters(n))
  {
    LettersSegments(n);
    assert Letters(n)[0] == 'a' && Letters(n)[n - 1] == 'a';
    assert !Rooted(Letters(n));
  }

  /**
   * Narrowing keeps the allowlist at every depth exactly when the scope is not empty
   * and the directory under each of its valid globs is allowed by the scope itself.
   * A glob is a literal entry of the allowlist, so an ordinary glob does not allow it.
   */
  lemma NarrowingKeepsAllowlistExactly(scope: seq<string>)
    ensures NarrowingKeepsAllowlist(scope) <==>
      scope != [] && forall i :: 0 <= i < |scope| ==> GlobIsAllowed(scope[i], scope)
  {
    hide Canonical, Root, Chain;
    if scope == [] {
      UnrestrictedIsNoAllowlist();
    } else {
      forall scopes | scopes != [] && Chain(scopes) && scopes[|scopes| - 1] == scope
        ensures AllowsNoMore(scopes[0], scope) <==> HoldsAll(Allowed(scope), scopes[0])
      {
        AllowsNoMoreExactly(scopes[0], scope);
      }
      assert NarrowingKeepsAllowlist(scope) <==> HoldsAtEveryDepth(Allowed(scope), scope);
      EveryDepthExactly(Allowed(scope), scope);
      forall i | 0 <= i < |scope| ensures Safe(Allowed(scope), scope[i]) <==> GlobIsAllowed(scope[i], scope) {
        if Canonical(scope[i]).Some? { MatchesItself(scope[i], scope, i); }
        if IsGlob(scope[i]) { DirectoryAllowedExactly(scope[i], scope); }
      }
    }
  }

  predicate GlobIsAllowed(pattern: string, allowed: seq<string>) {
    IsGlob(pattern) && Canonical(pattern).Some? ==> PathMatchesAllowlist(Root(pattern) + "/", allowed)
  }

  // The empty scope restricts no narrowing, yet as an allowlist it allows nothing.
  lemma UnrestrictedIsNoAllowlist()
    ensures !NarrowingKeepsAllowlist([])
  {
    hide Canonical;
    var scopes := [[Letters(1)], []];
    assert Chain(scopes);
    LettersCanonical(1);
    MatchesItself(Letters(1), scopes[0], 0);
    assert !AllowsNoMore(scopes[0], []);
  }

  lemma GlobCanonical(directory: string)
    requires Canonical(directory) == Some(directory)
    ensures Canonical(directory + GLOB).Some? ==> Canonical(directory + GLOB).value == directory + GLOB
  {
    hide SegmentsOf, Named, Rooted, HasControl, Trim, Join;
    assert directory + GLOB == directory + ("/" + "**");
    StarsSegments();
    SegmentsBelow(directory, "**");
    JoinConcat(Named(SegmentsOf(directory)), ["**"]);
    assert Join(["**"]) == "**" by { OneSegment("**"); }
  }

  lemma OneSegment(name: string)
    ensures Join([name]) == name
  {
  }

  /** A scope of one ordinary directory glob admits narrowings that allow more: the directory itself is one. */
  lemma LoneGlobWidensAllowlist(directory: string)
    requires Canonical(directory) == Some(directory) && !IsGlob(directory)
    ensures ChildScopeIsWithinParent([directory], [directory + GLOB])
    ensures PathMatchesAllowlist(directory, [directory]) && !PathMatchesAllowlist(directory, [directory + GLOB])
    ensures !NarrowingKeepsAllowlist([directory + GLOB])
  {
    hide Canonical, Root;
    var pattern := directory + GLOB;
    assert IsGlob(pattern) && Base(pattern) == directory;
    SingleWithin(directory, [pattern], 0);
    MatchesItself(directory, [directory], 0);
    GlobCanonical(directory);
    assert Chain([[directory], [pattern]]);
    assert !AllowsNoMore([directory], [pattern]);
  }

  // ---------------------------------------------------------------------
  // Lease scopes
  // ---------------------------------------------------------------------

  lemma CanonicalNonEmpty(value: string)
    requires Canonical(value).Some?
    ensures Canonical(value).value != "" && Canonical(value).value != GLOB
  {
    hide Split, Rooted, HasControl, Trim;
    NamedParts(SegmentsOf(value));
    JoinNonEmpty(Named(SegmentsOf(value)));
    NamedUnseparated(SegmentsOf(value));
  }

  /** A path is within a lease entry exactly when the entry is the whole workspace or its directory holds the path's. */
  lemma LeaseMeaning(path: string, scope: string)
    ensures PathWithinSingleLeaseScope(path, scope) <==>
      && LeaseBase(path).Some? && LeaseBase(scope).Some?
      && (LeaseBase(scope).value == "" || AtOrBelow(LeaseBase(path).value, LeaseBase(scope).value))
  {
    hide Canonical, Trim;
    if CanonicalLease(scope).Some? {
      LeaseTextNonEmpty(scope);
    }
  }

  lemma LeaseTextNonEmpty(value: string)
    requires CanonicalLease(value).Some?
    ensures WithoutGlob(CanonicalLease(value).value) == "" <==> CanonicalLease(value).value == GLOB
  {
    hide Canonical, Trim;
    var normalised := Trim(Slashed(value));
    if IsGlob(normalised) {
      if Canonical(Base(normalised)).Some? { CanonicalNonEmpty(Base(normalised)); }
    } else if Canonical(normalised).Some? {
      CanonicalNonEmpty(normalised);
    }
  }

  ghost predicate LeasesNoMore(child: seq<string>, parent: seq<string>) {
    forall path :: WithinLease(path, child) ==> WithinLease(path, parent)
  }

  // Invalid, or itself within the lease scope.
  function Leased(scopes: seq<string>): string -> bool {
    (pattern: string) => LeaseBase(pattern).Some? ==> WithinLease(pattern, scopes)
  }

  lemma WithinItself(pattern: string, scopes: seq<string>, i: nat)
    requires i < |scopes| && scopes[i] == pattern && LeaseBase(pattern).Some?
    ensures WithinLease(pattern, scopes)
  {
    hide LeaseBase;
    LeaseMeaning(pattern, pattern);
    assert PathWithinSingleLeaseScope(pattern, scopes[i]);
  }

  lemma WithinLeaseTransitive(path: string, entry: string, scopes: seq<string>)
    requires PathWithinSingleLeaseScope(path, entry) && WithinLease(entry, scopes)
    ensures WithinLease(path, scopes)
  {
    hide LeaseBase, PathWithinSingleLeaseScope;
    var j :| 0 <= j < |scopes| && PathWithinSingleLeaseScope(entry, scopes[j]);
    LeaseMeaning(path, entry);
    LeaseMeaning(entry, scopes[j]);
    LeaseMeaning(path, scopes[j]);
    assert PathWithinSingleLeaseScope(path, scopes[j]);
  }

  /** A lease scope covers no path more than another exactly when every valid entry of it is itself within the other. */
  lemma LeasesNoMoreExactly(child: seq<string>, parent: seq<string>)
    ensures LeasesNoMore(child, parent) <==> HoldsAll(Leased(parent), child)
  {
    hide LeaseBase, PathWithinSingleLeaseScope;
    if LeasesNoMore(child, parent) {
      forall i | 0 <= i < |child| ensures Leased(parent)(child[i]) {
        if LeaseBase(child[i]).Some? { WithinItself(child[i], child, i); }
      }
    }
    if HoldsAll(Leased(parent), child) {
      forall path | WithinLease(path, child) ensures WithinLease(path, parent) {
        var i :| 0 <= i < |child| && PathWithinSingleLeaseScope(path, child[i]);
        LeaseMeaning(path, child[i]);
        assert Leased(parent)(child[i]);
        WithinLeaseTransitive(path, child[i], parent);
      }
    }
  }

  // However deep the chain of narrowings, its first scope covers no path that the scope itself does not cover.
  ghost predicate NarrowingKeepsLease(scope: seq<string>) {
    forall scopes :: scopes != [] && Chain(scopes) && scopes[|scopes| - 1] == scope ==> LeasesNoMore(scopes[0], scope)
  }

  predicate CoversWorkspace(scopes: seq<string>) {
    exists i :: 0 <= i < |scopes| && LeaseBase(scopes[i]) == Some("")
  }

  // The texts that decide a directory: itself, with a separator, its glob, and an entry of it when those are top-level paths.
  predicate DirectoryIsLeased(directory: string, scopes: seq<string>) {
    && Leased(scopes)(directory) && Leased(scopes)(directory + "/") && Leased(scopes)(directory + GLOB)
    && (LeaseBase(directory + "/a") == Some("a") ==> CoversWorkspace(scopes))
  }

  function Normal(value: string): string {
    Trim(Slashed(value))
  }

  // The normalised text of a path below a directory.
  lemma NormalBelow(b: string, t: string)
    ensures Normal(b + ("/" + t)) == TrimStart(Slashed(b)) + ("/" + TrimEnd(Slashed(t)))
    ensures !Blank(b + ("/" + t))
  {
    SlashedConcat(b, t);
    TrimBelow(Slashed(b), Slashed(t));
    TrimBelow(b, t);
  }

  // The directory of a lease entry, from its normalised text.
  lemma LeaseBaseOf(value: string)
    requires !Blank(value)
    ensures var text := Normal(value);
      LeaseBase(value) ==
        if IsGlob(text) then
          if Base(text) == "" || Base(text) == "." then Some("") else Canonical(Base(text))
        else if Canonical(text).None? then None
        else Some(WithoutGlob(Canonical(text).value))
  {
    hide Canonical, Trim;
    var text := Normal(value);
    if IsGlob(text) && Canonical(Base(text)).Some? {
      var longer := Canonical(Base(text)).value + GLOB;
      assert IsGlob(longer) && Base(longer) == Canonical(Base(text)).value;
    }
    assert IsGlob(GLOB) && Base(GLOB) == "";
  }

  lemma TrimEndSamples()
    ensures TrimEnd(Slashed("")) == "" && TrimEnd(Slashed("**")) == "**"
  {
    assert Slashed("") == "" && Slashed("**") == "**";
  }

  // The directory text with nothing after its separator.
  lemma DirectoryNormal(b: string)
    ensures Normal(b + "/") == TrimStart(Slashed(b)) + "/" && !Blank(b + "/")
    ensures Normal(b + GLOB) == TrimStart(Slashed(b)) + GLOB && !Blank(b + GLOB)
  {
    hide Trim, TrimStart;
    NormalBelow(b, "");
    NormalBelow(b, "**");
    assert b + ("/" + "") == b + "/" && b + ("/" + "**") == b + GLOB;
    TrimEndSamples();
    assert TrimStart(Slashed(b)) + ("/" + "") == TrimStart(Slashed(b)) + "/";
    assert TrimStart(Slashed(b)) + ("/" + "**") == TrimStart(Slashed(b)) + GLOB;
  }

  // A directory text without a name whose entries are valid: its entries are top-level paths.
  lemma NamelessEntries(b: string, n: nat)
    requires Plain(TrimStart(Slashed(b)) + "/") && Named(SegmentsOf(TrimStart(Slashed(b)))) == [] && n > 0
    ensures LeaseBase(b + ("/" + Letters(n))) == Some(Letters(n))
  {
    hide Canonical, SegmentsOf, Named, Plain;
    var d := TrimStart(Slashed(b));
    NormalBelow(b, Letters(n));
    LettersTrimmed(n);
    assert d + ("/" + "") == d + "/";
    CanonicalFresh(d, "", n);
    var text := d + ("/" + Letters(n));
    assert text[|text| - 1] == 'a';
    LeaseBaseOf(b + ("/" + Letters(n)));
  }

  lemma LettersTrimmed(n: nat)
    requires n > 0
    ensures TrimEnd(Slashed(Letters(n))) == Letters(n) && !IsGlob(Letters(n))
  {
    assert Slashed(Letters(n)) == Letters(n);
    assert Letters(n)[n - 1] == 'a';
  }

  // Where the directory of a glob is the whole workspace.
  predicate OpensWorkspace(b: string) {
    TrimStart(Slashed(b)) == "" || TrimStart(Slashed(b)) == "."
  }

  // The path's lease directory is in that of the directory's glob, or is that of the directory with a separator.
  ghost predicate LeaseInDirectory(path: string, b: string) {
    && LeaseBase(path).Some? && LeaseBase(b + GLOB).Some?
    && (AtOrBelow(LeaseBase(path).value, LeaseBase(b + GLOB).value) || LeaseBase(path) == LeaseBase(b + "/"))
  }

  lemma LeaseBelow(b: string, t: string)
    requires LeaseBase(b + ("/" + t)).Some? && !OpensWorkspace(b)
    ensures var d := TrimStart(Slashed(b));
      if Named(SegmentsOf(d)) == [] then Plain(d + "/") else LeaseInDirectory(b + ("/" + t), b)
  {
    hide Canonical, SegmentsOf, Named, Trim, TrimStart, TrimEnd, Slashed, Plain;
    var d, u := TrimStart(Slashed(b)), TrimEnd(Slashed(t));
    var text := d + ("/" + u);
    NormalBelow(b, t);
    DirectoryNormal(b);
    LeaseBaseOf(b + ("/" + t));
    LeaseBaseOf(b + "/");
    LeaseBaseOf(b + GLOB);
    assert IsGlob(d + GLOB) && Base(d + GLOB) == d;
    assert (d + "/")[|d|] == '/' && !IsGlob(d + "/");
    StartNotBlank(b);
    CanonicalSlash(d);
    assert d + "/" <= text;
    if IsGlob(text) {
      GlobBelow(text, d);
      if text == d + GLOB {
        PlainDirectory(d);
      } else {
        var v := BelowSplits(Base(text), d);
        CanonicalDirectory(d, v);
      }
    } else {
      CanonicalDirectory(d, u);
      if Named(SegmentsOf(d)) != [] && Canonical(text) != Canonical(d) {
        WithoutGlobBelow(Canonical(text).value, Canonical(d).value);
      }
    }
  }

  lemma StartNotBlank(b: string)
    requires TrimStart(Slashed(b)) != ""
    ensures !Blank(TrimStart(Slashed(b)))
  {
    var d := TrimStart(Slashed(b));
    if Blank(d) {
      assert TrimStart(d) == d;
      TrimEndBlank(d);
    }
  }

  lemma {:induction false} TrimEndBlank(s: string)
    requires TrimEnd(s) == ""
    ensures forall i :: 0 <= i < |s| ==> IsSpace(s[i])
    decreases |s|
  {
    if s != "" {
      TrimEndBlank(s[..|s| - 1]);
    }
  }

  lemma PlainDirectory(d: string)
    requires Canonical(d + "/").Some?
    ensures Named(SegmentsOf(d)) != []
  {
    assert d + ("/" + "") == d + "/";
    SegmentsBelow(d, "");
    NoText();
  }

  // `CanonicalBelow` with what the nameless case leaves of the directory.
  lemma CanonicalDirectory(d: string, u: string)
    requires Canonical(d + ("/" + u)).Some?
    ensures if Named(SegmentsOf(d)) == [] then Plain(d + "/")
      else Canonical(d + "/").Some? && AtOrBelow(Canonical(d + ("/" + u)).value, Canonical(d + "/").value)
  {
    hide Canonical, SegmentsOf, Named;
    CanonicalBelow(d, u);
    PlainOfCanonical(d + ("/" + u));
    NoText();
    PlainSibling(d, u, "");
    assert d + ("/" + "") == d + "/";
  }

  // Stripping one glob leaves a path in its directory, unless the path is that directory.
  lemma WithoutGlobBelow(path: string, directory: string)
    requires AtOrBelow(path, directory) && path != directory
    ensures AtOrBelow(WithoutGlob(path), directory)
  {
    if IsGlob(path) { GlobBelow(path, directory); }
  }

  // A lease directory inside that of a covered entry is covered.
  lemma CoveredByBase(path: string, entry: string, scopes: seq<string>)
    requires LeaseBase(path).Some? && LeaseBase(entry).Some? && WithinLease(entry, scopes)
    requires LeaseBase(entry).value == "" || AtOrBelow(LeaseBase(path).value, LeaseBase(entry).value)
    ensures WithinLease(path, scopes)
  {
    hide LeaseBase, PathWithinSingleLeaseScope;
    LeaseMeaning(path, entry);
    WithinLeaseTransitive(path, entry, scopes);
  }

  lemma WorkspaceCoversAll(path: string, scopes: seq<string>)
    requires CoversWorkspace(scopes) && LeaseBase(path).Some?
    ensures WithinLease(path, scopes)
  {
    hide LeaseBase, PathWithinSingleLeaseScope;
    var i :| 0 <= i < |scopes| && LeaseBase(scopes[i]) == Some("");
    LeaseMeaning(path, scopes[i]);
    assert PathWithinSingleLeaseScope(path, scopes[i]);
  }

  // Only the whole workspace covers a name longer than every entry's directory.
  lemma FreshNeedsWorkspace(path: string, n: nat, scopes: seq<string>)
    requires WithinLease(path, scopes) && LeaseBase(path) == Some(Letters(n))
    requires forall i :: 0 <= i < |scopes| && LeaseBase(scopes[i]).Some? ==> |LeaseBase(scopes[i]).value| < n
    ensures CoversWorkspace(scopes)
  {
    hide LeaseBase, PathWithinSingleLeaseScope;
    var i :| 0 <= i < |scopes| && PathWithinSingleLeaseScope(path, scopes[i]);
    LeaseMeaning(path, scopes[i]);
    FreshIsElsewhere(n, LeaseBase(scopes[i]).value);
  }

  function LeaseTexts(entries: seq<string>): (r: seq<string>)
    ensures |r| == |entries|
    ensures forall i :: 0 <= i < |entries| && LeaseBase(entries[i]).Some? ==> r[i] == LeaseBase(entries[i]).value
  {
    seq(|entries|, i requires 0 <= i < |entries| => LeaseBase(entries[i]).GetOr(""))
  }

  // Entries named `a` are top-level exactly in a nameless directory whose text spoils no path.
  lemma TopLevelEntries(b: string)
    requires LeaseBase(b + "/a") == Some("a")
    ensures Plain(TrimStart(Slashed(b)) + "/") && Named(SegmentsOf(TrimStart(Slashed(b)))) == []
  {
    hide Canonical, SegmentsOf, Named, Trim, TrimStart, Slashed, Plain, Join;
    var d := TrimStart(Slashed(b));
    assert Letters(1) == "a" && b + "/a" == b + ("/" + "a");
    NormalBelow(b, "a");
    LettersTrimmed(1);
    var text := d + ("/" + "a");
    assert text[|text| - 1] == 'a';
    LeaseBaseOf(b + "/a");
    PlainOfCanonical(text);
    NoText();
    PlainSibling(d, "a", "");
    assert d + ("/" + "") == d + "/";
    CanonicalFresh(d, "a", 1);
    EntryIsNotTopLevel(Join(Named(SegmentsOf(d))));
  }

  lemma EntryIsNotTopLevel(directory: string)
    ensures WithoutGlob(directory + ("/" + "a")) == directory + ("/" + "a") != "a"
  {
    var entry := directory + ("/" + "a");
    assert entry[|entry| - 1] == 'a' && |entry| > 1;
  }

  lemma DirectoryLeasedExactly(b: string, scopes: seq<string>)
    requires !IsGlob(b)
    ensures HoldsInDirectory(Leased(scopes), b) <==> DirectoryIsLeased(b, scopes)
  {
    hide LeaseBase, WithinLease, Canonical, SegmentsOf, Named, TrimStart, Slashed, Plain;
    if HoldsInDirectory(Leased(scopes), b) {
      assert AtOrBelow(b, b) && AtOrBelow(b + "/", b) && AtOrBelow(b + GLOB, b);
      if LeaseBase(b + "/a") == Some("a") {
        TopLevelEntries(b);
        var n := LongerThan(LeaseTexts(scopes));
        NamelessEntries(b, n);
        assert AtOrBelow(b + ("/" + Letters(n)), b);
        assert Leased(scopes)(b + ("/" + Letters(n)));
        FreshNeedsWorkspace(b + ("/" + Letters(n)), n, scopes);
      }
    }
    if DirectoryIsLeased(b, scopes) {
      forall c | AtOrBelow(c, b) ensures Leased(scopes)(c) {
        if c != b && LeaseBase(c).Some? {
          var t := BelowSplits(c, b);
          LeasedBelow(b, t, scopes);
        }
      }
    }
  }

  lemma LeasedBelow(b: string, t: string, scopes: seq<string>)
    requires DirectoryIsLeased(b, scopes) && LeaseBase(b + ("/" + t)).Some?
    ensures WithinLease(b + ("/" + t), scopes)
  {
    hide LeaseBase, WithinLease, Canonical, SegmentsOf, Named, TrimStart, Slashed, Plain, OpensWorkspace;
    var c := b + ("/" + t);
    if OpensWorkspace(b) {
      GlobOpensWorkspace(b);
      CoveredByBase(c, b + GLOB, scopes);
    } else {
      LeaseBelow(b, t);
      if Named(SegmentsOf(TrimStart(Slashed(b)))) == [] {
        NamelessEntries(b, 1);
        assert Letters(1) == "a" && b + ("/" + Letters(1)) == b + "/a";
        WorkspaceCoversAll(c, scopes);
      } else if LeaseBase(c) == LeaseBase(b + "/") {
        CoveredByBase(c, b + "/", scopes);
      } else {
        CoveredByBase(c, b + GLOB, scopes);
      }
    }
  }

  lemma GlobOpensWorkspace(b: string)
    requires OpensWorkspace(b)
    ensures LeaseBase(b + GLOB) == Some("")
  {
    hide Canonical, TrimStart, Slashed;
    DirectoryNormal(b);
    var d := TrimStart(Slashed(b));
    assert IsGlob(d + GLOB) && Base(d + GLOB) == d;
    LeaseBaseOf(b + GLOB);
  }

  /**
   * Narrowing keeps the lease at every depth exactly when the scope is not empty and,
   * for the directory under each of its globs, the directory itself, the directory
   * with a separator and its glob are covered where they are valid, and the whole
   * workspace is covered where the directory's entries are top-level paths.
   */
  lemma NarrowingKeepsLeaseExactly(scope: seq<string>)
    ensures NarrowingKeepsLease(scope) <==>
      scope != [] && forall i :: 0 <= i < |scope| ==> GlobIsLeased(scope[i], scope)
  {
    hide LeaseBase, WithinLease, Root, Chain, DirectoryIsLeased;
    if scope == [] {
      UnrestrictedIsNoLease();
    } else {
      forall scopes | scopes != [] && Chain(scopes) && scopes[|scopes| - 1] == scope
        ensures LeasesNoMore(scopes[0], scope) <==> HoldsAll(Leased(scope), scopes[0])
      {
        LeasesNoMoreExactly(scopes[0], scope);
      }
      assert NarrowingKeepsLease(scope) <==> HoldsAtEveryDepth(Leased(scope), scope);
      EveryDepthExactly(Leased(scope), scope);
      forall i | 0 <= i < |scope| ensures Safe(Leased(scope), scope[i]) <==> GlobIsLeased(scope[i], scope) {
        if LeaseBase(scope[i]).Some? { WithinItself(scope[i], scope, i); }
        PatternInRoot(scope[i]);
        DirectoryLeasedExactly(Root(scope[i]), scope);
      }
    }
  }

  predicate GlobIsLeased(pattern: string, scopes: seq<string>) {
    IsGlob(pattern) ==> DirectoryIsLeased(Root(pattern), scopes)
  }

  // The empty scope restricts no narrowing, yet as a lease scope it covers nothing.
  lemma UnrestrictedIsNoLease()
    ensures !NarrowingKeepsLease([])
  {
    hide Canonical, LeaseBase, PathWithinSingleLeaseScope;
    var scopes := [[Letters(1)], []];
    assert Chain(scopes);
    LettersLease(1);
    WithinItself(Letters(1), scopes[0], 0);
    assert !LeasesNoMore(scopes[0], []);
  }

  lemma LettersLease(n: nat)
    requires n > 0
    ensures LeaseBase(Letters(n)) == Some(Letters(n))
  {
    hide Canonical;
    LettersCanonical(n);
    LettersTrimmed(n);
    assert Slashed(Letters(n)) == Letters(n);
    assert Letters(n)[0] == 'a' && Letters(n)[n - 1] == 'a';
    assert Trim(Letters(n)) == Letters(n);
  }

  // A directory written as leases write it.
  predicate Ordinary(directory: string) {
    Canonical(directory) == Some(directory) && Slashed(directory) == directory && Trimmed(directory) && !IsGlob(directory)
  }

  lemma OrdinaryIsLeased(directory: string, scopes: seq<string>, i: nat)
    requires Ordinary(directory) && i < |scopes| && scopes[i] == directory + GLOB
    ensures DirectoryIsLeased(directory, scopes)
  {
    hide Canonical, SegmentsOf, Named, WithinLease, LeaseBase, TrimStart, TrimEnd;
    NotBlankOfCanonical(directory);
    DirectoryNormal(directory);
    CanonicalSlash(directory);
    LeaseBaseOf(directory);
    LeaseBaseOf(directory + "/");
    LeaseBaseOf(directory + GLOB);
    assert IsGlob(directory + GLOB) && Base(directory + GLOB) == directory;
    assert (directory + "/")[|directory|] == '/' && !IsGlob(directory + "/");
    CanonicalNonEmpty(directory);
    NotADot(directory);
    WithinItself(directory + GLOB, scopes, i);
    CoveredByBase(directory, directory + GLOB, scopes);
    CoveredByBase(directory + "/", directory + GLOB, scopes);
    if LeaseBase(directory + "/a") == Some("a") {
      TopLevelEntries(directory);
      NamedOfCanonical(directory);
    }
  }

  lemma NotADot(directory: string)
    requires Canonical(directory).Some?
    ensures directory != "."
  {
    assert Slashed(".") == ".";
    SplitPlain(".");
    assert Named([]) == [] && Named(["."]) == [];
  }

  lemma NamedOfCanonical(value: string)
    requires Canonical(value).Some?
    ensures Named(SegmentsOf(value)) != []
  {
  }

  /** A scope whose globs are all ordinary directory globs keeps its lease at every depth, whatever the scopes between. */
  lemma OrdinaryGlobsKeepLease(scope: seq<string>)
    requires scope != [] && forall i :: 0 <= i < |scope| && IsGlob(scope[i]) ==> Ordinary(Base(scope[i]))
    ensures NarrowingKeepsLease(scope)
  {
    hide DirectoryIsLeased, Canonical, NarrowingKeepsLease;
    forall i | 0 <= i < |scope| ensures GlobIsLeased(scope[i], scope) {
      if IsGlob(scope[i]) {
        assert Root(scope[i]) == Root(Base(scope[i])) == Base(scope[i]);
        OrdinaryIsLeased(Base(scope[i]), scope, i);
      }
    }
    NarrowingKeepsLeaseExactly(scope);
  }

  /** A scope without globs keeps both its allowlist and its lease at every depth. */
  lemma ExactPathsKeepBoth(scope: seq<string>)
    requires scope != [] && forall i :: 0 <= i < |scope| ==> !IsGlob(scope[i])
    ensures NarrowingKeepsAllowlist(scope) && NarrowingKeepsLease(scope)
  {
    hide NarrowingKeepsAllowlist, NarrowingKeepsLease;
    NarrowingKeepsAllowlistExactly(scope);
    NarrowingKeepsLeaseExactly(scope);
  }

  /** The concrete case: `src` narrows its own glob, and its allowlist admits a file that the glob's does not. */
  lemma SourceDirectoryWidensAllowlist()
    ensures ChildScopeIsWithinParent(["src"], ["src" + GLOB])
    ensures PathMatchesAllowlist("src/a", ["src"]) && !PathMatchesAllowlist("src/a", ["src" + GLOB])
  {
    hide Canonical, Root;
    SourcePaths();
    assert IsGlob("src" + GLOB) && Base("src" + GLOB) == "src";
    SingleWithin("src", ["src" + GLOB], 0);
    assert MatchesEntry("src/a", ["src"][0]);
    assert "src/**/"[4] != "src/a"[4];
  }

  lemma SourcePaths()
    ensures Canonical("src") == Some("src") && Canonical("src/a") == Some("src/a")
    ensures Canonical("src" + GLOB).Some? ==> Canonical("src" + GLOB).value == "src" + GLOB
  {
    hide Split, Named, Trim, TrimStart, TrimEnd, Join;
    assert Slashed("src") == "src" && Slashed("a") == "a";
    SplitPlain("src");
    OneName("src");
    OneSegment("src");
    assert !Blank("src") by { assert Trimmed("src"); }
    assert Plain("src") && Canonical("src") == Some("src");
    GlobCanonical("src");
    assert Letters(1) == "a" && "src/a" == "src" + ("/" + "a") && "src" + ("/" + "") == "src" + "/" == "src/";
    CanonicalSlash("src");
    PlainOfCanonical("src/");
    CanonicalFresh("src", "", 1);
  }

  lemma OneName(name: string)
    requires name != "" && name != "."
    ensures Named([name]) == [name]
  {
    assert Named([]) == [];
  }
}
