/**
 * The narrowing of repository scopes from a parent goal to its children: exact
 * paths and directory globs, scope lists with the empty list as unrestricted,
 * and the validation of every node scope of a child definition.
 */
module ScopeNarrowing {
  import opened Wrappers
  import opened ScopePaths
  import opened Text

  predicate PathIsWithinScope(child: string, parent: string) {
    if child == parent then true
    else if IsGlob(parent) then
      var base := Base(parent);
      child == base || child == base + GLOB || base + "/" <= child
    else false
  }

  predicate ChildScopeIsWithinParent(child: seq<string>, parent: seq<string>) {
    if parent == [] then true
    else if child == [] then false
    else forall i :: 0 <= i < |child| ==> CoveredBy(child[i], parent)
  }

  predicate CoveredBy(path: string, parents: seq<string>) {
    exists i :: 0 <= i < |parents| && PathIsWithinScope(path, parents[i])
  }

  // The pattern is a glob whose directory is itself a glob text.
  predicate NestedGlob(pattern: string) {
    IsGlob(pattern) && IsGlob(Base(pattern))
  }

  // A glob text that starts with a directory and a slash is that directory's glob or has its base below the directory.
  lemma GlobBelow(pattern: string, directory: string)
    requires IsGlob(pattern) && directory + "/" <= pattern
    ensures pattern == directory + GLOB || directory + "/" <= Base(pattern)
  {
    var rest := pattern[|directory| + 1..];
    assert pattern == directory + "/" + rest;
    assert pattern[|pattern| - 2] == '*' && pattern[|pattern| - 1] == '*' && pattern[|directory|] == '/';
    if |rest| == 2 {
      assert rest == pattern[|pattern| - 2..] == "**";
    }
  }

  /** Every pattern is within itself. */
  lemma ScopeReflexive(path: string, paths: seq<string>)
    ensures PathIsWithinScope(path, path) && ChildScopeIsWithinParent(paths, paths)
  {
    forall i | 0 <= i < |paths| ensures CoveredBy(paths[i], paths) {
      assert PathIsWithinScope(paths[i], paths[i]);
    }
  }

  lemma WithinTransitive(a: string, b: string, c: string)
    requires PathIsWithinScope(a, b) && PathIsWithinScope(b, c) && !NestedGlob(c)
    ensures PathIsWithinScope(a, c)
  {
    if a != b && b != c {
      var base := Base(c);
      if b != base {
        GlobBelow(b, base);
        assert base + "/" <= Base(b);
        assert Base(b) <= a;
      }
    }
  }

  ghost predicate TransitiveBelow(c: string) {
    forall a, b :: PathIsWithinScope(a, b) && PathIsWithinScope(b, c) ==> PathIsWithinScope(a, c)
  }

  /** Narrowing is transitive below a pattern exactly when the pattern is no nested glob. */
  lemma TransitiveExactly(c: string)
    ensures TransitiveBelow(c) <==> !NestedGlob(c)
  {
    if NestedGlob(c) {
      var b := Base(c);
      var a := Base(b);
      assert PathIsWithinScope(a, b) && PathIsWithinScope(b, c);
      assert |a| < |b| < |c|;
      assert !PathIsWithinScope(a, c);
    } else {
      forall a, b | PathIsWithinScope(a, b) && PathIsWithinScope(b, c) ensures PathIsWithinScope(a, c) {
        WithinTransitive(a, b, c);
      }
    }
  }

  // A path, its directory's glob, and the glob of that glob text: the path is not within the last.
  lemma NestedGlobBreaksNarrowing()
    ensures PathIsWithinScope("x/y", "x/**") && PathIsWithinScope("x/**", "x/**/**") && !PathIsWithinScope("x/y", "x/**/**")
  {
    assert Base("x/**") == "x" && Base("x/**/**") == "x/**";
    assert "x/" <= "x/y";
    assert "x/**/"[2] != "x/y"[2];
  }

  // ---------------------------------------------------------------------
  // Scope lists
  // ---------------------------------------------------------------------

  predicate PlainScope(paths: seq<string>) {
    forall i :: 0 <= i < |paths| ==> !NestedGlob(paths[i])
  }

  lemma ScopeTransitive(a: seq<string>, b: seq<string>, c: seq<string>)
    requires ChildScopeIsWithinParent(a, b) && ChildScopeIsWithinParent(b, c) && PlainScope(c)
    ensures ChildScopeIsWithinParent(a, c)
  {
    if c != [] {
      forall i | 0 <= i < |a| ensures CoveredBy(a[i], c) {
        assert CoveredBy(a[i], b);
        var j :| 0 <= j < |b| && PathIsWithinScope(a[i], b[j]);
        assert CoveredBy(b[j], c);
        var k :| 0 <= k < |c| && PathIsWithinScope(b[j], c[k]);
        WithinTransitive(a[i], b[j], c[k]);
      }
    }
  }

  // Each scope of the chain is within the next.
  ghost predicate Chain(scopes: seq<seq<string>>) {
    forall i :: 0 <= i < |scopes| - 1 ==> ChildScopeIsWithinParent(scopes[i], scopes[i + 1])
  }

  /** However deep the chain, the innermost scope is within the outermost one, whatever the scopes between. */
  lemma {:induction false} DescendantWithinAncestor(scopes: seq<seq<string>>)
    requires scopes != [] && Chain(scopes) && PlainScope(scopes[|scopes| - 1])
    ensures ChildScopeIsWithinParent(scopes[0], scopes[|scopes| - 1])
    decreases |scopes|
  {
    var outermost := scopes[|scopes| - 1];
    if |scopes| == 1 {
      ScopeReflexive("", outermost);
    } else {
      var rest := scopes[1..];
      forall i | 0 <= i < |rest| - 1 ensures ChildScopeIsWithinParent(rest[i], rest[i + 1]) {
        assert rest[i] == scopes[i + 1] && rest[i + 1] == scopes[i + 2];
      }
      DescendantWithinAncestor(rest);
      assert ChildScopeIsWithinParent(scopes[0], scopes[0 + 1]);
      ScopeTransitive(scopes[0], rest[0], outermost);
    }
  }

  // ---------------------------------------------------------------------
  // Child definitions
  // ---------------------------------------------------------------------

  // The declared scope of a node; an entry that is not a text is absent.
  datatype NodeScope = Inherited | NotAList | Paths(entries: seq<Option<string>>)

  datatype ChildNode = ChildNode(id: string, scope: NodeScope)

  datatype Diagnostic = InvalidNodeScope(id: string) | NodeScopeWidened(id: string)

  predicate EntryOk(entry: Option<string>) {
    entry.Some? && !Blank(entry.value)
  }

  predicate ScopeOk(scope: NodeScope) {
    scope.Paths? && forall i :: 0 <= i < |scope.entries| ==> EntryOk(scope.entries[i])
  }

  function Texts(entries: seq<Option<string>>): (r: seq<string>)
    ensures |r| == |entries|
  {
    seq(|entries|, i requires 0 <= i < |entries| => entries[i].GetOr(""))
  }

  function NodeDiagnostics(node: ChildNode, binding: seq<string>): seq<Diagnostic> {
    if node.scope.Inherited? then []
    else if !ScopeOk(node.scope) then [InvalidNodeScope(node.id)]
    else if !ChildScopeIsWithinParent(Texts(node.scope.entries), binding) then [NodeScopeWidened(node.id)]
    else []
  }

  function AllDiagnostics(nodes: seq<ChildNode>, binding: seq<string>): seq<Diagnostic> {
    if nodes == [] then []
    else
      var n := |nodes| - 1;
      AllDiagnostics(nodes[..n], binding) + NodeDiagnostics(nodes[n], binding)
  }

  lemma AllDiagnosticsStep(nodes: seq<ChildNode>, binding: seq<string>, i: nat)
    requires i < |nodes|
    ensures AllDiagnostics(nodes[..i + 1], binding) == AllDiagnostics(nodes[..i], binding) + NodeDiagnostics(nodes[i], binding)
  {
    hide NodeDiagnostics;
    assert nodes[..i + 1][..i] == nodes[..i];
  }

  // The node inherits the binding scope or declares one that is within it.
  ghost predicate Narrows(node: ChildNode, binding: seq<string>) {
    node.scope.Inherited? || (ScopeOk(node.scope) && ChildScopeIsWithinParent(Texts(node.scope.entries), binding))
  }

  lemma NodeHasNone(node: ChildNode, binding: seq<string>)
    ensures NodeDiagnostics(node, binding) == [] <==> Narrows(node, binding)
  {
    hide ChildScopeIsWithinParent, EntryOk, Texts;
  }

  lemma {:induction false} NoDiagnostics(nodes: seq<ChildNode>, binding: seq<string>)
    ensures AllDiagnostics(nodes, binding) == [] <==> forall i :: 0 <= i < |nodes| ==> Narrows(nodes[i], binding)
  {
    hide NodeDiagnostics, Narrows;
    if nodes != [] {
      var n := |nodes| - 1;
      NoDiagnostics(nodes[..n], binding);
      NodeHasNone(nodes[n], binding);
    }
  }

  // The path is the pattern, or the pattern is a directory's glob and the path is, or is below, that directory.
  ghost predicate Covers(pattern: string, path: string) {
    path == pattern || exists directory :: pattern == directory + "/**" && (path == directory || StartsBelow(path, directory))
  }

  ghost predicate StartsBelow(path: string, directory: string) {
    exists rest :: path == directory + ("/" + rest)
  }

  lemma CoversExactly(path: string, pattern: string)
    ensures PathIsWithinScope(path, pattern) <==> Covers(pattern, path)
  {
    if IsGlob(pattern) {
      var base := Base(pattern);
      forall directory | pattern == directory + "/**" ensures directory == base {
        assert |directory| == |base|;
        assert directory == pattern[..|directory|] && base == pattern[..|base|];
      }
      if base + "/" <= path {
        assert path == base + ("/" + path[|base| + 1..]);
        assert StartsBelow(path, base);
      }
      if StartsBelow(path, base) {
        var rest :| path == base + ("/" + rest);
        assert path == (base + "/") + rest;
      }
      if path == base + GLOB { assert path == base + ("/" + "**"); }
    } else {
      forall directory ensures pattern != directory + "/**" {
        GlobSuffix(directory);
      }
    }
  }

  lemma GlobSuffix(directory: string)
    ensures IsGlob(directory + "/**")
  {
  }

  lemma CoveredExactly(path: string, parent: seq<string>)
    ensures CoveredBy(path, parent) <==> exists pattern :: pattern in parent && Covers(pattern, path)
  {
    hide PathIsWithinScope, Covers;
    forall pattern ensures PathIsWithinScope(path, pattern) <==> Covers(pattern, path) {
      CoversExactly(path, pattern);
    }
    if exists pattern :: pattern in parent && Covers(pattern, path) {
      var pattern :| pattern in parent && Covers(pattern, path);
      var j :| 0 <= j < |parent| && parent[j] == pattern;
    }
  }

  /** An unrestricted parent admits every scope; any other admits exactly the non-empty scopes whose every entry it covers. */
  lemma NarrowsExactly(child: seq<string>, parent: seq<string>)
    ensures ChildScopeIsWithinParent(child, parent) <==>
      parent == [] || (child != [] && forall path :: path in child ==> exists pattern :: pattern in parent && Covers(pattern, path))
  {
    hide CoveredBy, Covers;
    forall path ensures CoveredBy(path, parent) <==> exists pattern :: pattern in parent && Covers(pattern, path) {
      CoveredExactly(path, parent);
    }
    if ChildScopeIsWithinParent(child, parent) && parent != [] {
      forall path | path in child ensures CoveredBy(path, parent) {
        var i :| 0 <= i < |child| && child[i] == path;
      }
    }
    if forall path :: path in child ==> CoveredBy(path, parent) {
      assert forall i :: 0 <= i < |child| ==> child[i] in child;
    }
  }

  // The scope is a list of these texts, none of them blank.
  ghost predicate Declares(scope: NodeScope, texts: seq<string>) {
    && scope.Paths? && |texts| == |scope.entries|
    && forall i :: 0 <= i < |texts| ==> scope.entries[i] == Some(texts[i]) && !Blank(texts[i])
  }

  ghost predicate Malformed(scope: NodeScope) {
    scope != Inherited && forall texts :: !Declares(scope, texts)
  }

  // The node declares a well-formed scope that reaches outside the binding.
  ghost predicate Widens(scope: NodeScope, binding: seq<string>) {
    exists texts :: Declares(scope, texts) && !ChildScopeIsWithinParent(texts, binding)
  }

  ghost predicate ReportedFor(node: ChildNode, binding: seq<string>, diagnostic: Diagnostic) {
    || (diagnostic == InvalidNodeScope(node.id) && Malformed(node.scope))
    || (diagnostic == NodeScopeWidened(node.id) && Widens(node.scope, binding))
  }

  lemma DeclaredTexts(scope: NodeScope)
    ensures if ScopeOk(scope) then forall texts :: Declares(scope, texts) <==> texts == Texts(scope.entries)
            else forall texts :: !Declares(scope, texts)
  {
    hide Blank;
    if ScopeOk(scope) {
      assert forall i :: 0 <= i < |scope.entries| ==> EntryOk(scope.entries[i]);
    } else if scope.Paths? {
      var i :| 0 <= i < |scope.entries| && !EntryOk(scope.entries[i]);
    }
  }

  lemma NodeReports(node: ChildNode, binding: seq<string>, diagnostic: Diagnostic)
    ensures diagnostic in NodeDiagnostics(node, binding) <==> ReportedFor(node, binding, diagnostic)
  {
    hide ChildScopeIsWithinParent, Declares, ScopeOk, Texts;
    DeclaredTexts(node.scope);
    DeclaredIsList(node.scope);
    if node.scope.Paths? && ScopeOk(node.scope) {
      assert Declares(node.scope, Texts(node.scope.entries));
    }
  }

  lemma DeclaredIsList(scope: NodeScope)
    ensures ScopeOk(scope) ==> scope.Paths?
  {
  }

  /** A node is reported exactly for a malformed scope, or for a well-formed one that widens the binding. */
  lemma {:induction false} DiagnosticsExactly(nodes: seq<ChildNode>, binding: seq<string>, diagnostic: Diagnostic)
    ensures diagnostic in AllDiagnostics(nodes, binding) <==> exists i :: 0 <= i < |nodes| && ReportedFor(nodes[i], binding, diagnostic)
  {
    hide NodeDiagnostics, ReportedFor;
    if nodes != [] {
      var n := |nodes| - 1;
      DiagnosticsExactly(nodes[..n], binding, diagnostic);
      NodeReports(nodes[n], binding, diagnostic);
    }
  }

  method ValidateChildDefinitionScopes(nodes: seq<ChildNode>, binding: seq<string>) returns (diagnostics: seq<Diagnostic>)
    ensures diagnostics == AllDiagnostics(nodes, binding)
    ensures diagnostics == [] <==> forall i :: 0 <= i < |nodes| ==> Narrows(nodes[i], binding)
  {
    hide ChildScopeIsWithinParent, Narrows, EntryOk, Texts;
    diagnostics := [];
    for i := 0 to |nodes|
      invariant diagnostics == AllDiagnostics(nodes[..i], binding)
    {
      AllDiagnosticsStep(nodes, binding, i);
      var node := nodes[i];
      if node.scope.Inherited? {
        continue;
      }
      if !ScopeOk(node.scope) {
        diagnostics := diagnostics + [InvalidNodeScope(node.id)];
        continue;
      }
      if !ChildScopeIsWithinParent(Texts(node.scope.entries), binding) {
        diagnostics := diagnostics + [NodeScopeWidened(node.id)];
      }
    }
    assert nodes[..|nodes|] == nodes;
    NoDiagnostics(nodes, binding);
  }
}
