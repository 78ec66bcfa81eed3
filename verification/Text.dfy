/**
 * Identity text: the host language's `trim`, its string order, and
 * the two sorting idioms every domain module uses, `[...new Set(xs)].sort()`
 * and an in-place sort of records by a unique text key.
 */
module Text {

  // The white space and line terminators that `trim` strips.
  predicate IsSpace(c: char) {
    || '\U{0009}' <= c <= '\U{000D}' || c == '\U{0020}' || c == '\U{00A0}' || c == '\U{1680}'
    || '\U{2000}' <= c <= '\U{200A}' || c == '\U{2028}' || c == '\U{2029}' || c == '\U{202F}'
    || c == '\U{205F}' || c == '\U{3000}' || c == '\U{FEFF}'
  }

  predicate Trimmed(s: string) {
    s != "" ==> !IsSpace(s[0]) && !IsSpace(s[|s| - 1])
  }

  function TrimStart(s: string): (r: string)
    ensures r != "" ==> !IsSpace(r[0]) && s != "" && r[|r| - 1] == s[|s| - 1]
    ensures s != "" && !IsSpace(s[0]) ==> r == s
  {
    if s != "" && IsSpace(s[0]) then TrimStart(s[1..]) else s
  }

  function TrimEnd(s: string): (r: string)
    ensures r <= s
    ensures r != "" ==> !IsSpace(r[|r| - 1])
    ensures s != "" && !IsSpace(s[|s| - 1]) ==> r == s
  {
    if s != "" && IsSpace(s[|s| - 1]) then TrimEnd(s[..|s| - 1]) else s
  }

  function Trim(s: string): (r: string)
    ensures Trimmed(r)
    ensures Trimmed(s) ==> r == s
  {
    TrimEnd(TrimStart(s))
  }

  predicate Blank(s: string) {
    Trim(s) == ""
  }

  // `path.replaceAll("\\", "/")`.
  function Slashed(path: string): (r: string)
    ensures |r| == |path|
    ensures forall i :: 0 <= i < |path| ==> r[i] == if path[i] == '\\' then '/' else path[i]
  {
    seq(|path|, i requires 0 <= i < |path| => if path[i] == '\\' then '/' else path[i])
  }

  // A non-empty identity that `trim` leaves alone.
  predicate CleanId(s: string) {
    s != "" && Trimmed(s)
  }

  // ---------------------------------------------------------------------
  // Text order
  // ---------------------------------------------------------------------

  predicate Less(a: string, b: string) {
    if b == "" then false
    else if a == "" then true
    else if a[0] != b[0] then a[0] < b[0]
    else Less(a[1..], b[1..])
  }

  lemma {:induction false} LessIrreflexive(a: string)
    ensures !Less(a, a)
  {
    if a != "" { LessIrreflexive(a[1..]); }
  }

  lemma {:induction false} LessTrichotomy(a: string, b: string)
    ensures a == b || Less(a, b) || Less(b, a)
  {
    if a != "" && b != "" && a[0] == b[0] {
      LessTrichotomy(a[1..], b[1..]);
      if a[1..] == b[1..] {
        assert a == [a[0]] + a[1..] && b == [b[0]] + b[1..];
      }
    }
  }

  lemma {:induction false} LessTransitive(a: string, b: string, c: string)
    requires Less(a, b) && Less(b, c)
    ensures Less(a, c)
  {
    if a != "" && a[0] == b[0] == c[0] {
      LessTransitive(a[1..], b[1..], c[1..]);
    }
  }

  lemma LessAsymmetric(a: string, b: string)
    requires Less(a, b)
    ensures !Less(b, a)
  {
    LessIrreflexive(a);
    if Less(b, a) { LessTransitive(a, b, a); }
  }

  // The texts agree up to a position where one ends first or has the smaller character.
  ghost predicate SmallerAt(a: string, b: string, i: nat) {
    i <= |a| && i < |b| && a[..i] == b[..i] && (i == |a| || a[i] < b[i])
  }

  lemma AgreeAtStart(a: string, b: string, i: nat)
    requires a != "" && SmallerAt(a, b, i)
    ensures i == 0 || a[0] == b[0]
  {
    if i > 0 { assert a[..i][0] == b[..i][0]; }
  }

  /** The order is lexicographic: decided at the first position where the texts differ, a prefix coming first. */
  lemma {:induction false} LessExactly(a: string, b: string)
    ensures Less(a, b) <==> exists i: nat :: SmallerAt(a, b, i)
  {
    if b == "" {
    } else if a == "" {
      assert SmallerAt(a, b, 0);
    } else if a[0] != b[0] {
      assert a[0] < b[0] ==> SmallerAt(a, b, 0);
      forall i: nat | SmallerAt(a, b, i) ensures i == 0 {
        AgreeAtStart(a, b, i);
      }
    } else {
      LessExactly(a[1..], b[1..]);
      forall i: nat | SmallerAt(a[1..], b[1..], i) ensures SmallerAt(a, b, i + 1) {
        assert a[..i + 1] == [a[0]] + a[1..][..i] && b[..i + 1] == [b[0]] + b[1..][..i];
      }
      forall i: nat | SmallerAt(a, b, i) ensures i > 0 && SmallerAt(a[1..], b[1..], i - 1) {
        if i > 0 { assert a[1..][..i - 1] == a[..i][1..] && b[1..][..i - 1] == b[..i][1..]; }
      }
    }
  }

  // The code points of white space and line terminators in the host language.
  predicate WhiteSpace(code: int) {
    9 <= code <= 13 || code == 32 || code == 160 || code == 5760 || 8192 <= code <= 8202
    || code == 8232 || code == 8233 || code == 8239 || code == 8287 || code == 12288 || code == 65279
  }

  ghost predicate AllSpace(s: string) {
    forall i :: 0 <= i < |s| ==> WhiteSpace(s[i] as int)
  }

  lemma SpaceExactly(c: char)
    ensures IsSpace(c) <==> WhiteSpace(c as int)
  {
  }

  lemma {:induction false} TrimStartStrips(s: string)
    ensures exists spaces :: AllSpace(spaces) && s == spaces + TrimStart(s)
  {
    hide IsSpace, WhiteSpace;
    if s != "" && IsSpace(s[0]) {
      SpaceExactly(s[0]);
      TrimStartStrips(s[1..]);
      var spaces :| AllSpace(spaces) && s[1..] == spaces + TrimStart(s[1..]);
      assert AllSpace([s[0]] + spaces) && s == ([s[0]] + spaces) + TrimStart(s);
    } else {
      assert AllSpace("") && s == "" + TrimStart(s);
    }
  }

  lemma {:induction false} TrimEndStrips(s: string)
    ensures exists spaces :: AllSpace(spaces) && s == TrimEnd(s) + spaces
  {
    hide IsSpace, WhiteSpace;
    var n := |s|;
    if s != "" && IsSpace(s[n - 1]) {
      SpaceExactly(s[n - 1]);
      TrimEndStrips(s[..n - 1]);
      var spaces :| AllSpace(spaces) && s[..n - 1] == TrimEnd(s[..n - 1]) + spaces;
      assert AllSpace(spaces + [s[n - 1]]) && s == TrimEnd(s) + (spaces + [s[n - 1]]);
    } else {
      assert AllSpace("") && s == TrimEnd(s) + "";
    }
  }

  /**
   * Trimming strips white space from both ends and nothing else, and leaves none there; a
   * text is blank when it is white space throughout, and a clean identity has none at its ends.
   */
  lemma TrimExactly(s: string)
    ensures exists before, after :: AllSpace(before) && AllSpace(after) && s == before + (Trim(s) + after)
    ensures Trim(s) != "" ==> !WhiteSpace(Trim(s)[0] as int) && !WhiteSpace(Trim(s)[|Trim(s)| - 1] as int)
    ensures Blank(s) <==> AllSpace(s)
    ensures CleanId(s) <==> s != "" && !WhiteSpace(s[0] as int) && !WhiteSpace(s[|s| - 1] as int)
  {
    hide IsSpace, WhiteSpace;
    TrimStartStrips(s);
    TrimEndStrips(TrimStart(s));
    var before :| AllSpace(before) && s == before + TrimStart(s);
    var after :| AllSpace(after) && TrimStart(s) == Trim(s) + after;
    assert s == before + (Trim(s) + after);
    EndsExactly(s);
    EndsExactly(Trim(s));
    if Trim(s) == "" {
      assert s == before + after;
    } else {
      assert s[|before|] == Trim(s)[0];
    }
  }

  lemma EndsExactly(s: string)
    ensures s != "" ==> (IsSpace(s[0]) <==> WhiteSpace(s[0] as int)) && (IsSpace(s[|s| - 1]) <==> WhiteSpace(s[|s| - 1] as int))
  {
    if s != "" {
      SpaceExactly(s[0]);
      SpaceExactly(s[|s| - 1]);
    }
  }

  // ---------------------------------------------------------------------
  // Sets of identities in order
  // ---------------------------------------------------------------------

  ghost predicate StrictlySorted(s: seq<string>) {
    forall i, j :: 0 <= i < j < |s| ==> Less(s[i], s[j])
  }

  ghost function Elems<T(!new)>(s: seq<T>): (r: set<T>)
    ensures forall x :: x in r <==> x in s
  {
    set x | x in s
  }

  lemma ElemsConcat<T(!new)>(a: seq<T>, b: seq<T>)
    ensures Elems(a + b) == Elems(a) + Elems(b)
  {
    assert forall x :: x in Elems(a + b) <==> x in Elems(a) + Elems(b);
  }

  // Insert into a sorted list unless the identity is already present.
  function InsertUnique(x: string, s: seq<string>): (r: seq<string>)
    ensures Elems(r) == Elems(s) + {x}
  {
    if s == [] then [x]
    else if x == s[0] then s
    else if Less(x, s[0]) then [x] + s
    else
      var rest := InsertUnique(x, s[1..]);
      assert s == [s[0]] + s[1..];
      ElemsConcat([s[0]], s[1..]);
      ElemsConcat([s[0]], rest);
      [s[0]] + rest
  }

  lemma {:induction false} InsertUniqueSorted(x: string, s: seq<string>)
    requires StrictlySorted(s)
    ensures StrictlySorted(InsertUnique(x, s))
  {
    if s == [] || x == s[0] {
    } else if Less(x, s[0]) {
      forall j | 0 <= j < |s| ensures Less(x, s[j]) {
        if j > 0 { LessTransitive(x, s[0], s[j]); }
      }
    } else {
      LessTrichotomy(x, s[0]);
      InsertUniqueSorted(x, s[1..]);
      var rest := InsertUnique(x, s[1..]);
      forall j | 0 <= j < |rest| ensures Less(s[0], rest[j]) {
        assert rest[j] in Elems(rest);
        if rest[j] != x {
          assert rest[j] in s[1..];
        }
      }
    }
  }

  /** `[...new Set(xs)].sort()`. */
  function SortedUnique(xs: seq<string>): (r: seq<string>)
    ensures Elems(r) == Elems(xs)
    ensures StrictlySorted(r)
  {
    if xs == [] then []
    else
      var rest := SortedUnique(xs[1..]);
      InsertUniqueSorted(xs[0], rest);
      assert xs == [xs[0]] + xs[1..];
      ElemsConcat([xs[0]], xs[1..]);
      InsertUnique(xs[0], rest)
  }

  // A strictly sorted list is determined by its set of elements.
  lemma {:induction false} StrictlySortedUnique(a: seq<string>, b: seq<string>)
    requires StrictlySorted(a) && StrictlySorted(b) && Elems(a) == Elems(b)
    ensures a == b
  {
    StrictlySortedNoDup(a);
    StrictlySortedNoDup(b);
    if a != [] {
      assert a[0] in Elems(b);
      assert b[0] in Elems(a);
      var i :| 0 <= i < |a| && a[i] == b[0];
      var j :| 0 <= j < |b| && b[j] == a[0];
      if i > 0 && j > 0 { LessAsymmetric(a[0], a[i]); }
      assert a[0] == b[0];
      forall x ensures x in Elems(a[1..]) <==> x in Elems(b[1..]) {
        TailElems(a, x);
        TailElems(b, x);
      }
      StrictlySortedUnique(a[1..], b[1..]);
      assert a == [a[0]] + a[1..] && b == [b[0]] + b[1..];
    }
  }

  lemma TailElems(s: seq<string>, x: string)
    requires StrictlySorted(s) && s != []
    ensures x in s[1..] <==> x in Elems(s) && x != s[0]
  {
    LessIrreflexive(s[0]);
    if x in s[1..] {
      var k :| 0 <= k < |s[1..]| && s[1..][k] == x;
      assert s[k + 1] == x;
    }
    if x in s && x != s[0] {
      var k :| 0 <= k < |s| && s[k] == x;
      assert s[1..][k - 1] == x;
    }
  }

  lemma SortedUniqueOfSet(xs: seq<string>, ys: seq<string>)
    requires Elems(xs) == Elems(ys)
    ensures SortedUnique(xs) == SortedUnique(ys)
  {
    StrictlySortedUnique(SortedUnique(xs), SortedUnique(ys));
  }

  lemma {:induction false} StrictlySortedNoDup(s: seq<string>)
    requires StrictlySorted(s)
    ensures forall i, j :: 0 <= i < j < |s| ==> s[i] != s[j]
    ensures |Elems(s)| == |s|
  {
    forall i, j | 0 <= i < j < |s| ensures s[i] != s[j] { LessIrreflexive(s[i]); }
    DistinctCard(s);
  }

  lemma {:induction false} DistinctCard<T(!new)>(s: seq<T>)
    requires forall i, j :: 0 <= i < j < |s| ==> s[i] != s[j]
    ensures |Elems(s)| == |s|
  {
    if s != [] {
      DistinctCard(s[1..]);
      assert s == [s[0]] + s[1..];
      ElemsConcat([s[0]], s[1..]);
      assert Elems([s[0]]) == {s[0]};
      assert s[0] !in Elems(s[1..]);
    }
  }

  // ---------------------------------------------------------------------
  // Records in key order
  // ---------------------------------------------------------------------

  ghost predicate KeyedSorted<T>(key: T -> string, s: seq<T>) {
    forall i, j :: 0 <= i < j < |s| ==> Less(key(s[i]), key(s[j]))
  }

  ghost predicate KeysDistinct<T>(key: T -> string, s: seq<T>) {
    forall i, j :: 0 <= i < j < |s| ==> key(s[i]) != key(s[j])
  }

  function InsertBy<T>(key: T -> string, x: T, s: seq<T>): (r: seq<T>)
    ensures multiset(r) == multiset(s) + multiset{x}
  {
    if s == [] || Less(key(x), key(s[0])) then
      assert multiset([x] + s) == multiset{x} + multiset(s);
      [x] + s
    else
      var rest := InsertBy(key, x, s[1..]);
      assert s == [s[0]] + s[1..];
      assert multiset([s[0]] + rest) == multiset{s[0]} + multiset(rest);
      [s[0]] + rest
  }

  // The key of a list of plain identities.
  function Itself(id: string): string {
    id
  }

  /** `records.sort((l, r) => compareIdentity(key(l), key(r)))`. */
  function SortBy<T>(key: T -> string, s: seq<T>): (r: seq<T>)
    ensures multiset(r) == multiset(s)
  {
    if s == [] then []
    else
      assert s == [s[0]] + s[1..];
      InsertBy(key, s[0], SortBy(key, s[1..]))
  }

  lemma {:induction false} InsertBySorted<T>(key: T -> string, x: T, s: seq<T>)
    requires KeyedSorted(key, s)
    requires forall y :: y in s ==> key(y) != key(x)
    ensures KeyedSorted(key, InsertBy(key, x, s))
  {
    if s == [] {
    } else if Less(key(x), key(s[0])) {
      forall j | 0 <= j < |s| ensures Less(key(x), key(s[j])) {
        if j > 0 { LessTransitive(key(x), key(s[0]), key(s[j])); }
      }
    } else {
      LessTrichotomy(key(x), key(s[0]));
      InsertBySorted(key, x, s[1..]);
      var rest := InsertBy(key, x, s[1..]);
      forall j | 0 <= j < |rest| ensures Less(key(s[0]), key(rest[j])) {
        assert rest[j] in multiset(rest);
        if rest[j] != x {
          assert rest[j] in s[1..];
        }
      }
    }
  }

  lemma {:induction false} SortBySorted<T>(key: T -> string, s: seq<T>)
    requires KeysDistinct(key, s)
    ensures KeyedSorted(key, SortBy(key, s))
  {
    if s != [] {
      SortBySorted(key, s[1..]);
      var rest := SortBy(key, s[1..]);
      forall y | y in rest ensures key(y) != key(s[0]) {
        assert y in multiset(rest);
        assert y in s[1..];
      }
      InsertBySorted(key, s[0], rest);
    }
  }

  lemma MultisetTail<T>(s: seq<T>)
    requires s != []
    ensures multiset(s[1..]) == multiset(s) - multiset{s[0]}
  {
    assert s == [s[0]] + s[1..];
  }

  lemma SortedHeads<T>(key: T -> string, a: seq<T>, b: seq<T>)
    requires KeyedSorted(key, a) && KeyedSorted(key, b) && multiset(a) == multiset(b)
    requires a != [] && b != []
    ensures a[0] == b[0]
  {
    assert a[0] in multiset(b) && b[0] in multiset(a);
    var i :| 0 <= i < |a| && a[i] == b[0];
    var j :| 0 <= j < |b| && b[j] == a[0];
    if i > 0 && j > 0 { LessAsymmetric(key(a[0]), key(a[i])); }
  }

  lemma {:induction false} KeyedSortedUnique<T>(key: T -> string, a: seq<T>, b: seq<T>)
    requires KeyedSorted(key, a) && KeyedSorted(key, b) && multiset(a) == multiset(b)
    ensures a == b
  {
    hide Less;
    assert |a| == |multiset(a)| && |b| == |multiset(b)|;
    if a != [] {
      assert b != [];
      SortedHeads(key, a, b);
      MultisetTail(a);
      MultisetTail(b);
      KeyedSortedUnique(key, a[1..], b[1..]);
      assert a == [a[0]] + a[1..] && b == [b[0]] + b[1..];
    }
  }
}
