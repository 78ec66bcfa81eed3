/**
 * What the canonical form of a workspace path is: which paths have one, its
 * segments, and when it is its own canonical form.
 */
module CanonicalPaths {
  import opened Wrappers
  import opened Text
  import opened Counting
  import opened ScopePaths

  lemma {:induction false} JoinOfSplit(text: string)
    ensures Join(Split(text)) == text
  {
    if text != "" {
      JoinOfSplit(text[1..]);
      var rest := Split(text[1..]);
      assert text == [text[0]] + text[1..];
      if text[0] == '/' {
        assert ([""] + rest)[1..] == rest;
      } else {
        var first := [text[0]] + rest[0];
        assert ([first] + rest[1..])[1..] == rest[1..];
        if |rest| == 1 {
          assert Join(rest) == rest[0];
        }
      }
    }
  }

  lemma {:induction false} SplitOfJoin(segments: seq<string>)
    requires segments != [] && forall i :: 0 <= i < |segments| ==> '/' !in segments[i]
    ensures Split(Join(segments)) == segments
  {
    SplitPlain(segments[0]);
    if |segments| > 1 {
      forall i | 0 <= i < |segments[1..]| ensures '/' !in segments[1..][i] {
        assert segments[1..][i] == segments[i + 1];
      }
      SplitOfJoin(segments[1..]);
      SplitAtSlash(segments[0], Join(segments[1..]));
      assert segments == [segments[0]] + segments[1..];
    }
  }

  function IsNamed(segment: string): bool {
    segment != "" && segment != "."
  }

  // A drive letter and a colon begin the text.
  predicate DriveStart(value: string) {
    |value| >= 2 && value[1] == ':' && (65 <= value[0] as int <= 90 || 97 <= value[0] as int <= 122)
  }

  // Not blank, neither rooted nor on a drive, without control characters and without a way up.
  ghost predicate Relative(value: string) {
    && !Blank(value) && value[0] != '/' && value[0] != '\\' && !DriveStart(value)
    && (forall i :: 0 <= i < |value| ==> 32 <= value[i] as int && value[i] as int != 127)
    && ".." !in SegmentsOf(value)
  }

  lemma {:induction false} NamedFilters(segments: seq<string>)
    ensures Named(segments) == Filter(IsNamed, segments)
  {
    if segments != [] {
      NamedFilters(segments[1..]);
    }
  }

  lemma ControlFree(value: string)
    ensures HasControl(value) <==> exists i :: 0 <= i < |value| && (value[i] as int < 32 || value[i] as int == 127)
  {
    if exists i :: 0 <= i < |value| && (value[i] as int < 32 || value[i] as int == 127) {
      var i :| 0 <= i < |value| && (value[i] as int < 32 || value[i] as int == 127);
      assert IsControl(value[i]);
    }
  }

  /** The canonical form of a path exists exactly for a relative one with a named segment; its segments are the named ones, in order. */
  lemma CanonicalExactly(value: string, canonical: string)
    ensures Canonical(value) == Some(canonical) <==>
      Relative(value) && canonical != "" && Split(canonical) == Filter(IsNamed, SegmentsOf(value))
  {
    hide Split, Filter, Blank, Named, Join;
    ControlFree(value);
    BlankIfEmpty();
    var named := Named(SegmentsOf(value));
    NamedFilters(SegmentsOf(value));
    JoinOfSplit(canonical);
    if named != [] {
      NamedUnseparated(SegmentsOf(value));
      SplitOfJoin(named);
      NamedParts(SegmentsOf(value));
      JoinNonEmpty(named);
    }
  }

  lemma BlankIfEmpty()
    ensures Blank("")
  {
  }

  lemma {:induction false} FilterAllNamed(segments: seq<string>)
    requires forall i :: 0 <= i < |segments| ==> IsNamed(segments[i])
    ensures Filter(IsNamed, segments) == segments
  {
    if segments != [] {
      FilterAllNamed(segments[1..]);
    }
  }

  lemma {:induction false} JoinChars(segments: seq<string>, c: char)
    requires c in Join(segments) && c != '/'
    ensures exists i :: 0 <= i < |segments| && c in segments[i]
  {
    if |segments| > 1 && c !in segments[0] {
      JoinChars(segments[1..], c);
      var i :| 0 <= i < |segments[1..]| && c in segments[1..][i];
      assert c in segments[i + 1];
    } else {
      assert c in segments[0];
    }
  }

  lemma {:induction false} SplitChars(text: string, i: nat, c: char)
    requires i < |Split(text)| && c in Split(text)[i]
    ensures c in text
  {
    if text != "" {
      var rest := Split(text[1..]);
      if text[0] == '/' {
        SplitChars(text[1..], i - 1, c);
      } else if i > 0 || c != text[0] {
        SplitChars(text[1..], i, c);
      }
    }
  }

  // A character of the canonical form is a separator or one of the path's, its backslashes aside.
  lemma CanonicalChars(value: string, c: char)
    requires Canonical(value).Some? && c in Canonical(value).value && c != '/'
    ensures c in value && c != '\\'
  {
    hide Split, Join, Filter, Blank;
    var segments := SegmentsOf(value);
    NamedFilters(segments);
    JoinChars(Named(segments), c);
    var i :| 0 <= i < |Named(segments)| && c in Named(segments)[i];
    assert Named(segments)[i] in segments;
    var j :| 0 <= j < |segments| && segments[j] == Named(segments)[i];
    SplitChars(Slashed(value), j, c);
    var k :| 0 <= k < |Slashed(value)| && Slashed(value)[k] == c;
  }

  /**
   * A canonical form is its own canonical form exactly when it is neither blank nor on a
   * drive, which the path it came from could hide behind a leading dot segment.
   */
  lemma CanonicalTwiceExactly(value: string)
    requires Canonical(value).Some?
    ensures var canonical := Canonical(value).value;
      Canonical(canonical) == Some(canonical) <==> !Blank(canonical) && !DriveStart(canonical)
  {
    hide Split, Join, Filter, Blank, Canonical, SegmentsOf;
    var canonical := Canonical(value).value;
    CanonicalExactly(value, canonical);
    CanonicalExactly(canonical, canonical);
    NoBackslash(value);
    NamedAgain(value);
    forall i | 0 <= i < |canonical| ensures 32 <= canonical[i] as int && canonical[i] as int != 127 {
      assert canonical[i] in canonical;
      if canonical[i] != '/' {
        CanonicalChars(value, canonical[i]);
      }
    }
    NotRootedAgain(value);
  }

  lemma NoBackslash(value: string)
    requires Canonical(value).Some?
    ensures Slashed(Canonical(value).value) == Canonical(value).value
  {
    hide Canonical;
    var canonical := Canonical(value).value;
    forall i | 0 <= i < |canonical| ensures canonical[i] != '\\' {
      assert canonical[i] in canonical;
      if canonical[i] == '\\' { CanonicalChars(value, '\\'); }
    }
  }

  lemma NamedAgain(value: string)
    requires Canonical(value).Some?
    ensures var canonical := Canonical(value).value;
      Filter(IsNamed, SegmentsOf(canonical)) == SegmentsOf(canonical) == Split(canonical) && ".." !in SegmentsOf(canonical)
  {
    hide Canonical, Split;
    var canonical := Canonical(value).value;
    CanonicalExactly(value, canonical);
    NoBackslash(value);
    forall i | 0 <= i < |Split(canonical)| ensures IsNamed(Split(canonical)[i]) && Split(canonical)[i] in SegmentsOf(value) {
      assert Split(canonical)[i] in Filter(IsNamed, SegmentsOf(value));
    }
    FilterAllNamed(Split(canonical));
  }

  lemma NotRootedAgain(value: string)
    requires Canonical(value).Some?
    ensures Canonical(value).value != "" && Canonical(value).value[0] != '/' && Canonical(value).value[0] != '\\'
  {
    hide Canonical, Filter;
    var canonical := Canonical(value).value;
    CanonicalExactly(value, canonical);
    NoBackslash(value);
    NamedAgain(value);
    assert Split(canonical)[0] in Filter(IsNamed, SegmentsOf(canonical));
    FirstSegment(canonical);
  }

  lemma FirstSegment(text: string)
    requires text != "" && Split(text)[0] != ""
    ensures text[0] != '/'
  {
  }

  lemma {:induction false} PlainChars(path: string)
    requires path != "" && path[0] == '.' && path[|path| - 1] == 'x' && '\\' !in path
    ensures !Blank(path) && Slashed(path) == path
  {
    assert Trimmed(path);
    assert forall i :: 0 <= i < |path| ==> path[i] in path;
  }

  lemma HiddenSegments()
    ensures SegmentsOf("." + ("/" + ("C:" + ("/" + "x")))) == ["."] + (["C:"] + ["x"])
    ensures Split("C:" + ("/" + "x")) == ["C:"] + ["x"]
  {
    hide Split, Blank;
    var path := "." + ("/" + ("C:" + ("/" + "x")));
    PlainChars(path);
    SplitPlain(".");
    SplitPlain("C:");
    SplitPlain("x");
    SplitAtSlash("C:", "x");
    SplitAtSlash(".", "C:" + ("/" + "x"));
  }

  lemma KeepNamed(segment: string, rest: seq<string>)
    ensures Filter(IsNamed, [segment] + rest) == (if IsNamed(segment) then [segment] else []) + Filter(IsNamed, rest)
  {
    assert ([segment] + rest)[1..] == rest;
  }

  lemma HiddenNames()
    ensures Filter(IsNamed, ["."] + (["C:"] + ["x"])) == ["C:"] + ["x"]
    ensures ".." !in ["."] + (["C:"] + ["x"])
  {
    hide Filter;
    NameTexts();
    KeepNamed(".", ["C:"] + ["x"]);
    KeepNamed("C:", ["x"]);
    KeepNamed("x", []);
    NoneNamed();
  }

  lemma NameTexts()
    ensures !IsNamed(".") && IsNamed("C:") && IsNamed("x")
    ensures ".." != "." && ".." != "C:" && ".." != "x"
  {
    assert "C:"[0] == 'C' && "x"[0] == 'x' && ".."[0] == '.' && |".."| == 2;
  }

  lemma NoneNamed()
    ensures Filter(IsNamed, []) == []
  {
  }

  /** Behind a leading dot a drive path is accepted, and its canonical form is not. */
  lemma HiddenDriveIsAccepted()
    ensures Canonical("./C:/x") == Some("C:/x") && Canonical("C:/x").None?
  {
    hide Split, Filter, Blank, SegmentsOf, Canonical;
    var path, canonical := "./C:/x", "C:/x";
    assert path == "." + ("/" + ("C:" + ("/" + "x"))) && canonical == "C:" + ("/" + "x");
    HiddenSegments();
    HiddenNames();
    PlainChars(path);
    CanonicalExactly(path, canonical);
    DriveIsRefused(canonical);
  }

  lemma DriveIsRefused(value: string)
    requires DriveStart(value)
    ensures Canonical(value).None?
  {
    assert IsLetter(value[0]);
  }
}
