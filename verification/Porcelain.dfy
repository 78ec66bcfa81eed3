/**
 * The parser of `git status --porcelain -z`: NUL-terminated fields, where a
 * rename or copy entry is followed by one field holding the original path.
 */
module Porcelain {
  import opened Text

  // ---------------------------------------------------------------------
  // Fields
  // ---------------------------------------------------------------------

  function FieldLength(text: string): (n: nat)
    ensures n <= |text|
    ensures n < |text| ==> text[n] == '\0'
    ensures forall i :: 0 <= i < n ==> text[i] != '\0'
  {
    if text == "" || text[0] == '\0' then 0 else 1 + FieldLength(text[1..])
  }

  /** The non-empty NUL-separated fields. */
  function Entries(text: string): seq<string>
    decreases |text|
  {
    if text == "" then []
    else
      var n := FieldLength(text);
      var rest := if n < |text| then Entries(text[n + 1..]) else [];
      if n == 0 then rest else [text[..n]] + rest
  }

  predicate IsRenameOrCopy(code: string) {
    'R' in code || 'C' in code
  }

  // The paths pushed for a list of fields, in order.
  function Scan(entries: seq<string>): seq<string>
    decreases |entries|
  {
    if entries == [] then []
    else
      var entry := entries[0];
      if |entry| < 3 then Scan(entries[1..])
      else if !IsRenameOrCopy(entry[..2]) then [Slashed(entry[3..])] + Scan(entries[1..])
      else if |entries| == 1 then [Slashed(entry[3..])]
      else [Slashed(entry[3..]), Slashed(entries[1])] + Scan(entries[2..])
  }

  function NonEmpty(paths: seq<string>): seq<string> {
    if paths == [] then []
    else if paths[0] == "" then NonEmpty(paths[1..])
    else [paths[0]] + NonEmpty(paths[1..])
  }

  function Parsed(output: string): seq<string> {
    SortedUnique(NonEmpty(Scan(Entries(output))))
  }

  method ParsePorcelainZ(output: string) returns (r: seq<string>)
    ensures r == Parsed(output)
  {
    var entries := Entries(output);
    var paths: seq<string> := [];
    var index := 0;
    while index < |entries|
      invariant 0 <= index <= |entries|
      invariant paths + Scan(entries[index..]) == Scan(entries)
    {
      var entry := entries[index];
      assert entries[index..][0] == entry && entries[index..][1..] == entries[index + 1..];
      if |entry| >= 3 {
        var pathPart := Slashed(entry[3..]);
        paths := paths + [pathPart];
        if IsRenameOrCopy(entry[..2]) && index + 1 < |entries| {
          assert entries[index..][1] == entries[index + 1] && entries[index..][2..] == entries[index + 2..];
          paths := paths + [Slashed(entries[index + 1])];
          index := index + 1;
        }
      }
      index := index + 1;
    }
    assert entries[index..] == [] && paths == Scan(entries);
    r := SortedUnique(NonEmpty(paths));
  }

  // ---------------------------------------------------------------------
  // The layout git prints
  // ---------------------------------------------------------------------

  // A status entry, an entry followed by its original path, or a field too short for an entry.
  datatype Record = Plain(code: string, path: string) | Moved(code: string, path: string, original: string) | Noise(text: string)

  // One of the two status letters is R or C.
  predicate MarksMove(code: string)
    requires |code| == 2
  {
    code[0] == 'R' || code[1] == 'R' || code[0] == 'C' || code[1] == 'C'
  }

  predicate IsField(text: string) {
    text != "" && '\0' !in text
  }

  predicate ValidRecord(record: Record) {
    match record
    case Plain(code, path) => |code| == 2 && '\0' !in code && '\0' !in path && !MarksMove(code)
    case Moved(code, path, original) => |code| == 2 && '\0' !in code && '\0' !in path && MarksMove(code) && IsField(original)
    case Noise(text) => IsField(text) && |text| < 3
  }

  predicate ValidRecords(records: seq<Record>) {
    forall i :: 0 <= i < |records| ==> ValidRecord(records[i])
  }

  function Lines(record: Record): seq<string> {
    match record
    case Plain(code, path) => [code + " " + path]
    case Moved(code, path, original) => [code + " " + path, original]
    case Noise(text) => [text]
  }

  function AllLines(records: seq<Record>): seq<string> {
    if records == [] then [] else Lines(records[0]) + AllLines(records[1..])
  }

  function Terminated(lines: seq<string>): string {
    if lines == [] then "" else lines[0] + ("\0" + Terminated(lines[1..]))
  }

  function Render(records: seq<Record>): string {
    Terminated(AllLines(records))
  }

  // The paths of one record that have a name.
  ghost function PathsIn(record: Record): set<string> {
    match record
    case Plain(_, path) => {path} - {""}
    case Moved(_, path, original) => {path, original} - {""}
    case Noise(_) => {}
  }

  // Every path a list of records names.
  ghost function PathsOf(records: seq<Record>): set<string> {
    set i, p | 0 <= i < |records| && p in PathsIn(records[i]) :: p
  }

  ghost function SlashedPaths(paths: set<string>): set<string> {
    set p | p in paths :: Slashed(p)
  }

  lemma {:induction false} FieldEnds(field: string, rest: string)
    requires '\0' !in field
    ensures FieldLength(field + ("\0" + rest)) == |field|
  {
    var text := field + ("\0" + rest);
    if field == "" {
      assert text[0] == '\0';
    } else {
      assert text[0] == field[0] && text[1..] == field[1..] + ("\0" + rest);
      FieldEnds(field[1..], rest);
    }
  }

  lemma {:induction false} LastField(field: string)
    requires '\0' !in field
    ensures FieldLength(field) == |field|
  {
    if field != "" { LastField(field[1..]); }
  }

  lemma FieldSplits(field: string, rest: string)
    requires IsField(field)
    ensures Entries(field + ("\0" + rest)) == [field] + Entries(rest)
  {
    var text := field + ("\0" + rest);
    FieldEnds(field, rest);
    assert text[..|field|] == field && text[|field| + 1..] == rest;
  }

  lemma LastSplits(last: string)
    requires '\0' !in last
    ensures Entries(last) == if last == "" then [] else [last]
  {
    LastField(last);
    assert last[..|last|] == last;
  }

  // Terminated fields, and a last one that may lack its terminator.
  lemma {:induction false} TerminatedSplits(lines: seq<string>, last: string)
    requires (forall i :: 0 <= i < |lines| ==> IsField(lines[i])) && '\0' !in last
    ensures Entries(Terminated(lines) + last) == lines + (if last == "" then [] else [last])
  {
    hide Entries, IsField;
    if lines == [] {
      LastSplits(last);
      assert Terminated(lines) + last == last;
    } else {
      var rest := Terminated(lines[1..]) + last;
      assert Terminated(lines) + last == lines[0] + ("\0" + rest);
      FieldSplits(lines[0], rest);
      TerminatedSplits(lines[1..], last);
    }
  }

  lemma {:induction false} LinesAreFields(records: seq<Record>)
    requires ValidRecords(records)
    ensures forall i :: 0 <= i < |AllLines(records)| ==> IsField(AllLines(records)[i])
  {
    if records != [] {
      LinesAreFields(records[1..]);
      assert ValidRecord(records[0]);
    }
  }

  ghost function Pushed(record: Record): seq<string> {
    match record
    case Plain(_, path) => [Slashed(path)]
    case Moved(_, path, original) => [Slashed(path), Slashed(original)]
    case Noise(_) => []
  }

  ghost function AllPushed(records: seq<Record>): seq<string> {
    if records == [] then [] else Pushed(records[0]) + AllPushed(records[1..])
  }

  lemma MarksExactly(code: string)
    requires |code| == 2
    ensures IsRenameOrCopy(code) <==> MarksMove(code)
  {
  }

  lemma RecordScans(record: Record, rest: seq<string>)
    requires ValidRecord(record)
    ensures Scan(Lines(record) + rest) == Pushed(record) + Scan(rest)
  {
    hide Slashed, IsRenameOrCopy;
    var lines := Lines(record) + rest;
    match record {
      case Plain(code, path) =>
        MarksExactly(code);
        var entry := code + " " + path;
        assert lines[0] == entry && entry[..2] == code && entry[3..] == path && lines[1..] == rest;
      case Moved(code, path, original) =>
        MarksExactly(code);
        var entry := code + " " + path;
        assert lines[0] == entry && entry[..2] == code && entry[3..] == path;
        assert lines[1] == original && lines[2..] == rest;
      case Noise(text) =>
        assert lines[0] == text && lines[1..] == rest;
    }
  }

  lemma {:induction false} RecordsScan(records: seq<Record>, rest: seq<string>)
    requires ValidRecords(records)
    ensures Scan(AllLines(records) + rest) == AllPushed(records) + Scan(rest)
  {
    hide Slashed, Scan;
    if records == [] {
      assert AllLines(records) + rest == rest;
    } else {
      assert ValidRecord(records[0]);
      assert AllLines(records) + rest == Lines(records[0]) + (AllLines(records[1..]) + rest);
      RecordScans(records[0], AllLines(records[1..]) + rest);
      RecordsScan(records[1..], rest);
    }
  }

  lemma SlashedName(path: string)
    ensures Slashed(path) == "" <==> path == ""
  {
  }

  lemma PushedPaths(record: Record)
    requires ValidRecord(record)
    ensures Elems(NonEmpty(Pushed(record))) == SlashedPaths(PathsIn(record))
  {
    hide Slashed;
    match record {
      case Plain(_, path) =>
        SlashedName(path);
        KeepNonEmpty(Slashed(path), []);
      case Moved(_, path, original) =>
        SlashedName(path);
        SlashedName(original);
        KeepNonEmpty(Slashed(path), [Slashed(original)]);
        KeepNonEmpty(Slashed(original), []);
      case Noise(_) =>
    }
  }

  lemma KeepNonEmpty(path: string, rest: seq<string>)
    ensures NonEmpty([path] + rest) == (if path == "" then [] else [path]) + NonEmpty(rest)
    ensures NonEmpty([]) == []
  {
    assert ([path] + rest)[1..] == rest;
  }

  lemma {:induction false} PathsPushed(records: seq<Record>)
    requires ValidRecords(records)
    ensures Elems(NonEmpty(AllPushed(records))) == SlashedPaths(PathsOf(records))
  {
    hide Slashed, Pushed, PathsIn;
    if records == [] {
      assert PathsOf(records) == {};
    } else {
      var record, rest := records[0], records[1..];
      assert ValidRecord(record);
      PathsPushed(rest);
      PushedPaths(record);
      NonEmptyConcat(Pushed(record), AllPushed(rest));
      ElemsConcat(NonEmpty(Pushed(record)), NonEmpty(AllPushed(rest)));
      PathsSplit(records);
      SlashedUnion(PathsIn(record), PathsOf(rest));
    }
  }

  lemma SlashedUnion(a: set<string>, b: set<string>)
    ensures SlashedPaths(a + b) == SlashedPaths(a) + SlashedPaths(b)
  {
    hide Slashed;
  }

  lemma PathsSplit(records: seq<Record>)
    requires records != []
    ensures PathsOf(records) == PathsIn(records[0]) + PathsOf(records[1..])
  {
    hide PathsIn;
    var rest := records[1..];
    forall p ensures p in PathsOf(records) <==> p in PathsIn(records[0]) + PathsOf(rest) {
      if i :| 0 <= i < |rest| && p in PathsIn(rest[i]) {
        assert records[i + 1] == rest[i];
      }
      if i :| 0 <= i < |records| && p in PathsIn(records[i]) {
        assert i > 0 ==> rest[i - 1] == records[i];
      }
    }
  }

  lemma {:induction false} NonEmptyConcat(a: seq<string>, b: seq<string>)
    ensures NonEmpty(a + b) == NonEmpty(a) + NonEmpty(b)
  {
    if a == [] {
      assert a + b == b;
    } else {
      assert (a + b)[1..] == a[1..] + b && (a + b)[0] == a[0];
      NonEmptyConcat(a[1..], b);
    }
  }

  /**
   * Whatever the records, and whatever an original path looks like, parsing what
   * git prints yields every new and original path, once each and in order.
   */
  lemma PorcelainRoundTrip(records: seq<Record>)
    requires ValidRecords(records)
    ensures StrictlySorted(Parsed(Render(records)))
    ensures Elems(Parsed(Render(records))) == SlashedPaths(PathsOf(records))
    ensures (forall p :: p in PathsOf(records) ==> '\\' !in p) ==> Elems(Parsed(Render(records))) == PathsOf(records)
  {
    hide Scan, Entries;
    LinesAreFields(records);
    TerminatedSplits(AllLines(records), "");
    assert Render(records) + "" == Render(records) && AllLines(records) + [] == AllLines(records);
    RecordsScan(records, []);
    NothingScans();
    assert AllPushed(records) + [] == AllPushed(records);
    PathsPushed(records);
    if forall p :: p in PathsOf(records) ==> '\\' !in p {
      assert forall p :: p in PathsOf(records) ==> Slashed(p) == p;
      assert SlashedPaths(PathsOf(records)) == PathsOf(records);
    }
  }

  lemma NothingScans()
    ensures Scan([]) == []
  {
  }

  /** Output that is cut off in its last entry, before the original path of a move or its terminator, still yields that entry's path. */
  lemma CutOffOutput(records: seq<Record>, code: string, path: string)
    requires ValidRecords(records) && |code| == 2 && '\0' !in code && IsField(path)
    ensures Elems(Parsed(Render(records) + (code + " " + path))) == SlashedPaths(PathsOf(records) + {path})
  {
    hide Entries, Slashed;
    var last := code + " " + path;
    LinesAreFields(records);
    TerminatedSplits(AllLines(records), last);
    RecordsScan(records, [last]);
    assert last[..2] == code && last[3..] == path;
    LastScans(last);
    NonEmptyConcat(AllPushed(records), [Slashed(path)]);
    SlashedName(path);
    KeepNonEmpty(Slashed(path), []);
    assert [Slashed(path)] + [] == [Slashed(path)];
    ElemsConcat(NonEmpty(AllPushed(records)), [Slashed(path)]);
    PathsPushed(records);
    SlashedUnion(PathsOf(records), {path});
  }

  lemma LastScans(entry: string)
    requires |entry| >= 3
    ensures Scan([entry]) == [Slashed(entry[3..])]
  {
    NothingScans();
    assert [entry][1..] == [];
  }
}
