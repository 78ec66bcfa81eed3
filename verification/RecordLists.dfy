/**
 * The loop that every record-list parser of the scheduler shares: extract each
 * entry, refuse an entry whose key was already seen, collect the diagnostics
 * of every entry, and accept only when none was collected.
 */
module RecordLists {
  import opened Wrappers
  import opened Text

  // The state of the loop after a prefix of the input.
  datatype Scan<C, E> = Scan(seen: set<string>, clean: seq<C>, codes: seq<E>)

  function Visit<C, E>(scan: Scan<C, E>, extracted: Result<C, seq<E>>, key: C -> string, duplicate: E): Scan<C, E> {
    match extracted
    case Err(codes) => scan.(codes := scan.codes + codes)
    case Ok(value) =>
      if key(value) in scan.seen then scan.(codes := scan.codes + [duplicate])
      else Scan(scan.seen + {key(value)}, scan.clean + [value], scan.codes)
  }

  function ScanFrom<R, C, E>(scan: Scan<C, E>, raw: seq<R>, extract: R -> Result<C, seq<E>>, key: C -> string, duplicate: E): Scan<C, E>
    decreases |raw|
  {
    if raw == [] then scan
    else ScanFrom(Visit(scan, extract(raw[0]), key, duplicate), raw[1..], extract, key, duplicate)
  }

  /** The outcome of the whole loop. */
  function ParseAll<R, C, E>(raw: seq<R>, extract: R -> Result<C, seq<E>>, key: C -> string, duplicate: E): Result<seq<C>, seq<E>> {
    var scan := ScanFrom(Scan({}, [], []), raw, extract, key, duplicate);
    if scan.codes == [] then Ok(scan.clean) else Err(scan.codes)
  }

  method ParseUnique<R, C, E(==)>(raw: seq<R>, extract: R -> Result<C, seq<E>>, key: C -> string, duplicate: E)
    returns (r: Result<seq<C>, seq<E>>)
    ensures r == ParseAll(raw, extract, key, duplicate)
  {
    var seen: set<string>, clean: seq<C>, codes: seq<E> := {}, [], [];
    for i := 0 to |raw|
      invariant ScanFrom(Scan(seen, clean, codes), raw[i..], extract, key, duplicate)
             == ScanFrom(Scan({}, [], []), raw, extract, key, duplicate)
    {
      assert raw[i..][0] == raw[i] && raw[i..][1..] == raw[i + 1..];
      match extract(raw[i]) {
        case Err(errors) =>
          codes := codes + errors;
        case Ok(value) =>
          if key(value) in seen {
            codes := codes + [duplicate];
          } else {
            seen := seen + {key(value)};
            clean := clean + [value];
          }
      }
    }
    r := if codes == [] then Ok(clean) else Err(codes);
  }

  // Every entry extracts, and no two extracted entries share a key.
  ghost predicate Acceptable<R, C, E>(raw: seq<R>, extract: R -> Result<C, seq<E>>, key: C -> string) {
    && (forall i :: 0 <= i < |raw| ==> extract(raw[i]).Ok?)
    && (forall i, j :: 0 <= i < j < |raw| ==> key(extract(raw[i]).value) != key(extract(raw[j]).value))
  }

  ghost predicate Extracts<R, C, E>(raw: seq<R>, extract: R -> Result<C, seq<E>>, clean: seq<C>) {
    |clean| == |raw| && forall i :: 0 <= i < |raw| ==> extract(raw[i]) == Ok(clean[i])
  }

  // Once a diagnostic is collected the loop cannot end without one.
  lemma {:induction false} CodesPersist<R, C, E>(scan: Scan<C, E>, raw: seq<R>, extract: R -> Result<C, seq<E>>, key: C -> string, duplicate: E)
    requires scan.codes != []
    ensures ScanFrom(scan, raw, extract, key, duplicate).codes != []
    decreases |raw|
  {
    if raw != [] {
      CodesPersist(Visit(scan, extract(raw[0]), key, duplicate), raw[1..], extract, key, duplicate);
    }
  }

  lemma {:induction false} ScanOutcome<R, C, E>(done: seq<R>, scan: Scan<C, E>, raw: seq<R>, extract: R -> Result<C, seq<E>>, key: C -> string, duplicate: E)
    requires forall x: R :: extract(x) != Err([])
    requires scan.codes == [] && Extracts(done, extract, scan.clean) && Acceptable(done, extract, key)
    requires forall k :: k in scan.seen <==> exists i :: 0 <= i < |scan.clean| && key(scan.clean[i]) == k
    ensures var out := ScanFrom(scan, raw, extract, key, duplicate);
      if Acceptable(done + raw, extract, key) then out.codes == [] && Extracts(done + raw, extract, out.clean)
      else out.codes != []
    decreases |raw|
  {
    if raw == [] {
      assert done + raw == done;
    } else {
      var next := Visit(scan, extract(raw[0]), key, duplicate);
      assert done + raw == (done + [raw[0]]) + raw[1..];
      assert (done + raw)[|done|] == raw[0];
      if next.codes != [] {
        CodesPersist(next, raw[1..], extract, key, duplicate);
        if extract(raw[0]).Ok? {
          var k := key(extract(raw[0]).value);
          var i :| 0 <= i < |scan.clean| && key(scan.clean[i]) == k;
          assert (done + raw)[i] == done[i];
        }
      } else {
        forall k ensures k in next.seen <==> exists i :: 0 <= i < |next.clean| && key(next.clean[i]) == k {
          if k in scan.seen {
            var i :| 0 <= i < |scan.clean| && key(scan.clean[i]) == k;
            assert next.clean[i] == scan.clean[i];
          }
          if exists i :: 0 <= i < |next.clean| && key(next.clean[i]) == k {
            var i :| 0 <= i < |next.clean| && key(next.clean[i]) == k;
            if i < |scan.clean| { assert key(scan.clean[i]) == k; }
          }
          assert next.clean[|scan.clean|] == extract(raw[0]).value;
        }
        forall i | 0 <= i < |done| ensures key(extract(done[i]).value) != key(extract(raw[0]).value) {
          assert key(scan.clean[i]) in scan.seen;
        }
        ScanOutcome(done + [raw[0]], next, raw[1..], extract, key, duplicate);
      }
    }
  }

  /** The parser accepts exactly the acceptable lists, and returns every extracted entry in order. */
  lemma ParseAllAccepts<R, C, E>(raw: seq<R>, extract: R -> Result<C, seq<E>>, key: C -> string, duplicate: E)
    requires forall x: R :: extract(x) != Err([])
    ensures ParseAll(raw, extract, key, duplicate).Ok? <==> Acceptable(raw, extract, key)
    ensures ParseAll(raw, extract, key, duplicate).Ok? ==>
      var clean := ParseAll(raw, extract, key, duplicate).value;
      Extracts(raw, extract, clean) && KeysDistinct(key, clean)
    ensures ParseAll(raw, extract, key, duplicate) != Err([])
  {
    ScanOutcome([], Scan({}, [], []), raw, extract, key, duplicate);
    assert [] + raw == raw;
  }

  // Entry j extracts to the key of an earlier entry that extracts.
  ghost predicate Repeats<R, C, E>(raw: seq<R>, extract: R -> Result<C, seq<E>>, key: C -> string, j: nat)
    requires j < |raw|
  {
    extract(raw[j]).Ok? && exists i :: 0 <= i < j && KeyIs(raw[i], extract, key, key(extract(raw[j]).value))
  }

  ghost predicate KeyIs<R, C, E>(entry: R, extract: R -> Result<C, seq<E>>, key: C -> string, k: string) {
    extract(entry).Ok? && key(extract(entry).value) == k
  }

  // The diagnostics of entry j alone.
  ghost function CodesAt<R, C, E>(raw: seq<R>, extract: R -> Result<C, seq<E>>, key: C -> string, duplicate: E, j: nat): seq<E>
    requires j < |raw|
  {
    match extract(raw[j])
    case Err(codes) => codes
    case Ok(_) => if Repeats(raw, extract, key, j) then [duplicate] else []
  }

  ghost function CodesFrom<R, C, E>(raw: seq<R>, extract: R -> Result<C, seq<E>>, key: C -> string, duplicate: E, j: nat): seq<E>
    requires j <= |raw|
    decreases |raw| - j
  {
    if j == |raw| then [] else CodesAt(raw, extract, key, duplicate, j) + CodesFrom(raw, extract, key, duplicate, j + 1)
  }

  lemma {:induction false} ScanCollects<R, C, E>(scan: Scan<C, E>, raw: seq<R>, extract: R -> Result<C, seq<E>>, key: C -> string, duplicate: E, j: nat)
    requires j <= |raw|
    requires forall k :: k in scan.seen <==> exists i :: 0 <= i < j && KeyIs(raw[i], extract, key, k)
    ensures ScanFrom(scan, raw[j..], extract, key, duplicate).codes == scan.codes + CodesFrom(raw, extract, key, duplicate, j)
    decreases |raw| - j
  {
    if j < |raw| {
      assert raw[j..][0] == raw[j] && raw[j..][1..] == raw[j + 1..];
      var next := Visit(scan, extract(raw[j]), key, duplicate);
      forall k ensures k in next.seen <==> exists i :: 0 <= i < j + 1 && KeyIs(raw[i], extract, key, k) {
        if k in scan.seen {
          var i :| 0 <= i < j && KeyIs(raw[i], extract, key, k);
        }
        if KeyIs(raw[j], extract, key, k) && k !in scan.seen {
          assert k in next.seen;
        }
      }
      assert next.codes == scan.codes + CodesAt(raw, extract, key, duplicate, j);
      ScanCollects(next, raw, extract, key, duplicate, j + 1);
    }
  }

  // A diagnostic of some entry from j on: one of its own, or the duplicate one where it repeats a key.
  ghost predicate DiagnosedFrom<R, C, E>(raw: seq<R>, extract: R -> Result<C, seq<E>>, key: C -> string, duplicate: E, j: nat, code: E) {
    exists i :: j <= i < |raw| && code in CodesAt(raw, extract, key, duplicate, i)
  }

  ghost predicate Diagnosed<R, C, E>(raw: seq<R>, extract: R -> Result<C, seq<E>>, key: C -> string, duplicate: E, code: E) {
    DiagnosedFrom(raw, extract, key, duplicate, 0, code)
  }

  lemma DiagnosedStep<R, C, E>(raw: seq<R>, extract: R -> Result<C, seq<E>>, key: C -> string, duplicate: E, j: nat, code: E)
    requires j < |raw|
    ensures DiagnosedFrom(raw, extract, key, duplicate, j, code)
      <==> code in CodesAt(raw, extract, key, duplicate, j) || DiagnosedFrom(raw, extract, key, duplicate, j + 1, code)
  {
    hide CodesAt;
    if DiagnosedFrom(raw, extract, key, duplicate, j + 1, code) {
      var i :| j + 1 <= i < |raw| && code in CodesAt(raw, extract, key, duplicate, i);
    }
  }

  lemma {:induction false} CodesFromMembers<R, C, E>(raw: seq<R>, extract: R -> Result<C, seq<E>>, key: C -> string, duplicate: E, j: nat, code: E)
    requires j <= |raw|
    ensures code in CodesFrom(raw, extract, key, duplicate, j) <==> DiagnosedFrom(raw, extract, key, duplicate, j, code)
    decreases |raw| - j
  {
    hide CodesAt;
    if j < |raw| {
      hide DiagnosedFrom;
      DiagnosedStep(raw, extract, key, duplicate, j, code);
      CodesFromMembers(raw, extract, key, duplicate, j + 1, code);
    }
  }

  /**
   * The loop reports exactly the diagnostics of its entries, in their order: each
   * entry's own, and the duplicate one for every repeated key.
   */
  lemma ParseAllDiagnoses<R, C, E>(raw: seq<R>, extract: R -> Result<C, seq<E>>, key: C -> string, duplicate: E)
    ensures var codes := CodesFrom(raw, extract, key, duplicate, 0);
      var parsed := ParseAll(raw, extract, key, duplicate);
      if codes == [] then parsed.Ok? else parsed == Err(codes)
    ensures forall code :: code in CodesFrom(raw, extract, key, duplicate, 0) <==> Diagnosed(raw, extract, key, duplicate, code)
  {
    hide CodesAt, CodesFrom;
    assert raw[0..] == raw;
    ScanCollects(Scan({}, [], []), raw, extract, key, duplicate, 0);
    assert [] + CodesFrom(raw, extract, key, duplicate, 0) == CodesFrom(raw, extract, key, duplicate, 0);
    forall code ensures code in CodesFrom(raw, extract, key, duplicate, 0) <==> Diagnosed(raw, extract, key, duplicate, code) {
      CodesFromMembers(raw, extract, key, duplicate, 0, code);
    }
  }

  // An entry that extracts keeps its id as its key; one that does not has this diagnostic exactly where it has the fault.
  ghost predicate FaultAt<R, C, E>(entry: R, extract: R -> Result<C, seq<E>>, key: C -> string, code: E, fault: R -> bool, idOf: R -> string) {
    match extract(entry)
    case Ok(value) => key(value) == idOf(entry) && !fault(entry)
    case Err(codes) => code in codes <==> fault(entry)
  }

  // Both entries extract, to one key.
  ghost predicate SameKey<R, C, E>(a: R, b: R, extract: R -> Result<C, seq<E>>, idOf: R -> string) {
    extract(a).Ok? && extract(b).Ok? && idOf(a) == idOf(b)
  }

  // A diagnostic is reported exactly where some entry has its fault, or, for the duplicate one, where two entries share a key.
  lemma DiagnosedExactly<R, C, E>(raw: seq<R>, extract: R -> Result<C, seq<E>>, key: C -> string, duplicate: E, code: E, fault: R -> bool, idOf: R -> string)
    requires forall i :: 0 <= i < |raw| ==> FaultAt(raw[i], extract, key, code, fault, idOf)
    ensures Diagnosed(raw, extract, key, duplicate, code) <==>
      || (exists i :: 0 <= i < |raw| && fault(raw[i]))
      || (code == duplicate && exists i, j :: 0 <= i < j < |raw| && SameKey(raw[i], raw[j], extract, idOf))
  {
    if i :| 0 <= i < |raw| && fault(raw[i]) {
      assert FaultAt(raw[i], extract, key, code, fault, idOf);
      assert code in CodesAt(raw, extract, key, duplicate, i);
    }
    if i, j :| 0 <= i < j < |raw| && SameKey(raw[i], raw[j], extract, idOf) {
      assert FaultAt(raw[i], extract, key, code, fault, idOf) && FaultAt(raw[j], extract, key, code, fault, idOf);
      assert KeyIs(raw[i], extract, key, idOf(raw[j]));
      assert Repeats(raw, extract, key, j);
      if code == duplicate { assert code in CodesAt(raw, extract, key, duplicate, j); }
    }
    if Diagnosed(raw, extract, key, duplicate, code) {
      var j :| 0 <= j < |raw| && code in CodesAt(raw, extract, key, duplicate, j);
      assert FaultAt(raw[j], extract, key, code, fault, idOf);
      if extract(raw[j]).Ok? {
        var i :| 0 <= i < j && KeyIs(raw[i], extract, key, idOf(raw[j]));
        assert FaultAt(raw[i], extract, key, code, fault, idOf);
        assert SameKey(raw[i], raw[j], extract, idOf);
      }
    }
  }

  // Entries that already are in extracted form pass through unchanged.
  lemma ParseAllIdentity<C(!new), E>(clean: seq<C>, extract: C -> Result<C, seq<E>>, key: C -> string, duplicate: E)
    requires forall x: C :: extract(x) != Err([])
    requires forall x :: x in clean ==> extract(x) == Ok(x)
    requires KeysDistinct(key, clean)
    ensures ParseAll(clean, extract, key, duplicate) == Ok(clean)
  {
    assert Acceptable(clean, extract, key);
    ParseAllAccepts(clean, extract, key, duplicate);
    assert ParseAll(clean, extract, key, duplicate).value == clean;
  }
}
