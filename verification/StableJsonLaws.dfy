/** The canonical text determines the value: reading inverts printing. */
module StableJsonLaws {
  import opened Wrappers
  import opened Text
  import opened StableJson

  ghost predicate NumberText(s: string) {
    s != "" && (s[0] == '-' || '0' <= s[0] <= '9') && forall i :: 0 <= i < |s| ==> IsNumberChar(s[i])
  }

  // A number printer whose text is a number token that reads back as the same number.
  ghost predicate ReadsBack<N(!new)>(show: N -> string, read: string -> N) {
    forall n :: NumberText(show(n)) && read(show(n)) == n
  }

  // What may follow a value: the end, a separator, or a closing bracket.
  ghost predicate Ends(rest: string) {
    rest == "" || rest[0] in ",]}"
  }

  // ---------------------------------------------------------------------
  // Strings
  // ---------------------------------------------------------------------

  lemma HexDigitReads(d: nat)
    requires d < 16
    ensures HexValue(HexDigit(d)) == Some(d)
  {
    var digits := "0123456789abcdef";
    assert digits[..10] == "0123456789" && digits[10..] == "abcdef";
    if d < 10 {
      assert HexDigit(d) == "0123456789"[d] == ('0' as nat + d) as char;
    } else {
      assert HexDigit(d) == "abcdef"[d - 10] == ('a' as nat + d - 10) as char;
    }
  }

  lemma HexQuadReads(n: nat)
    requires n < 0x20
    ensures HexQuad([HexDigit(0), HexDigit(0), HexDigit(n / 16), HexDigit(n % 16)]) == Some(n as char)
  {
    hide HexDigit, HexValue;
    HexDigitReads(0);
    HexDigitReads(n / 16);
    HexDigitReads(n % 16);
    assert n == n / 16 * 16 + n % 16;
  }

  lemma EscapeReads(c: char, rest: string)
    ensures ReadChar(Escape(c) + rest) == Some((c, |Escape(c)|))
    ensures Escape(c)[0] != '\"'
  {
    hide HexQuad, HexDigit;
    var text := Escape(c) + rest;
    if |Escape(c)| == 6 {
      HexQuadReads(c as nat);
      assert text[2..6] == Escape(c)[2..6] == [HexDigit(0), HexDigit(0), HexDigit(c as nat / 16), HexDigit(c as nat % 16)] by { HexZero(); }
    }
  }

  predicate NoCapitals(text: string) {
    forall i :: 2 <= i < |text| ==> !('A' <= text[i] <= 'F')
  }

  /** An escape is the shortest text that reads as its character, and the only one of its length with small hex digits. */
  lemma EscapeIsShortest(c: char, text: string)
    requires ReadChar(text) == Some((c, |text|))
    ensures |Escape(c)| <= |text|
    ensures |text| == |Escape(c)| && NoCapitals(text) ==> text == Escape(c)
  {
    hide HexQuad, HexDigit;
    if |text| == 6 && |Escape(c)| == 6 && NoCapitals(text) {
      QuadIsUnique(c, text[2..6]);
      assert text == "\\u" + text[2..6];
    }
  }

  lemma QuadIsUnique(c: char, quad: string)
    requires |quad| == 4 && HexQuad(quad) == Some(c) && c < '\U{0020}'
    requires forall i :: 0 <= i < 4 ==> !('A' <= quad[i] <= 'F')
    ensures quad == "00" + [HexDigit(c as nat / 16), HexDigit(c as nat % 16)]
  {
    hide HexValue, HexDigit;
    forall i | 0 <= i < 4 ensures HexValue(quad[i]).Some? && HexValue(quad[i]).value < 16 && quad[i] == HexDigit(HexValue(quad[i]).value) {
      HexValueWrites(quad[i]);
    }
    HexZero();
  }

  lemma HexValueWrites(c: char)
    requires HexValue(c).Some? && !('A' <= c <= 'F')
    ensures HexValue(c).value < 16 && HexDigit(HexValue(c).value) == c
  {
    var digits := "0123456789abcdef";
    assert digits[..10] == "0123456789" && digits[10..] == "abcdef";
    assert forall i :: 0 <= i < 10 ==> digits[i] == ('0' as nat + i) as char;
    assert forall i :: 0 <= i < 6 ==> digits[10..][i] == ('a' as nat + i) as char;
  }

  lemma HexZero()
    ensures HexDigit(0) == '0'
  {
  }

  lemma {:induction false} StringReads(s: string, rest: string)
    ensures ReadChars(EscapeAll(s) + ("\"" + rest)) == Some((s, rest))
  {
    hide Escape, ReadChar;
    var tail := "\"" + rest;
    if s == "" {
      assert EscapeAll(s) + tail == tail;
      assert tail[1..] == rest;
    } else {
      var e := Escape(s[0]);
      var after := EscapeAll(s[1..]) + tail;
      assert EscapeAll(s) + tail == e + after;
      EscapeReads(s[0], after);
      assert (e + after)[0] == e[0];
      assert (e + after)[|e|..] == after;
      StringReads(s[1..], rest);
      assert [s[0]] + s[1..] == s;
    }
  }

  lemma QuoteReads(s: string, rest: string)
    ensures Quote(s) + rest != "" && (Quote(s) + rest)[0] == '\"'
    ensures ReadChars((Quote(s) + rest)[1..]) == Some((s, rest))
  {
    assert (Quote(s) + rest)[1..] == EscapeAll(s) + ("\"" + rest);
    StringReads(s, rest);
  }

  // ---------------------------------------------------------------------
  // Numbers
  // ---------------------------------------------------------------------

  lemma {:induction false} NumberRunReads(s: string, rest: string)
    requires Ends(rest) && forall i :: 0 <= i < |s| ==> IsNumberChar(s[i])
    ensures NumberRun(s + rest) == s
  {
    if s == "" {
      assert s + rest == rest;
    } else {
      assert (s + rest)[1..] == s[1..] + rest;
      NumberRunReads(s[1..], rest);
    }
  }

  lemma NumberReads<N(!new)>(n: N, rest: string, show: N -> string, read: string -> N)
    requires ReadsBack(show, read) && Ends(rest)
    ensures Read(show(n) + rest, read) == Some((VNum(n), rest))
  {
    var s := show(n);
    assert NumberText(s) && read(s) == n;
    NumberRunReads(s, rest);
    assert (s + rest)[0] == s[0];
    assert (s + rest)[|s|..] == rest;
  }

  // ---------------------------------------------------------------------
  // What the text keeps of a value
  // ---------------------------------------------------------------------

  ghost function Written<N>(j: Json<N>): Value<N> {
    Squash(Denote(j))
  }

  ghost function Values<N>(items: seq<Json<N>>): seq<Value<N>> {
    seq(|items|, i requires 0 <= i < |items| => Written(items[i]))
  }

  ghost function FieldAt<N>(fields: seq<Field<N>>, key: string): Json<N>
    requires key in KeysOf(fields)
  {
    fields[IndexOf(fields, key)].value
  }

  ghost function Members<N>(keys: seq<string>, fields: seq<Field<N>>): map<string, Value<N>>
    requires forall k :: k in keys ==> k in KeysOf(fields)
  {
    map k | k in keys :: Written(FieldAt(fields, k))
  }

  lemma OnlyUndefinedIsAbsent<N>(j: Json<N>)
    ensures Written(j) == Absent <==> j.Undefined?
  {
  }

  lemma ArrayWritten<N>(items: seq<Json<N>>)
    ensures Written(Arr(items)) == VArr(if items == [Undefined] then [] else Values(items))
  {
    var denoted := Denote(Arr(items)).items;
    assert |denoted| == |items| && forall i :: 0 <= i < |items| ==> denoted[i] == Denote(items[i]);
    assert denoted == [Absent] <==> items == [Undefined] by {
      if |items| == 1 {
        assert denoted == [Denote(items[0])] && items == [items[0]];
      }
    }
  }

  lemma ObjectWritten<N>(fields: seq<Field<N>>)
    ensures Written(Obj(fields)) == VObj(Members(PrintedKeys(fields), fields))
  {
    hide PrintedKeys, KeysOf, IndexOf;
    var keys := PrintedKeys(fields);
    var denoted := Denote(Obj(fields)).fields;
    assert forall k :: k in denoted <==> k in keys;
    assert Written(Obj(fields)).fields == Members(keys, fields);
  }

  // The text keeps the whole value exactly where no array consists of one absent element.
  lemma {:induction false} SquashFixes<N>(v: Value<N>)
    ensures Squash(v) == v <==> Faithful(v)
    decreases v
  {
    match v {
      case VArr(items) =>
        forall i | 0 <= i < |items| ensures Squash(items[i]) == items[i] <==> Faithful(items[i]) {
          SquashFixes(items[i]);
        }
        if items != [Absent] {
          var squashed := Squash(v).items;
          assert squashed == items <==> forall i :: 0 <= i < |items| ==> squashed[i] == items[i];
        }
      case VObj(fields) =>
        forall k | k in fields ensures Squash(fields[k]) == fields[k] <==> Faithful(fields[k]) {
          SquashFixes(fields[k]);
        }
        var squashed := Squash(v).fields;
        assert squashed == fields <==> forall k :: k in fields ==> squashed[k] == fields[k];
      case _ =>
    }
  }

  // ---------------------------------------------------------------------
  // Reading inverts printing
  // ---------------------------------------------------------------------

  // A defined value never prints an empty text nor one that starts like a separator or a closing bracket.
  lemma PrintStarts<N(!new)>(j: Json<N>, show: N -> string, read: string -> N)
    requires ReadsBack(show, read) && !j.Undefined?
    ensures Print(j, show) != "" && Print(j, show)[0] !in ",]}"
  {
    if j.Num? {
      assert NumberText(show(j.n));
    }
  }

  lemma WordReads<N>(word: string, value: Value<N>, rest: string)
    requires word != ""
    ensures ReadWord(word + rest, word, value) == Some((value, rest))
  {
    assert word <= word + rest;
    assert (word + rest)[|word|..] == rest;
  }

  /** Whatever may follow it, the printed text of a defined value reads as what is written of that value. */
  lemma {:induction false} PrintReads<N(!new)>(j: Json<N>, rest: string, show: N -> string, read: string -> N)
    requires ReadsBack(show, read) && Ends(rest) && !j.Undefined?
    ensures Read(Print(j, show) + rest, read) == Some((Squash(Denote(j)), rest))
    decreases j, 1
  {
    hide Quote, PrintedKeys;
    match j {
      case Null => WordReads<N>("null", VNull, rest);
      case Bool(b) => WordReads<N>(if b then "true" else "false", VBool(b), rest);
      case Num(n) => NumberReads(n, rest, show, read);
      case Str(s) => QuoteReads(s, rest);
      case Arr(items) => ArrayReads(j, rest, show, read);
      case Obj(fields) => ObjectReads(j, rest, show, read);
    }
  }

  lemma {:induction false} ArrayReads<N(!new)>(j: Json<N>, rest: string, show: N -> string, read: string -> N)
    requires j.Arr? && ReadsBack(show, read) && Ends(rest)
    ensures Read(Print(j, show) + rest, read) == Some((Written(j), rest))
    decreases j, 0
  {
    hide Denote, Squash, Values, Written, ReadsBack, ReadItems;
    var items := j.items;
    var text := Print(j, show) + rest;
    var tail := "]" + rest;
    assert text[1..] == PrintItems(items, show) + tail;
    ArrayWritten(items);
    if items == [] || items == [Undefined] {
      assert PrintItems(items, show) == "";
      assert items == [] ==> Values(items) == [] by { NoValues<N>(); }
      assert text == "[]" + rest;
      assert text[2..] == rest;
    } else {
      ItemsRead(items, rest, show, read);
      ItemsStart(items, show, read);
      assert text[1] == text[1..][0];
    }
  }

  lemma NoValues<N>()
    ensures Values<N>([]) == []
  {
  }

  // Unless it is the one undefined element, a printed item list does not start with the closing bracket.
  lemma ItemsStart<N(!new)>(items: seq<Json<N>>, show: N -> string, read: string -> N)
    requires ReadsBack(show, read) && items != [] && items != [Undefined]
    ensures PrintItems(items, show) != "" && PrintItems(items, show)[0] != ']'
  {
    if !items[0].Undefined? {
      PrintStarts(items[0], show, read);
    }
  }

  lemma {:induction false} ItemReads<N(!new)>(j: Json<N>, rest: string, show: N -> string, read: string -> N)
    requires ReadsBack(show, read) && rest != "" && rest[0] in ",]"
    ensures ReadItem(Print(j, show) + rest, read) == Some((Written(j), rest))
    decreases j, 2
  {
    if j.Undefined? {
      assert Print(j, show) + rest == rest;
    } else {
      PrintStarts(j, show, read);
      PrintReads(j, rest, show, read);
    }
  }

  lemma {:induction false} ItemsRead<N(!new)>(items: seq<Json<N>>, rest: string, show: N -> string, read: string -> N)
    requires ReadsBack(show, read) && items != []
    ensures ReadItems(PrintItems(items, show) + ("]" + rest), read) == Some((Values(items), rest))
    decreases items, 0
  {
    hide Print, Written, Read, ReadItem, ReadsBack;
    var tail := "]" + rest;
    var first := Print(items[0], show);
    if |items| == 1 {
      ItemReads(items[0], tail, show, read);
      assert tail[1..] == rest;
      assert Values(items) == [Written(items[0])];
    } else {
      var more := PrintItems(items[1..], show) + tail;
      assert PrintItems(items, show) + tail == first + ("," + more);
      assert ("," + more)[1..] == more;
      ItemReads(items[0], "," + more, show, read);
      ItemsRead(items[1..], rest, show, read);
      assert Values(items) == [Written(items[0])] + Values(items[1..]);
    }
  }

  lemma {:induction false} ObjectReads<N(!new)>(j: Json<N>, rest: string, show: N -> string, read: string -> N)
    requires j.Obj? && ReadsBack(show, read) && Ends(rest)
    ensures Read(Print(j, show) + rest, read) == Some((Written(j), rest))
    decreases j, 0
  {
    hide PrintedKeys, Quote, KeysOf, IndexOf, PrintMembers, Written;
    var keys := PrintedKeys(j.fields);
    var text := Print(j, show) + rest;
    var tail := "}" + rest;
    assert text[1..] == PrintMembers(keys, j.fields, show) + tail;
    ObjectWritten(j.fields);
    if keys == [] {
      assert PrintMembers(keys, j.fields, show) == "" by { NoMembers(j.fields, show); }
      assert text == "{}" + rest;
      assert text[2..] == rest;
    } else {
      MembersRead(keys, j.fields, rest, show, read);
      MembersStart(keys, j.fields, show);
      assert text[1] == text[1..][0];
    }
  }

  lemma NoMembers<N>(fields: seq<Field<N>>, show: N -> string)
    ensures PrintMembers([], fields, show) == ""
  {
  }

  lemma MembersStart<N>(keys: seq<string>, fields: seq<Field<N>>, show: N -> string)
    requires keys != [] && forall k :: k in keys ==> k in KeysOf(fields)
    ensures PrintMembers(keys, fields, show) != "" && PrintMembers(keys, fields, show)[0] == '\"'
  {
  }

  lemma {:induction false} MemberReads<N(!new)>(key: string, fields: seq<Field<N>>, rest: string, show: N -> string, read: string -> N)
    requires key in KeysOf(fields) && !FieldAt(fields, key).Undefined? && ReadsBack(show, read) && Ends(rest)
    ensures ReadMember(PrintMember(key, fields, show) + rest, read) == Some(((key, Written(FieldAt(fields, key))), rest))
    decreases fields, 0, 0
  {
    hide Quote, Print, Denote, Squash, Read;
    var value := Print(FieldAt(fields, key), show) + rest;
    var text := PrintMember(key, fields, show) + rest;
    assert text == Quote(key) + (":" + value);
    QuoteReads(key, ":" + value);
    assert (":" + value)[1..] == value;
    PrintReads(FieldAt(fields, key), rest, show, read);
  }

  lemma {:induction false} MembersRead<N(!new)>(keys: seq<string>, fields: seq<Field<N>>, rest: string, show: N -> string, read: string -> N)
    requires ReadsBack(show, read) && keys != []
    requires forall k :: k in keys ==> k in KeysOf(fields) && !FieldAt(fields, k).Undefined?
    ensures ReadMembers(PrintMembers(keys, fields, show) + ("}" + rest), read) == Some((Members(keys, fields), rest))
    decreases fields, 0, |keys| + 1
  {
    hide Print, PrintMember, Written, ReadMember, Read, Members, FieldAt, KeysOf, IndexOf;
    var tail := "}" + rest;
    var first := PrintMember(keys[0], fields, show);
    MembersSplit(keys, fields);
    if |keys| == 1 {
      MemberReads(keys[0], fields, tail, show, read);
      assert tail[1..] == rest;
    } else {
      var more := PrintMembers(keys[1..], fields, show) + tail;
      assert PrintMembers(keys, fields, show) + tail == first + ("," + more);
      assert ("," + more)[1..] == more;
      MemberReads(keys[0], fields, "," + more, show, read);
      MembersRead(keys[1..], fields, rest, show, read);
    }
  }

  lemma MembersSplit<N>(keys: seq<string>, fields: seq<Field<N>>)
    requires keys != [] && forall k :: k in keys ==> k in KeysOf(fields)
    ensures |keys| == 1 ==> Members(keys, fields) == map[keys[0] := Written(FieldAt(fields, keys[0]))]
    ensures Members(keys, fields) == map[keys[0] := Written(FieldAt(fields, keys[0]))] + Members(keys[1..], fields)
  {
    hide Written, FieldAt, KeysOf;
    assert forall k :: k in keys <==> k == keys[0] || k in keys[1..];
  }

  lemma TextReads<N(!new)>(j: Json<N>, show: N -> string, read: string -> N)
    requires ReadsBack(show, read) && !j.Undefined?
    ensures Read(StableStringify(j, show).value, read) == Some((Squash(Denote(j)), ""))
  {
    hide Read, Denote, Squash;
    PrintReads(j, "", show, read);
    assert Print(j, show) + "" == Print(j, show);
  }

  /**
   * The value is recovered from its canonical text exactly when no array in it
   * consists of one undefined element.
   */
  lemma TextRecoversValue<N(!new)>(j: Json<N>, show: N -> string, read: string -> N)
    requires ReadsBack(show, read) && !j.Undefined?
    ensures Read(StableStringify(j, show).value, read) == Some((Denote(j), "")) <==> Faithful(Denote(j))
  {
    hide Read, Denote, Squash;
    TextReads(j, show, read);
    SquashFixes(Denote(j));
  }

  /** The one undefined element prints like no element at all. */
  lemma UndefinedElementCollides<N>(show: N -> string)
    ensures StableStringify(Arr([Undefined]), show) == StableStringify(Arr([]), show) == Some("[]")
    ensures Denote<N>(Arr([Undefined])) != Denote<N>(Arr([]))
  {
    var one: seq<Json<N>> := [Undefined];
    assert PrintItems(one, show) == Print(one[0], show) == "";
    assert Print(Arr(one), show) == "[]" == Print(Arr([]), show);
    assert |Denote<N>(Arr(one)).items| == 1 && |Denote<N>(Arr([])).items| == 0;
  }

  // ---------------------------------------------------------------------
  // The text depends on the value only
  // ---------------------------------------------------------------------

  lemma {:induction false} DefinedOfSorted<N>(keys: seq<string>, fields: seq<Field<N>>)
    requires StrictlySorted(keys) && forall k :: k in keys ==> k in KeysOf(fields)
    ensures StrictlySorted(DefinedOf(keys, fields))
  {
    if keys != [] {
      DefinedOfSorted(keys[1..], fields);
      var rest := DefinedOf(keys[1..], fields);
      forall j | 0 <= j < |rest| ensures Less(keys[0], rest[j]) {
        assert rest[j] in keys[1..];
      }
    }
  }

  lemma PrintedKeysAreTheFields<N>(j: Json<N>)
    requires j.Obj?
    ensures StrictlySorted(PrintedKeys(j.fields)) && Elems(PrintedKeys(j.fields)) == Denote(j).fields.Keys
  {
    var keys := SortedUnique(KeysOf(j.fields));
    assert forall k :: k in keys <==> k in Elems(keys);
    assert forall k :: k in KeysOf(j.fields) <==> k in Elems(KeysOf(j.fields));
    DefinedOfSorted(keys, j.fields);
  }

  lemma {:induction false} ValueDecidesText<N>(a: Json<N>, b: Json<N>, show: N -> string)
    requires Written(a) == Written(b)
    ensures Print(a, show) == Print(b, show)
    decreases a, 1
  {
    hide PrintedKeys;
    if a.Arr? {
      ArraysDecideText(a.items, b.items, show);
    } else if a.Obj? {
      ObjectsDecideText(a.fields, b.fields, show);
    }
  }

  lemma {:induction false} ArraysDecideText<N>(a: seq<Json<N>>, b: seq<Json<N>>, show: N -> string)
    requires Written(Arr(a)) == Written(Arr(b))
    ensures PrintItems(a, show) == PrintItems(b, show)
    decreases a, 1
  {
    hide Written, Values;
    ArrayWritten(a);
    ArrayWritten(b);
    if a != [Undefined] && b != [Undefined] {
      ItemsDecideText(a, b, show);
    } else {
      EmptyExactly(a);
      EmptyExactly(b);
    }
  }

  // Nothing is written of an item list exactly when it is empty.
  lemma EmptyExactly<N>(items: seq<Json<N>>)
    ensures Values(items) == [] <==> items == []
  {
    assert |Values(items)| == |items|;
  }

  lemma {:induction false} ItemsDecideText<N>(a: seq<Json<N>>, b: seq<Json<N>>, show: N -> string)
    requires Values(a) == Values(b)
    ensures PrintItems(a, show) == PrintItems(b, show)
    decreases a, 0
  {
    hide Written;
    assert |a| == |Values(a)| && |b| == |Values(b)|;
    if a != [] {
      assert Values(a)[0] == Values(b)[0];
      ValueDecidesText(a[0], b[0], show);
      assert Values(a[1..]) == Values(a)[1..] && Values(b[1..]) == Values(b)[1..];
      ItemsDecideText(a[1..], b[1..], show);
    }
  }

  lemma {:induction false} ObjectsDecideText<N>(a: seq<Field<N>>, b: seq<Field<N>>, show: N -> string)
    requires Written(Obj(a)) == Written(Obj(b))
    ensures PrintedKeys(a) == PrintedKeys(b)
    ensures PrintMembers(PrintedKeys(a), a, show) == PrintMembers(PrintedKeys(b), b, show)
    decreases a, 1
  {
    hide PrintedKeys, Written, KeysOf, IndexOf;
    var keys := PrintedKeys(a);
    ObjectWritten(a);
    ObjectWritten(b);
    PrintedKeysAreTheFields(Obj(a));
    PrintedKeysAreTheFields(Obj(b));
    assert Members(keys, a).Keys == Elems(keys) && Members(PrintedKeys(b), b).Keys == Elems(PrintedKeys(b));
    StrictlySortedUnique(keys, PrintedKeys(b));
    forall k | k in keys ensures Written(FieldAt(a, k)) == Written(FieldAt(b, k)) {
      assert Members(keys, a)[k] == Members(keys, b)[k];
    }
    MembersDecideText(keys, a, b, show);
  }

  lemma {:induction false} MembersDecideText<N>(keys: seq<string>, a: seq<Field<N>>, b: seq<Field<N>>, show: N -> string)
    requires forall k :: k in keys ==> k in KeysOf(a) && k in KeysOf(b) && Written(FieldAt(a, k)) == Written(FieldAt(b, k))
    ensures PrintMembers(keys, a, show) == PrintMembers(keys, b, show)
    decreases a, 0, |keys| + 1
  {
    hide Written;
    if keys != [] {
      ValueDecidesText(FieldAt(a, keys[0]), FieldAt(b, keys[0]), show);
      MembersDecideText(keys[1..], a, b, show);
    }
  }

  /**
   * Any two values have the same canonical text exactly when they are equal up to
   * key order, undefined fields, and writing the empty array for the array of one
   * undefined element.
   */
  lemma SameTextExactly<N(!new)>(a: Json<N>, b: Json<N>, show: N -> string, read: string -> N)
    requires ReadsBack(show, read)
    ensures StableStringify(a, show) == StableStringify(b, show) <==> Squash(Denote(a)) == Squash(Denote(b))
  {
    hide Denote, Squash, Read;
    OnlyUndefinedIsAbsent(a);
    OnlyUndefinedIsAbsent(b);
    if !a.Undefined? && !b.Undefined? {
      TextReads(a, show, read);
      TextReads(b, show, read);
      if Squash(Denote(a)) == Squash(Denote(b)) {
        ValueDecidesText(a, b, show);
      }
    }
  }

  /** Where no array consists of one undefined element, two identities with one canonical text are equal up to key order and undefined fields. */
  lemma SameTextSameValue<N(!new)>(a: Json<N>, b: Json<N>, show: N -> string, read: string -> N)
    requires ReadsBack(show, read) && Faithful(Denote(a)) && Faithful(Denote(b))
    ensures StableStringify(a, show) == StableStringify(b, show) <==> Denote(a) == Denote(b)
  {
    hide Denote, Squash, StableStringify;
    SameTextExactly(a, b, show, read);
    SquashFixes(Denote(a));
    SquashFixes(Denote(b));
  }

  // Two texts that a hash does not tell apart.
  ghost predicate Collide<D>(digest: string -> D, s: string, t: string) {
    s != t && digest(s) == digest(t)
  }

  /** Two identities share a hashed id exactly when the same is written of both, or the hash collides on these two texts. */
  lemma SameIdExactly<N(!new), D(!new)>(a: Json<N>, b: Json<N>, show: N -> string, read: string -> N, digest: string -> D)
    requires ReadsBack(show, read) && !a.Undefined? && !b.Undefined?
    ensures var s, t := StableStringify(a, show).value, StableStringify(b, show).value;
      digest(s) == digest(t) <==> Squash(Denote(a)) == Squash(Denote(b)) || Collide(digest, s, t)
  {
    hide Denote, Squash;
    SameTextExactly(a, b, show, read);
  }
}
