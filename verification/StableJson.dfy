/**
 * The canonical text that every identity of the system is hashed from: object
 * keys sorted, undefined fields dropped, and the string escapes of section 7 of
 * RFC 8259. A reader of that text recovers the value, which is what lets two
 * different identities have different texts.
 *
 * Numbers are any type N with a text form: `show` prints one and `read` takes
 * the text back (finite numbers print as their shortest decimal).
 */
module StableJson {
  import opened Wrappers
  import opened Text

  // A host value. The keys of one object are unique, so only the first of two equal keys is ever looked at.
  datatype Json<N> =
    | Undefined
    | Null
    | Bool(b: bool)
    | Num(n: N)
    | Str(s: string)
    | Arr(items: seq<Json<N>>)
    | Obj(fields: seq<Field<N>>)

  datatype Field<N> = Field(key: string, value: Json<N>)

  // ---------------------------------------------------------------------
  // Printing
  // ---------------------------------------------------------------------

  function HexDigit(d: nat): char
    requires d < 16
  {
    "0123456789abcdef"[d]
  }

  function Escape(c: char): (r: string)
    ensures r != ""
  {
    if c == '\"' then "\\\""
    else if c == '\\' then "\\\\"
    else if c == '\U{0008}' then "\\b"
    else if c == '\U{0009}' then "\\t"
    else if c == '\U{000A}' then "\\n"
    else if c == '\U{000C}' then "\\f"
    else if c == '\U{000D}' then "\\r"
    else if c < '\U{0020}' then "\\u00" + [HexDigit(c as nat / 16), HexDigit(c as nat % 16)]
    else [c]
  }

  function EscapeAll(s: string): string {
    if s == "" then "" else Escape(s[0]) + EscapeAll(s[1..])
  }

  function Quote(s: string): string {
    "\"" + EscapeAll(s) + "\""
  }

  function KeysOf<N>(fields: seq<Field<N>>): (r: seq<string>)
    ensures |r| == |fields| && forall i :: 0 <= i < |fields| ==> r[i] == fields[i].key
  {
    seq(|fields|, i requires 0 <= i < |fields| => fields[i].key)
  }

  // The position of a key that occurs.
  function IndexOf<N>(fields: seq<Field<N>>, key: string): (i: nat)
    requires key in KeysOf(fields)
    ensures i < |fields| && fields[i].key == key
  {
    assert fields != [];
    if fields[0].key == key then 0
    else
      assert KeysOf(fields) == [fields[0].key] + KeysOf(fields[1..]);
      1 + IndexOf(fields[1..], key)
  }

  function DefinedOf<N>(keys: seq<string>, fields: seq<Field<N>>): (r: seq<string>)
    requires forall k :: k in keys ==> k in KeysOf(fields)
    ensures forall k :: k in r <==> k in keys && !fields[IndexOf(fields, k)].value.Undefined?
  {
    if keys == [] then []
    else if fields[IndexOf(fields, keys[0])].value.Undefined? then DefinedOf(keys[1..], fields)
    else [keys[0]] + DefinedOf(keys[1..], fields)
  }

  /** `Object.keys(record).sort().filter((key) => record[key] !== undefined)`. */
  function PrintedKeys<N>(fields: seq<Field<N>>): (r: seq<string>)
    ensures forall k :: k in r <==> k in KeysOf(fields) && !fields[IndexOf(fields, k)].value.Undefined?
  {
    var keys := SortedUnique(KeysOf(fields));
    assert forall k :: k in keys <==> k in Elems(keys);
    assert forall k :: k in KeysOf(fields) <==> k in Elems(KeysOf(fields));
    DefinedOf(keys, fields)
  }

  // The text of a value inside an array: `join` prints an undefined element as nothing.
  function Print<N>(j: Json<N>, show: N -> string): string
    decreases j, 1
  {
    match j
    case Undefined => ""
    case Null => "null"
    case Bool(b) => if b then "true" else "false"
    case Num(n) => show(n)
    case Str(s) => Quote(s)
    case Arr(items) => "[" + PrintItems(items, show) + "]"
    case Obj(fields) => "{" + PrintMembers(PrintedKeys(fields), fields, show) + "}"
  }

  function PrintItems<N>(items: seq<Json<N>>, show: N -> string): string
    decreases items, 0
  {
    if items == [] then ""
    else if |items| == 1 then Print(items[0], show)
    else Print(items[0], show) + "," + PrintItems(items[1..], show)
  }

  function PrintMember<N>(key: string, fields: seq<Field<N>>, show: N -> string): string
    requires key in KeysOf(fields)
    decreases fields, 0, 0
  {
    Quote(key) + ":" + Print(fields[IndexOf(fields, key)].value, show)
  }

  function PrintMembers<N>(keys: seq<string>, fields: seq<Field<N>>, show: N -> string): string
    requires forall k :: k in keys ==> k in KeysOf(fields)
    decreases fields, 0, |keys| + 1
  {
    if keys == [] then ""
    else if |keys| == 1 then PrintMember(keys[0], fields, show)
    else PrintMember(keys[0], fields, show) + "," + PrintMembers(keys[1..], fields, show)
  }

  /** The canonical text; an undefined value has none. */
  function StableStringify<N>(j: Json<N>, show: N -> string): Option<string> {
    if j.Undefined? then None else Some(Print(j, show))
  }

  // ---------------------------------------------------------------------
  // What a host value denotes
  // ---------------------------------------------------------------------

  datatype Value<N> =
    | Absent
    | VNull
    | VBool(b: bool)
    | VNum(n: N)
    | VStr(s: string)
    | VArr(items: seq<Value<N>>)
    | VObj(fields: map<string, Value<N>>)

  /** Objects become maps without their undefined fields, so neither key order nor such fields remain. */
  ghost function Denote<N>(j: Json<N>): Value<N>
    decreases j
  {
    match j
    case Undefined => Absent
    case Null => VNull
    case Bool(b) => VBool(b)
    case Num(n) => VNum(n)
    case Str(s) => VStr(s)
    case Arr(items) => VArr(seq(|items|, i requires 0 <= i < |items| => Denote(items[i])))
    case Obj(fields) => VObj(map k | k in KeysOf(fields) && !fields[IndexOf(fields, k)].value.Undefined? :: Denote(fields[IndexOf(fields, k)].value))
  }

  // No array anywhere in the value is the one-element array of an undefined element.
  ghost predicate Faithful<N>(v: Value<N>)
    decreases v
  {
    match v
    case VArr(items) => items != [Absent] && forall i :: 0 <= i < |items| ==> Faithful(items[i])
    case VObj(fields) => forall k :: k in fields ==> Faithful(fields[k])
    case _ => true
  }

  /** The value with every one-element array of an absent element replaced by the empty array. */
  ghost function Squash<N>(v: Value<N>): Value<N>
    decreases v
  {
    match v
    case VArr(items) => VArr(if items == [Absent] then [] else seq(|items|, i requires 0 <= i < |items| => Squash(items[i])))
    case VObj(fields) => VObj(map k | k in fields :: Squash(fields[k]))
    case _ => v
  }

  // ---------------------------------------------------------------------
  // Reading
  // ---------------------------------------------------------------------

  function HexValue(c: char): Option<nat> {
    if '0' <= c <= '9' then Some(c as nat - '0' as nat)
    else if 'a' <= c <= 'f' then Some(c as nat - 'a' as nat + 10)
    else if 'A' <= c <= 'F' then Some(c as nat - 'A' as nat + 10)
    else None
  }

  function HexQuad(s: string): Option<char>
    requires |s| == 4
  {
    match (HexValue(s[0]), HexValue(s[1]), HexValue(s[2]), HexValue(s[3]))
    case (Some(a), Some(b), Some(c), Some(d)) =>
      var v: nat := ((a * 16 + b) * 16 + c) * 16 + d;
      if v < 0xD800 then Some(v as char) else None
    case _ => None
  }

  // One character of a string body and the length it takes; None at the quote or at malformed text.
  function ReadChar(text: string): (r: Option<(char, nat)>)
    ensures r.Some? ==> 0 < r.value.1 <= |text|
  {
    if text == "" || text[0] < '\U{0020}' || text[0] == '\"' then None
    else if text[0] != '\\' then Some((text[0], 1))
    else if |text| < 2 then None
    else if text[1] in "\"\\/" then Some((text[1], 2))
    else if text[1] == 'b' then Some(('\U{0008}', 2))
    else if text[1] == 't' then Some(('\U{0009}', 2))
    else if text[1] == 'n' then Some(('\U{000A}', 2))
    else if text[1] == 'f' then Some(('\U{000C}', 2))
    else if text[1] == 'r' then Some(('\U{000D}', 2))
    else if text[1] == 'u' && |text| >= 6 && HexQuad(text[2..6]).Some? then Some((HexQuad(text[2..6]).value, 6))
    else None
  }

  // The characters up to the closing quote, and the text after it.
  function ReadChars(text: string): (r: Option<(string, string)>)
    ensures r.Some? ==> |r.value.1| < |text|
  {
    if text == "" then None
    else if text[0] == '\"' then Some(("", text[1..]))
    else
      match ReadChar(text)
      case None => None
      case Some((c, used)) =>
        match ReadChars(text[used..])
        case None => None
        case Some((s, rest)) => Some(([c] + s, rest))
  }

  predicate IsNumberChar(c: char) {
    '0' <= c <= '9' || c in "-+.eE"
  }

  function NumberRun(text: string): (r: string)
    ensures r <= text
  {
    if text != "" && IsNumberChar(text[0]) then [text[0]] + NumberRun(text[1..]) else ""
  }

  function ReadWord<N>(text: string, word: string, value: Value<N>): (r: Option<(Value<N>, string)>)
    requires word != ""
    ensures r.Some? ==> |r.value.1| < |text|
  {
    if word <= text then Some((value, text[|word|..])) else None
  }

  function Read<N>(text: string, read: string -> N): (r: Option<(Value<N>, string)>)
    ensures r.Some? ==> |r.value.1| < |text|
    decreases |text|, 0
  {
    if text == "" then None
    else if text[0] == 'n' then ReadWord(text, "null", VNull)
    else if text[0] == 't' then ReadWord(text, "true", VBool(true))
    else if text[0] == 'f' then ReadWord(text, "false", VBool(false))
    else if text[0] == '\"' then
      match ReadChars(text[1..])
      case None => None
      case Some((s, rest)) => Some((VStr(s), rest))
    else if text[0] == '[' then
      if |text| > 1 && text[1] == ']' then Some((VArr([]), text[2..]))
      else
        match ReadItems(text[1..], read)
        case None => None
        case Some((items, rest)) => Some((VArr(items), rest))
    else if text[0] == '{' then
      if |text| > 1 && text[1] == '}' then Some((VObj(map[]), text[2..]))
      else
        match ReadMembers(text[1..], read)
        case None => None
        case Some((fields, rest)) => Some((VObj(fields), rest))
    else
      var run := NumberRun(text);
      if run == "" then None else Some((VNum(read(run)), text[|run|..]))
  }

  // An element, empty where the next character already ends it.
  function ReadItem<N>(text: string, read: string -> N): (r: Option<(Value<N>, string)>)
    ensures r.Some? ==> |r.value.1| <= |text|
    decreases |text|, 1
  {
    if text != "" && text[0] in ",]" then Some((Absent, text)) else Read(text, read)
  }

  function ReadItems<N>(text: string, read: string -> N): (r: Option<(seq<Value<N>>, string)>)
    ensures r.Some? ==> |r.value.1| < |text| && r.value.0 != []
    decreases |text|, 2
  {
    match ReadItem(text, read)
    case None => None
    case Some((v, rest)) =>
      if rest == "" then None
      else if rest[0] == ']' then Some(([v], rest[1..]))
      else if rest[0] != ',' then None
      else
        match ReadItems(rest[1..], read)
        case None => None
        case Some((vs, after)) => Some(([v] + vs, after))
  }

  function ReadMember<N>(text: string, read: string -> N): (r: Option<((string, Value<N>), string)>)
    ensures r.Some? ==> |r.value.1| < |text|
    decreases |text|, 1
  {
    if text == "" || text[0] != '\"' then None
    else
      match ReadChars(text[1..])
      case None => None
      case Some((key, rest)) =>
        if rest == "" || rest[0] != ':' then None
        else
          match Read(rest[1..], read)
          case None => None
          case Some((v, after)) => Some(((key, v), after))
  }

  function ReadMembers<N>(text: string, read: string -> N): (r: Option<(map<string, Value<N>>, string)>)
    ensures r.Some? ==> |r.value.1| < |text|
    decreases |text|, 2
  {
    match ReadMember(text, read)
    case None => None
    case Some((entry, rest)) =>
      if rest == "" then None
      else if rest[0] == '}' then Some((map[entry.0 := entry.1], rest[1..]))
      else if rest[0] != ',' then None
      else
        match ReadMembers(rest[1..], read)
        case None => None
        case Some((fields, after)) => Some((map[entry.0 := entry.1] + fields, after))
  }
}
