/** JSON trees, the text the printer writes for them and the grammar the parser accepts
    (src/extern/cJSON.c). The parser is described on suffixes of its input: every function takes the
    bytes from the current offset on and gives back what is left. */
module JsonText {
  import opened Bytes
  import opened JsonStrings
  import opened JsonLiterals
  import opened JsonNumbers

  datatype Json =
    | Null
    | False
    | True
    | Number(value: double)
    | String(s: Text)
    | Array(items: seq<Json>)
    | Object(members: seq<Member>)

  datatype Member = Member(key: Text, value: Json)

  /** No NUL inside a string or a key. */
  predicate CStrings(v: Json) {
    match v
    case String(s) => 0 !in s
    case Array(items) => forall i :: 0 <= i < |items| ==> CStrings(items[i])
    case Object(members) => forall i :: 0 <= i < |members| ==> 0 !in members[i].key && CStrings(members[i].value)
    case _ => true
  }

  /** How deep containers nest. */
  function Nesting(v: Json): nat {
    match v
    case Array(items) => 1 + NestingItems(items)
    case Object(members) => 1 + NestingMembers(members)
    case _ => 0
  }

  function Max(a: nat, b: nat): nat { if a < b then b else a }

  function NestingItems(items: seq<Json>): nat {
    if items == [] then 0 else Max(Nesting(items[0]), NestingItems(items[1..]))
  }

  function NestingMembers(members: seq<Member>): nat {
    if members == [] then 0 else Max(Nesting(members[0].value), NestingMembers(members[1..]))
  }

  const TAB: byte := 9
  const NEWLINE: byte := 10
  const SPACE: byte := 32
  const COMMA: byte := 44
  const COLON: byte := 58
  const OPEN_ARRAY: byte := 91
  const CLOSE_ARRAY: byte := 93
  const OPEN_OBJECT: byte := 123
  const CLOSE_OBJECT: byte := 125

  const FALSE_TEXT: Text := [102, 97, 108, 115, 101]
  const TRUE_TEXT: Text := [116, 114, 117, 101]

  const NESTING_LIMIT: nat := 1000

  // ----- Printing

  function Tabs(n: nat): (r: Text)
    ensures |r| == n && forall i :: 0 <= i < n ==> r[i] == TAB
  {
    seq(n, _ => TAB)
  }

  function Indent(depth: nat, format: bool): Text {
    if format then Tabs(depth) else []
  }

  function LineEnd(format: bool): Text {
    if format then [NEWLINE] else []
  }

  /** The text of a value that starts at nesting depth `depth`. */
  function Render(libc: Libc, v: Json, depth: nat, format: bool): Text {
    match v
    case Null => NULL_TEXT
    case False => FALSE_TEXT
    case True => TRUE_TEXT
    case Number(d) => NumberText(libc, d)
    case String(s) => Quoted(s)
    case Array(items) => [OPEN_ARRAY] + (RenderItems(libc, items, depth + 1, format) + [CLOSE_ARRAY])
    case Object(members) =>
      [OPEN_OBJECT]
      + (LineEnd(format) + (RenderMembers(libc, members, depth + 1, format) + (Indent(depth, format) + [CLOSE_OBJECT])))
  }

  /** What stands between this item, with `more` behind it, and the next. */
  function ItemEnd(more: bool, format: bool): Text {
    if !more then [] else if format then [COMMA, SPACE] else [COMMA]
  }

  function RenderItems(libc: Libc, items: seq<Json>, depth: nat, format: bool): Text {
    if items == [] then []
    else
      Render(libc, items[0], depth, format)
      + (ItemEnd(|items| > 1, format) + RenderItems(libc, items[1..], depth, format))
  }

  function KeySeparator(format: bool): Text {
    if format then [COLON, TAB] else [COLON]
  }

  /** A member without its indentation. */
  function Field(libc: Libc, m: Member, depth: nat, format: bool): Text {
    Quoted(m.key) + (KeySeparator(format) + Render(libc, m.value, depth, format))
  }

  function FieldEnd(more: bool, format: bool): Text {
    (if more then [COMMA] else []) + LineEnd(format)
  }

  function RenderMembers(libc: Libc, members: seq<Member>, depth: nat, format: bool): Text {
    if members == [] then []
    else
      Indent(depth, format)
      + (Field(libc, members[0], depth, format)
         + (FieldEnd(|members| > 1, format) + RenderMembers(libc, members[1..], depth, format)))
  }

  // ----- Parsing

  function SkipWhitespace(s: Text): (r: Text)
    requires Terminated(s)
    ensures Terminated(r) && |r| <= |s|
    ensures |r| == 1 || r[0] > 32
  {
    if |s| > 1 && s[0] <= 32 then SkipWhitespace(s[1..]) else s
  }

  predicate StartsWith(s: Text, prefix: Text) {
    |s| >= |prefix| && s[..|prefix|] == prefix
  }

  function ParseNumber(libc: Libc, s: Text): (r: Parsed<Json>)
    requires Terminated(s)
    ensures r.Ok? ==> Terminated(r.rest) && |r.rest| < |s|
  {
    var run := s[..NumberRun(s, 63)];
    var taken := Taken(run);
    if taken == 0 then Fail else Ok(Number(Scan(libc, run)), s[taken..])
  }

  /** A value at the start of `s`, inside `depth` containers. */
  function ParseValue(libc: Libc, s: Text, depth: nat): (r: Parsed<Json>)
    requires Terminated(s)
    ensures r.Ok? ==> Terminated(r.rest) && |r.rest| < |s|
    decreases |s|, 0
  {
    if StartsWith(s, NULL_TEXT) then Ok(Null, s[4..])
    else if StartsWith(s, FALSE_TEXT) then Ok(False, s[5..])
    else if StartsWith(s, TRUE_TEXT) then Ok(True, s[4..])
    else if s[0] == QUOTE then
      match ParseString(s)
      case Fail => Fail
      case Ok(bytes, rest) => Ok(String(bytes), rest)
    else if s[0] == 45 || IsDigit(s[0]) then ParseNumber(libc, s)
    else if s[0] == OPEN_ARRAY then
      if depth >= NESTING_LIMIT then Fail
      else
        var t := SkipWhitespace(s[1..]);
        if t[0] == CLOSE_ARRAY then Ok(Array([]), t[1..])
        else match ParseItems(libc, t, depth + 1)
          case Fail => Fail
          case Ok(items, rest) => Ok(Array(items), rest)
    else if s[0] == OPEN_OBJECT then
      if depth >= NESTING_LIMIT then Fail
      else
        var t := SkipWhitespace(s[1..]);
        if t[0] == CLOSE_OBJECT then Ok(Object([]), t[1..])
        else match ParseMembers(libc, t, depth + 1)
          case Fail => Fail
          case Ok(members, rest) => Ok(Object(members), rest)
    else Fail
  }

  /** The elements of an array, up to and including the closing bracket. */
  function ParseItems(libc: Libc, s: Text, depth: nat): (r: Parsed<seq<Json>>)
    requires Terminated(s)
    ensures r.Ok? ==> Terminated(r.rest) && |r.rest| < |s|
    decreases |s|, 1
  {
    match ParseValue(libc, SkipWhitespace(s), depth)
    case Fail => Fail
    case Ok(item, rest) =>
      var t := SkipWhitespace(rest);
      if t[0] == COMMA then
        match ParseItems(libc, t[1..], depth)
        case Fail => Fail
        case Ok(items, end) => Ok([item] + items, end)
      else if t[0] == CLOSE_ARRAY then Ok([item], t[1..])
      else Fail
  }

  /** One member: a string, a colon and a value. */
  function ParseMember(libc: Libc, s: Text, depth: nat): (r: Parsed<Member>)
    requires Terminated(s)
    ensures r.Ok? ==> Terminated(r.rest) && |r.rest| < |s|
    decreases |s|, 1
  {
    match ParseString(SkipWhitespace(s))
    case Fail => Fail
    case Ok(key, rest) =>
      var t := SkipWhitespace(rest);
      if t[0] != COLON then Fail
      else match ParseValue(libc, SkipWhitespace(t[1..]), depth)
        case Fail => Fail
        case Ok(value, end) => Ok(Member(key, value), end)
  }

  /** The members of an object, up to and including the closing brace. */
  function ParseMembers(libc: Libc, s: Text, depth: nat): (r: Parsed<seq<Member>>)
    requires Terminated(s)
    ensures r.Ok? ==> Terminated(r.rest) && |r.rest| < |s|
    decreases |s|, 2
  {
    match ParseMember(libc, s, depth)
    case Fail => Fail
    case Ok(member, rest) =>
      var t := SkipWhitespace(rest);
      if t[0] == COMMA then
        match ParseMembers(libc, t[1..], depth)
        case Fail => Fail
        case Ok(members, end) => Ok([member] + members, end)
      else if t[0] == CLOSE_OBJECT then Ok([member], t[1..])
      else Fail
  }

  const BYTE_ORDER_MARK: Text := [0xEF, 0xBB, 0xBF]

  function SkipByteOrderMark(s: Text): (r: Text)
    requires Terminated(s)
    ensures Terminated(r) && |r| <= |s|
  {
    if |s| > 4 && StartsWith(s, BYTE_ORDER_MARK) then s[3..] else s
  }

  /** A whole C string: what is found at its start, and, if asked for, nothing behind it. */
  function ParseDocument(libc: Libc, text: Text, requireEnd: bool): Option<Json> {
    match ParseValue(libc, SkipWhitespace(SkipByteOrderMark(text + [0])), 0)
    case Fail => None
    case Ok(v, rest) => if requireEnd && SkipWhitespace(rest)[0] != 0 then None else Some(v)
  }
}
