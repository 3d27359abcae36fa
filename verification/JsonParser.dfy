/** The parser of src/extern/cJSON.c: it moves an offset through a NUL-terminated input, counts open
    containers, and decodes strings into buffers sized by a first pass. It computes what the grammar
    in `JsonText` says. */
module JsonParser {
  import opened Bytes
  import opened JsonStrings
  import opened JsonStringBounds
  import opened JsonNumbers
  import opened JsonText
  import JsonSteps

  /** A parse step returned what the grammar says, and left the input where the grammar says. */
  ghost predicate Agrees<T>(spec: Parsed<T>, r: Option<T>, rest: Text) {
    match spec
    case Fail => r == None
    case Ok(value, end) => r == Some(value) && rest == end
  }

  /** The input from `offset` on. */
  ghost function From(content: Text, offset: nat): (r: Text)
    requires Terminated(content) && offset < |content|
    ensures Terminated(r) && |r| == |content| - offset && r[0] == content[offset]
  {
    content[offset..]
  }

  lemma TakesWord(libc: Libc, content: Text, offset: nat, depth: nat, word: Text, v: Json)
    requires Terminated(content) && offset < |content| && StartsWith(From(content, offset), word)
    requires (v == Null && word == NULL_TEXT) || (v == False && word == FALSE_TEXT) || (v == True && word == TRUE_TEXT)
    ensures offset + |word| < |content|
    ensures JsonText.ParseValue(libc, From(content, offset), depth) == Ok(v, From(content, offset + |word|))
  {
    var s := From(content, offset);
    assert s[..|word|] == word && s[|word| - 1] == word[|word| - 1];
    assert s == word + s[|word|..];
    JsonSteps.WordStep(libc, v, word, s[|word|..], depth);
  }

  /** What is left when the blanks from `offset` on are skipped; the last byte is never skipped. */
  ghost function Skipped(content: Text, offset: nat): Text
    requires Terminated(content) && offset <= |content|
  {
    if offset < |content| then JsonText.SkipWhitespace(From(content, offset)) else [0]
  }

  lemma SkipsOne(content: Text, offset: nat)
    requires Terminated(content) && offset < |content| && content[offset] <= 32
    ensures Skipped(content, offset) == Skipped(content, offset + 1)
  {
    if offset + 1 < |content| {
      assert From(content, offset)[1..] == From(content, offset + 1);
    }
  }

  lemma SkipsNoMore(content: Text, offset: nat)
    requires Terminated(content) && offset <= |content| && (offset < |content| ==> content[offset] > 32)
    ensures Skipped(content, offset) == From(content, if offset < |content| then offset else offset - 1)
  {
  }

  lemma Behind(content: Text, offset: nat)
    requires Terminated(content) && offset < |content| && content[offset] != 0
    ensures offset + 1 < |content| && From(content, offset)[1..] == From(content, offset + 1)
  {
  }

  /** What a first pass over a literal that starts at `t` still has to do at `u`, `n` bytes on. */
  ghost predicate Scanned(t: Text, u: Text, n: nat, skipped: nat) {
    match FindQuote(u)
    case None => FindQuote(t) == None
    case Some(k) => FindQuote(t) == Some(n + k) && Pairs(t, n + k) == skipped + Pairs(u, k)
  }

  lemma ScannedStep(t: Text, u: Text, n: nat, skipped: nat)
    requires Scanned(t, u, n, skipped) && u != [] && u[0] != QUOTE
    ensures u[0] != BACKSLASH ==> Scanned(t, u[1..], n + 1, skipped)
    ensures u[0] == BACKSLASH && |u| >= 2 ==> Scanned(t, u[2..], n + 2, skipped + 1)
    ensures u == [BACKSLASH] ==> FindQuote(t) == None
  {
  }

  lemma ScannedEnd(t: Text, u: Text, n: nat, skipped: nat)
    requires Scanned(t, u, n, skipped)
    ensures u == [] ==> FindQuote(t) == None
    ensures u != [] && u[0] == QUOTE ==> FindQuote(t) == Some(n) && Pairs(t, n) == skipped
  {
  }

  /** The second pass over the `n` bytes at `t` has produced `front` and stands at `u`, `k` bytes
      before the end; `room` bytes of output are left. */
  ghost predicate Decoded(t: Text, n: nat, front: Text, u: Text, k: int, room: int)
    requires |t| > n
  {
    |u| > k && Unescape(t, n) == Prepend(front, Unescape(u, k)) && Room(u, k, room)
  }

  lemma DecodedStart(t: Text)
    requires FindQuote(t).Some?
    ensures var n := FindQuote(t).value; Decoded(t, n, [], t, n, n - Pairs(t, n))
  {
    var n := FindQuote(t).value;
    AllocationSuffices(t);
    if Unescape(t, n).Some? {
      assert [] + Unescape(t, n).value == Unescape(t, n).value;
    }
  }

  lemma DecodedPlain(t: Text, n: nat, front: Text, u: Text, k: nat, room: int)
    requires |t| > n && Decoded(t, n, front, u, k, room) && k > 0 && u[0] != BACKSLASH
    ensures Decoded(t, n, front + [u[0]], u[1..], k - 1, room - 1) && room >= 1
  {
    RoomAfterPlain(u, k, room);
    RoomIsRoom(u[1..], k - 1, room - 1);
    PrependTwice(front, [u[0]], Unescape(u[1..], k - 1));
  }

  lemma DecodedShort(t: Text, n: nat, front: Text, u: Text, k: nat, room: int, b: byte)
    requires |t| > n && Decoded(t, n, front, u, k, room) && k > 0
    requires u[0] == BACKSLASH && u[1] != LOWER_U && ShortEscape(u[1]) == Some(b)
    ensures Decoded(t, n, front + [b], u[2..], k - 2, room - 1) && room >= 1
  {
    RoomAfterEscape(u, k, room);
    RoomIsRoom(u[2..], k - 2, room - 1);
    PrependTwice(front, [b], Unescape(u[2..], k - 2));
  }

  lemma DecodedLiteral(t: Text, n: nat, front: Text, u: Text, k: nat, room: int, l: Literal)
    requires |t| > n && Decoded(t, n, front, u, k, room) && k > 0
    requires u[0] == BACKSLASH && u[1] == LOWER_U && ReadLiteral(u, k) == Some(l)
    ensures room >= Utf8Length(l.codepoint)
    ensures Decoded(t, n, front + Utf8(l.codepoint), u[l.length..], k - l.length, room - Utf8Length(l.codepoint))
  {
    RoomAfterLiteral(u, k, room, l);
    RoomIsRoom(u[l.length..], k - l.length, room - Utf8Length(l.codepoint));
    PrependTwice(front, Utf8(l.codepoint), Unescape(u[l.length..], k - l.length));
  }

  lemma DecodedRejected(t: Text, n: nat, front: Text, u: Text, k: nat, room: int)
    requires |t| > n && Decoded(t, n, front, u, k, room) && k > 0 && u[0] == BACKSLASH
    requires if u[1] == LOWER_U then ReadLiteral(u, k) == None else ShortEscape(u[1]) == None
    ensures Unescape(t, n) == None
  {
  }

  lemma DecodedEnd(t: Text, n: nat, front: Text, u: Text, k: int, room: int)
    requires |t| > n && Decoded(t, n, front, u, k, room) && k <= 0
    ensures Unescape(t, n) == Some(front) && room >= 0
  {
    RoomIsRoom(u, k, room);
    assert front + [] == front;
  }

  class ParseBuffer {
    const content: seq<byte>
    const libc: Libc
    var offset: nat
    var depth: nat

    constructor (content: seq<byte>, libc: Libc)
      ensures this.content == content && this.libc == libc && offset == 0 && depth == 0
    {
      this.content, this.libc, offset, depth := content, libc, 0, 0;
    }

    ghost predicate Valid()
      reads this
    {
      Terminated(content) && offset < |content|
    }

    ghost function Rest(): (r: Text)
      reads this
      requires Valid()
    {
      From(content, offset)
    }

    /** Skips control characters and spaces, but not past the last byte. */
    method SkipWhitespace()
      requires Valid()
      modifies this`offset
      ensures Valid() && old(offset) <= offset
      ensures Rest() == JsonText.SkipWhitespace(old(Rest()))
    {
      hide JsonText.SkipWhitespace, From;
      ghost var t := Rest();
      while offset < |content| && content[offset] <= 32
        invariant old(offset) <= offset <= |content|
        invariant JsonText.SkipWhitespace(t) == Skipped(content, offset)
      {
        SkipsOne(content, offset);
        offset := offset + 1;
      }
      SkipsNoMore(content, offset);
      if offset == |content| {
        offset := offset - 1;
      }
    }

    // ----- Strings

    /** First pass: where the literal that starts at the offset ends, and how many backslashes were
        skipped on the way. */
    method FindEnd() returns (ok: bool, end: nat, skipped: nat)
      requires Valid()
      ensures var t := content[offset + 1..];
        && ok == FindQuote(t).Some?
        && (ok ==> end == offset + 1 + FindQuote(t).value < |content| && skipped == Pairs(t, FindQuote(t).value))
    {
      hide FindQuote, Pairs;
      ghost var t := content[offset + 1..];
      end, skipped := offset + 1, 0;
      while end < |content| && content[end] != QUOTE
        invariant offset < end <= |content|
        invariant Scanned(t, content[end..], end - offset - 1, skipped)
      {
        ScannedStep(t, content[end..], end - offset - 1, skipped);
        if content[end] == BACKSLASH {
          if end + 1 >= |content| {
            return false, end, skipped;
          }
          assert content[end..][2..] == content[end + 2..];
          skipped := skipped + 1;
          end := end + 1;
        } else {
          assert content[end..][1..] == content[end + 1..];
        }
        end := end + 1;
      }
      ok := end < |content|;
      ScannedEnd(t, content[end..], end - offset - 1, skipped);
    }

    /** Four hexadecimal digits; 0 if one of them is none. */
    method ParseHex4(at: nat) returns (h: nat)
      requires at + 4 <= |content|
      ensures h == Hex4(content[at..at + 4])
    {
      ghost var s := content[at..at + 4];
      h := 0;
      for i := 0 to 4
        invariant forall j :: 0 <= j < i ==> HexValue(s[j]) < 16
        invariant i == 0 ==> h == 0
        invariant i == 1 ==> h == HexValue(s[0]) * 16
        invariant i == 2 ==> h == (HexValue(s[0]) * 16 + HexValue(s[1])) * 16
        invariant i == 3 ==> h == ((HexValue(s[0]) * 16 + HexValue(s[1])) * 16 + HexValue(s[2])) * 16
        invariant i == 4 ==> h == ((HexValue(s[0]) * 16 + HexValue(s[1])) * 16 + HexValue(s[2])) * 16 + HexValue(s[3])
      {
        var c := content[at + i];
        assert s[i] == c;
        if 48 <= c <= 57 {
          h := h + (c - 48);
        } else if 65 <= c <= 70 {
          h := h + (10 + c as int - 65);
        } else if 97 <= c <= 102 {
          h := h + (10 + c as int - 97);
        } else {
          return 0;
        }
        if i < 3 {
          h := h * 16;
        }
      }
    }

    /** One \u escape, or two that form a surrogate pair: the bytes are written to `output` from `out`
        on. The length is 0 if the escape is malformed. */
    method Utf16LiteralToUtf8(input: nat, end: nat, output: array<byte>, out: nat) returns (length: nat, out': nat)
      requires input < end < |content|
      requires var l := ReadLiteral(content[input..], end - input);
        l.Some? ==> out + Utf8Length(l.value.codepoint) <= output.Length
      modifies output
      ensures match ReadLiteral(content[input..], end - input)
        case None => length == 0 && out' == out && output[..] == old(output[..])
        case Some(l) => length == l.length && out' == out + Utf8Length(l.codepoint) <= output.Length
                        && output[..] == Splice(old(output[..]), out, Utf8(l.codepoint))
    {
      ghost var t := content[input..];
      length, out' := 0, out;
      if end - input < 6 {
        return;
      }
      assert t[2..6] == content[input + 2..input + 6];
      var first := ParseHex4(input + 2);
      if 0xDC00 <= first <= 0xDFFF {
        return;
      }
      var codepoint := first;
      var sequence := 6;
      if 0xD800 <= first <= 0xDBFF {
        sequence := 12;
        if end - (input + 6) < 6 {
          return;
        }
        if content[input + 6] != BACKSLASH || content[input + 7] != LOWER_U {
          return;
        }
        assert t[8..12] == content[input + 8..input + 12];
        var second := ParseHex4(input + 8);
        if second < 0xDC00 || second > 0xDFFF {
          return;
        }
        codepoint := 0x10000 + first % 0x400 * 0x400 + second % 0x400;
      }
      length := sequence;
      out' := EncodeUtf8(codepoint, output, out);
    }

    /** The bytes of a code point, written from the last to the first. */
    static method EncodeUtf8(cp: nat, output: array<byte>, out: nat) returns (out': nat)
      requires cp <= 0x10FFFF && out + Utf8Length(cp) <= output.Length
      modifies output
      ensures out' == out + Utf8Length(cp) && output[..] == Splice(old(output[..]), out, Utf8(cp))
    {
      ghost var was, bytes := output[..], Utf8(cp);
      var codepoint := cp;
      var length, mark := 4, 0xF0;
      if cp < 0x80 {
        length, mark := 1, 0;
      } else if cp < 0x800 {
        length, mark := 2, 0xC0;
      } else if cp < 0x10000 {
        length, mark := 3, 0xE0;
      }
      var position := length - 1;
      while position > 0
        invariant 0 <= position < length
        invariant codepoint == match length - 1 - position
                  case 0 => cp case 1 => cp / 64 case 2 => cp / 64 / 64 case _ => cp / 64 / 64 / 64
        invariant output.Length == |was| && forall i :: 0 <= i < |was| ==>
                    output[i] == if out + position < i < out + length then bytes[i - out] else was[i]
      {
        output[out + position] := 0x80 + codepoint % 64;
        codepoint := codepoint / 64;
        position := position - 1;
      }
      output[out] := codepoint + mark;
      out' := out + length;
      SpliceAt(was, out, bytes);
      assert output[..] == Splice(was, out, bytes);
    }

    /** The escape at `input`, decoded to `output` from `out` on; the length is 0 if it is malformed. */
    method DecodeEscape(input: nat, end: nat, output: array<byte>, out: nat, ghost t: Text, ghost n: nat)
      returns (length: nat, out': nat)
      requires input < end < |content| && content[input] == BACKSLASH && out + 2 <= output.Length
      requires |t| > n && Decoded(t, n, output[..out], content[input..], end - input, output.Length - 2 - out)
      modifies output
      ensures length == 0 ==> Unescape(t, n) == None
      ensures length > 0 ==> input + length <= |content| && out <= out' && out' + 2 <= output.Length
      ensures length > 0 ==>
        Decoded(t, n, output[..out'], content[input + length..], end - input - length, output.Length - 2 - out')
    {
      hide Decoded, Unescape, ReadLiteral;
      ghost var u, front, room := content[input..], output[..out], output.Length - 2 - out;
      ghost var k := end - input;
      length, out' := 2, out;
      var letter := content[input + 1];
      assert u[1] == letter;
      if letter == LOWER_U {
        ghost var l := ReadLiteral(u, k);
        if l.Some? {
          DecodedLiteral(t, n, front, u, k, room, l.value);
        } else {
          DecodedRejected(t, n, front, u, k, room);
        }
        length, out' := Utf16LiteralToUtf8(input, end, output, out);
        if l.Some? {
          assert output[..out'] == front + Utf8(l.value.codepoint);
          assert content[input + length..] == u[length..];
        }
      } else {
        var b;
        if letter == 98 {
          b := 8;
        } else if letter == 102 {
          b := 12;
        } else if letter == 110 {
          b := 10;
        } else if letter == 114 {
          b := 13;
        } else if letter == 116 {
          b := 9;
        } else if letter == QUOTE || letter == BACKSLASH || letter == 47 {
          b := letter;
        } else {
          DecodedRejected(t, n, front, u, k, room);
          return 0, out;
        }
        DecodedShort(t, n, front, u, k, room, b);
        output[out] := b;
        out' := out + 1;
        assert output[..out'] == front + [b];
        assert content[input + 2..] == u[2..];
      }
    }

    /** Second pass: decodes the literal between the quotes. */
    method Decode(end: nat, output: array<byte>, ghost t: Text, ghost n: nat) returns (r: Option<Text>)
      requires Valid() && t == content[offset + 1..] && FindQuote(t) == Some(n) && end == offset + 1 + n
      requires output.Length == n + 2 - Pairs(t, n)
      modifies output
      ensures r == match Unescape(t, n) case None => None case Some(bytes) => Some(CString(bytes))
    {
      hide Decoded, Unescape, FindQuote, Pairs;
      var input: nat, out: nat := offset + 1, 0;
      DecodedStart(t);
      assert output[..0] == [];
      while input < end
        invariant offset < input <= |content| && out + 2 <= output.Length
        invariant Decoded(t, n, output[..out], content[input..], end - input, output.Length - 2 - out)
      {
        ghost var u, front := content[input..], output[..out];
        if content[input] != BACKSLASH {
          DecodedPlain(t, n, front, u, end - input, output.Length - 2 - out);
          output[out] := content[input];
          input, out := input + 1, out + 1;
          assert output[..out] == front + [u[0]];
          assert content[input..] == u[1..];
        } else {
          var length;
          length, out := DecodeEscape(input, end, output, out, t, n);
          if length == 0 {
            return None;
          }
          input := input + length;
        }
      }
      DecodedEnd(t, n, output[..out], content[input..], end - input, output.Length - 2 - out);
      output[out] := 0;
      r := Some(CString(output[..out]));
    }

    /** A string literal at the offset. */
    method ParseString() returns (r: Option<Text>)
      requires Valid()
      modifies this`offset
      ensures r.Some? ==> Valid() && old(offset) < offset
      ensures Agrees(JsonStrings.ParseString(old(Rest())), r, if r.Some? then Rest() else [])
    {
      hide JsonStrings.ParseString, FindQuote, Pairs, Unescape, From, CString, Terminated;
      if content[offset] != QUOTE {
        NoLiteral(content, offset);
        return None;
      }
      LiteralRead(content, offset);
      ghost var t := content[offset + 1..];
      var ok, end, skipped := FindEnd();
      if !ok {
        return None;
      }
      var output := new byte[end - offset - skipped + 1];
      r := Decode(end, output, t, FindQuote(t).value);
      if r.Some? {
        offset := end + 1;
      }
    }

    // ----- Values

    /** Copies the bytes of a number, at most 63. */
    method CopyNumber() returns (run: Text)
      requires Valid()
      ensures run == Rest()[..NumberRun(Rest(), 63)]
    {
      hide NumberRun;
      ghost var s := Rest();
      run := [];
      assert s[0..] == s;
      var i := 0;
      while i < 63 && offset + i < |content| && IsNumberByte(content[offset + i])
        invariant 0 <= i <= 63 && offset + i <= |content| && run == s[..i]
        invariant NumberRun(s, 63) == i + NumberRun(s[i..], 63 - i)
      {
        Copies(s, i);
        run := run + [content[offset + i]];
        i := i + 1;
      }
      if i < 63 && offset + i < |content| {
        Copies(s, i);
      }
    }

    /** `strtod` takes a prefix of the copied bytes. */
    method ParseNumber() returns (r: Option<Json>)
      requires Valid()
      modifies this`offset
      ensures r.Some? ==> Valid() && old(offset) < offset
      ensures Agrees(JsonText.ParseNumber(libc, old(Rest())), r, if r.Some? then Rest() else [])
    {
      ghost var s := Rest();
      var run := CopyNumber();
      hide NumberRun, Taken;
      var taken := Taken(run);
      if taken == 0 {
        return None;
      }
      offset := offset + taken;
      assert content[offset..] == s[taken..];
      r := Some(Number(Scan(libc, run)));
    }

    /** `strncmp` of the input with a keyword, if that many bytes are left. */
    method Matches(keyword: Text) returns (ok: bool)
      requires Valid()
      ensures ok == StartsWith(Rest(), keyword)
    {
      ok := offset + |keyword| <= |content| && content[offset..offset + |keyword|] == keyword;
      assert offset + |keyword| <= |content| ==> content[offset..offset + |keyword|] == content[offset..][..|keyword|];
    }

    /** A value at the offset. */
    method ParseValue() returns (r: Option<Json>)
      requires Valid()
      modifies this
      ensures r.Some? ==> Valid() && old(offset) < offset && depth == old(depth)
      ensures Agrees(JsonText.ParseValue(libc, old(Rest()), old(depth)), r, if r.Some? then Rest() else [])
      decreases |content| - offset, 1
    {
      hide JsonText.ParseValue, JsonText.ParseNumber, JsonStrings.ParseString, Terminated, StartsWith, From;
      ghost var s := Rest();
      var found := Matches(NULL_TEXT);
      if found {
        TakesWord(libc, content, offset, depth, NULL_TEXT, Null);
        offset := offset + 4;
        return Some(Null);
      }
      found := Matches(FALSE_TEXT);
      if found {
        TakesWord(libc, content, offset, depth, FALSE_TEXT, False);
        offset := offset + 5;
        return Some(False);
      }
      found := Matches(TRUE_TEXT);
      if found {
        TakesWord(libc, content, offset, depth, TRUE_TEXT, True);
        offset := offset + 4;
        return Some(True);
      }
      if content[offset] == QUOTE {
        JsonSteps.StringStep(libc, s, depth);
        var bytes := ParseString();
        return if bytes.Some? then Some(String(bytes.value)) else None;
      }
      if content[offset] == 45 || IsDigit(content[offset]) {
        JsonSteps.NumberStep(libc, s, depth);
        r := ParseNumber();
        return;
      }
      if content[offset] == OPEN_ARRAY {
        r := ParseArray();
        return;
      }
      if content[offset] == OPEN_OBJECT {
        r := ParseObject();
        return;
      }
      JsonSteps.StartsNothing(libc, s, depth);
      r := None;
    }

    /** An array: its elements are parsed one by one and collected in order. */
    method ParseArray() returns (r: Option<Json>)
      requires Valid() && content[offset] == OPEN_ARRAY
      modifies this
      ensures r.Some? ==> Valid() && old(offset) < offset && depth == old(depth)
      ensures Agrees(JsonText.ParseValue(libc, old(Rest()), old(depth)), r, if r.Some? then Rest() else [])
      decreases |content| - offset, 0
    {
      hide JsonText.ParseItems, JsonText.ParseValue, JsonText.SkipWhitespace, Terminated, From;
      OpensArray(libc, content, offset, depth);
      if depth >= NESTING_LIMIT {
        return None;
      }
      depth := depth + 1;
      offset := offset + 1;
      SkipWhitespace();
      ghost var t := Rest();
      if content[offset] == CLOSE_ARRAY {
        Behind(content, offset);
        depth := depth - 1;
        offset := offset + 1;
        return Some(Array([]));
      }
      offset := offset - 1;
      var items := ParseItems(t);
      if items == None {
        return None;
      }
      depth := depth - 1;
      offset := offset + 1;
      r := Some(Array(items.value));
    }

    /** The elements behind the offset, up to the closing bracket. */
    method ParseItems(ghost t: Text) returns (r: Option<seq<Json>>)
      requires Terminated(content) && offset + 1 < |content| && t == From(content, offset + 1)
      modifies this
      ensures r.Some? ==> offset + 1 < |content| && old(offset) < offset && depth == old(depth)
      ensures Agrees(JsonText.ParseItems(libc, t, old(depth)), r, if r.Some? then From(content, offset + 1) else [])
      decreases |content| - offset - 1, 2
    {
      hide JsonText.ParseItems, JsonText.ParseValue, JsonText.SkipWhitespace, Terminated, From;
      var items: seq<Json> := [];
      BeforeNothing(JsonText.ParseItems(libc, t, depth));
      while true
        invariant old(offset) <= offset && offset + 1 < |content| && depth == old(depth)
        invariant JsonText.ParseItems(libc, t, depth)
          == Before(items, JsonText.ParseItems(libc, From(content, offset + 1), depth))
        decreases |content| - offset
      {
        offset := offset + 1;
        ghost var u := Rest();
        SkipWhitespace();
        JsonSteps.NoItem(libc, u, depth);
        var item := ParseValue();
        if item == None {
          return None;
        }
        ghost var rest := Rest();
        SkipWhitespace();
        NextItem(libc, items, u, depth, item.value, rest, Rest());
        items := items + [item.value];
        if content[offset] != COMMA {
          break;
        }
        Behind(content, offset);
      }
      if content[offset] != CLOSE_ARRAY {
        return None;
      }
      Behind(content, offset);
      r := Some(items);
    }

    /** An object: like an array, of members. */
    method ParseObject() returns (r: Option<Json>)
      requires Valid() && content[offset] == OPEN_OBJECT
      modifies this
      ensures r.Some? ==> Valid() && old(offset) < offset && depth == old(depth)
      ensures Agrees(JsonText.ParseValue(libc, old(Rest()), old(depth)), r, if r.Some? then Rest() else [])
      decreases |content| - offset, 0
    {
      hide JsonText.ParseMembers, JsonText.ParseValue, JsonText.SkipWhitespace, Terminated, From;
      OpensObject(libc, content, offset, depth);
      if depth >= NESTING_LIMIT {
        return None;
      }
      depth := depth + 1;
      offset := offset + 1;
      SkipWhitespace();
      ghost var t := Rest();
      if content[offset] == CLOSE_OBJECT {
        Behind(content, offset);
        depth := depth - 1;
        offset := offset + 1;
        return Some(Object([]));
      }
      offset := offset - 1;
      var members := ParseMembers(t);
      if members == None {
        return None;
      }
      depth := depth - 1;
      offset := offset + 1;
      r := Some(Object(members.value));
    }

    /** The members behind the offset, up to the closing brace. */
    method ParseMembers(ghost t: Text) returns (r: Option<seq<Member>>)
      requires Terminated(content) && offset + 1 < |content| && t == From(content, offset + 1)
      modifies this
      ensures r.Some? ==> offset + 1 < |content| && old(offset) < offset && depth == old(depth)
      ensures Agrees(JsonText.ParseMembers(libc, t, old(depth)), r, if r.Some? then From(content, offset + 1) else [])
      decreases |content| - offset - 1, 3
    {
      hide JsonText.ParseMembers, JsonText.ParseMember, JsonText.SkipWhitespace, Terminated, From;
      var members: seq<Member> := [];
      BeforeNothing(JsonText.ParseMembers(libc, t, depth));
      while true
        invariant old(offset) <= offset && offset + 1 < |content| && depth == old(depth)
        invariant JsonText.ParseMembers(libc, t, depth)
          == Before(members, JsonText.ParseMembers(libc, From(content, offset + 1), depth))
        decreases |content| - offset
      {
        offset := offset + 1;
        ghost var u := Rest();
        JsonSteps.NoMember(libc, u, depth);
        var member := ParseMember();
        if member == None {
          return None;
        }
        ghost var rest := Rest();
        SkipWhitespace();
        NextMember(libc, members, u, depth, member.value, rest, Rest());
        members := members + [member.value];
        if content[offset] != COMMA {
          break;
        }
        Behind(content, offset);
      }
      if content[offset] != CLOSE_OBJECT {
        return None;
      }
      Behind(content, offset);
      r := Some(members);
    }

    /** A name, a colon and a value. */
    method ParseMember() returns (r: Option<Member>)
      requires Valid()
      modifies this
      ensures r.Some? ==> Valid() && old(offset) < offset && depth == old(depth)
      ensures Agrees(JsonText.ParseMember(libc, old(Rest()), old(depth)), r, if r.Some? then Rest() else [])
      decreases |content| - offset, 2
    {
      hide JsonText.ParseValue, JsonText.SkipWhitespace, JsonStrings.ParseString, Terminated, From;
      SkipWhitespace();
      var key := ParseString();
      if key == None {
        return None;
      }
      SkipWhitespace();
      if content[offset] != COLON {
        return None;
      }
      Behind(content, offset);
      offset := offset + 1;
      SkipWhitespace();
      var value := ParseValue();
      if value == None {
        return None;
      }
      r := Some(Member(key.value, value.value));
    }
  }

  lemma NoLiteral(content: Text, offset: nat)
    requires Terminated(content) && offset < |content| && content[offset] != QUOTE
    ensures JsonStrings.ParseString(From(content, offset)) == Fail
  {
  }

  /** What a literal at `offset` is read as. */
  lemma LiteralRead(content: Text, offset: nat)
    requires Terminated(content) && offset < |content| && content[offset] == QUOTE
    ensures var t := content[offset + 1..];
      match FindQuote(t)
      case None => JsonStrings.ParseString(From(content, offset)) == Fail
      case Some(n) =>
        && offset + n + 2 < |content|
        && JsonStrings.ParseString(From(content, offset)) ==
             match Unescape(t, n)
             case None => Fail
             case Some(bytes) => Ok(CString(bytes), From(content, offset + n + 2))
  {
    hide FindQuote, Unescape, CString;
    var s, t := From(content, offset), content[offset + 1..];
    assert s[1..] == t;
    if FindQuote(t).Some? {
      var n := FindQuote(t).value;
      assert t[n] == content[offset + 1 + n];
      assert t[n + 1..] == content[offset + n + 2..];
    }
  }

  lemma Copies(s: Text, i: nat)
    requires i < 63 && i < |s| && NumberRun(s, 63) == i + NumberRun(s[i..], 63 - i)
    ensures if IsNumberByte(s[i]) then NumberRun(s, 63) == i + 1 + NumberRun(s[i + 1..], 62 - i)
            else NumberRun(s, 63) == i
  {
    assert s[i..][1..] == s[i + 1..];
  }

  ghost function Before<T>(front: seq<T>, r: Parsed<seq<T>>): Parsed<seq<T>> {
    match r
    case Fail => Fail
    case Ok(back, rest) => Ok(front + back, rest)
  }

  lemma BeforeNothing<T>(r: Parsed<seq<T>>)
    ensures Before([], r) == r
  {
    if r.Ok? {
      assert [] + r.value == r.value;
    }
  }

  lemma OpensArray(libc: Libc, content: Text, offset: nat, depth: nat)
    requires Terminated(content) && offset < |content| && content[offset] == OPEN_ARRAY
    ensures offset + 1 < |content|
    ensures var t := JsonText.SkipWhitespace(From(content, offset + 1));
      JsonText.ParseValue(libc, From(content, offset), depth) ==
        if depth >= NESTING_LIMIT then Fail
        else if t[0] == CLOSE_ARRAY then Ok(Array([]), t[1..])
        else match JsonText.ParseItems(libc, t, depth + 1)
          case Fail => Fail
          case Ok(items, rest) => Ok(Array(items), rest)
  {
    hide Terminated, From;
    Behind(content, offset);
    JsonSteps.ArrayStep(libc, From(content, offset), JsonText.SkipWhitespace(From(content, offset + 1)), depth);
  }

  lemma OpensObject(libc: Libc, content: Text, offset: nat, depth: nat)
    requires Terminated(content) && offset < |content| && content[offset] == OPEN_OBJECT
    ensures offset + 1 < |content|
    ensures var t := JsonText.SkipWhitespace(From(content, offset + 1));
      JsonText.ParseValue(libc, From(content, offset), depth) ==
        if depth >= NESTING_LIMIT then Fail
        else if t[0] == CLOSE_OBJECT then Ok(Object([]), t[1..])
        else match JsonText.ParseMembers(libc, t, depth + 1)
          case Fail => Fail
          case Ok(members, rest) => Ok(Object(members), rest)
  {
    hide Terminated, From;
    Behind(content, offset);
    JsonSteps.ObjectStep(libc, From(content, offset), JsonText.SkipWhitespace(From(content, offset + 1)), depth);
  }

  lemma BeforeTwice<T>(front: seq<T>, x: T, r: Parsed<seq<T>>)
    ensures Before(front, Before([x], r)) == Before(front + [x], r)
  {
    if r.Ok? {
      Regroup(front, [x], r.value);
    }
  }

  lemma NextItemStep(libc: Libc, u: Text, depth: nat, item: Json, rest: Text, w: Text)
    requires Terminated(u) && JsonText.ParseValue(libc, JsonText.SkipWhitespace(u), depth) == Ok(item, rest)
    requires JsonText.SkipWhitespace(rest) == w
    ensures JsonText.ParseItems(libc, u, depth) ==
      if w[0] == COMMA then Before([item], JsonText.ParseItems(libc, w[1..], depth))
      else if w[0] == CLOSE_ARRAY then Ok([item], w[1..])
      else Fail
  {
    hide JsonText.ParseValue;
    hide Terminated;
  }

  lemma NextItem(libc: Libc, front: seq<Json>, u: Text, depth: nat, item: Json, rest: Text, w: Text)
    requires Terminated(u) && JsonText.ParseValue(libc, JsonText.SkipWhitespace(u), depth) == Ok(item, rest)
    requires JsonText.SkipWhitespace(rest) == w
    ensures Before(front, JsonText.ParseItems(libc, u, depth)) ==
      if w[0] == COMMA then Before(front + [item], JsonText.ParseItems(libc, w[1..], depth))
      else if w[0] == CLOSE_ARRAY then Ok(front + [item], w[1..])
      else Fail
  {
    hide JsonText.ParseItems, JsonText.ParseMembers, JsonText.ParseMember, JsonText.ParseValue, JsonText.SkipWhitespace;
    NextItemStep(libc, u, depth, item, rest, w);
    if w[0] == COMMA {
      BeforeTwice(front, item, JsonText.ParseItems(libc, w[1..], depth));
    }
  }

  lemma NextMemberStep(libc: Libc, u: Text, depth: nat, member: Member, rest: Text, w: Text)
    requires Terminated(u) && JsonText.ParseMember(libc, u, depth) == Ok(member, rest)
    requires JsonText.SkipWhitespace(rest) == w
    ensures JsonText.ParseMembers(libc, u, depth) ==
      if w[0] == COMMA then Before([member], JsonText.ParseMembers(libc, w[1..], depth))
      else if w[0] == CLOSE_OBJECT then Ok([member], w[1..])
      else Fail
  {
    hide JsonText.ParseMember;
    hide Terminated;
  }

  lemma NextMember(libc: Libc, front: seq<Member>, u: Text, depth: nat, member: Member, rest: Text, w: Text)
    requires Terminated(u) && JsonText.ParseMember(libc, u, depth) == Ok(member, rest)
    requires JsonText.SkipWhitespace(rest) == w
    ensures Before(front, JsonText.ParseMembers(libc, u, depth)) ==
      if w[0] == COMMA then Before(front + [member], JsonText.ParseMembers(libc, w[1..], depth))
      else if w[0] == CLOSE_OBJECT then Ok(front + [member], w[1..])
      else Fail
  {
    hide JsonText.ParseItems, JsonText.ParseMembers, JsonText.ParseMember, JsonText.ParseValue, JsonText.SkipWhitespace;
    NextMemberStep(libc, u, depth, member, rest, w);
    if w[0] == COMMA {
      BeforeTwice(front, member, JsonText.ParseMembers(libc, w[1..], depth));
    }
  }

  /** Parses a C string: a byte order mark and blanks are skipped, then one value is read. */
  method Parse(libc: Libc, text: Text, requireEnd: bool) returns (r: Option<Json>)
    requires 0 !in text
    ensures r == ParseDocument(libc, text, requireEnd)
  {
    hide JsonText.ParseValue, JsonText.SkipWhitespace;
    var p := new ParseBuffer(text + [0], libc);
    assert p.content[0..] == p.content;
    if p.offset + 4 < |p.content| && p.content[..3] == BYTE_ORDER_MARK {
      p.offset := p.offset + 3;
    }
    p.SkipWhitespace();
    r := p.ParseValue();
    if r == None {
      return;
    }
    if requireEnd {
      p.SkipWhitespace();
      if p.content[p.offset] != 0 {
        return None;
      }
    }
  }
}
