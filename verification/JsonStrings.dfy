/** String literals as cJSON reads them (src/extern/cJSON.c): a first pass finds the closing quote
    and an upper bound for the output, a second pass decodes. Bit operations are written as the
    arithmetic they amount to. */
module JsonStrings {
  import opened Bytes
  import opened JsonCharacters

  const QUOTE: byte := 34
  const BACKSLASH: byte := 92
  const LOWER_U: byte := 117

  // ----- Hexadecimal digits and code points

  function HexValue(c: byte): (r: nat)
    ensures r <= 16
  {
    if 48 <= c <= 57 then c - 48
    else if 65 <= c <= 70 then c - 55
    else if 97 <= c <= 102 then c - 87
    else 16
  }

  predicate IsHex4(s: Text) {
    |s| == 4 && forall i :: 0 <= i < 4 ==> HexValue(s[i]) < 16
  }

  /** The value of four hexadecimal digits, 0 if one of them is none. */
  function Hex4(s: Text): (r: nat)
    requires |s| == 4
    ensures r <= 0xffff
  {
    if !IsHex4(s) then 0
    else ((HexValue(s[0]) * 16 + HexValue(s[1])) * 16 + HexValue(s[2])) * 16 + HexValue(s[3])
  }

  predicate IsHigh(code: nat) { 0xD800 <= code <= 0xDBFF }
  predicate IsLow(code: nat) { 0xDC00 <= code <= 0xDFFF }

  /** The code point of a surrogate pair. */
  function Combine(high: nat, low: nat): (r: nat)
    ensures 0x10000 <= r <= 0x10FFFF
  {
    0x10000 + high % 0x400 * 0x400 + low % 0x400
  }

  datatype Literal = Literal(codepoint: nat, length: nat)

  /** A UTF-16 literal of one or two \uXXXX sequences at the start of `t`, of which `n` bytes belong
      to the string. */
  function ReadLiteral(t: Text, n: int): (r: Option<Literal>)
    requires |t| > n
    ensures r.Some? ==> r.value.length <= n && r.value.codepoint <= 0x10FFFF
    ensures r.Some? ==> r.value.length == if r.value.codepoint >= 0x10000 then 12 else 6
    ensures r.Some? ==> !IsHigh(r.value.codepoint) && !IsLow(r.value.codepoint)
  {
    if n < 6 then None
    else
      var first := Hex4(t[2..6]);
      if IsLow(first) then None
      else if !IsHigh(first) then Some(Literal(first, 6))
      else if n - 6 < 6 || t[6] != BACKSLASH || t[7] != LOWER_U then None
      else
        var second := Hex4(t[8..12]);
        if !IsLow(second) then None else Some(Literal(Combine(first, second), 12))
  }

  // ----- UTF-8

  function Utf8Length(cp: nat): (r: nat)
    ensures 1 <= r <= 4
  {
    if cp < 0x80 then 1 else if cp < 0x800 then 2 else if cp < 0x10000 then 3 else 4
  }

  /** The bytes the source stores for a code point. */
  function Utf8(cp: nat): (r: Text)
    requires cp <= 0x10FFFF
    ensures |r| == Utf8Length(cp)
  {
    if cp < 0x80 then [cp]
    else if cp < 0x800 then [0xC0 + cp / 64, 0x80 + cp % 64]
    else if cp < 0x10000 then [0xE0 + cp / 64 / 64, 0x80 + cp / 64 % 64, 0x80 + cp % 64]
    else [0xF0 + cp / 64 / 64 / 64, 0x80 + cp / 64 / 64 % 64, 0x80 + cp / 64 % 64, 0x80 + cp % 64]
  }

  /** Every code point a literal can denote is stored as its UTF-8 sequence. */
  lemma Utf8IsRfc3629(cp: nat)
    requires cp <= 0x10FFFF && !IsHigh(cp) && !IsLow(cp)
    ensures IsUtf8Char(Utf8(cp)) && Utf8Decode(Utf8(cp)) == cp
  {
  }

  // ----- What the standards say of these

  lemma HexValueIsDigit(b: byte, d: nat)
    requires d < 16
    ensures HexValue(b) == d <==> DigitIs(b, d)
  {
  }

  /** Four bytes are digits exactly if they spell a number, which is the one they are read as. */
  lemma Hex4Spells(hex: Text)
    requires IsHex4(hex)
    ensures Spells(hex, Hex4(hex))
  {
    var a, b, c, d := HexValue(hex[0]), HexValue(hex[1]), HexValue(hex[2]), HexValue(hex[3]);
    HexValueIsDigit(hex[0], a);
    HexValueIsDigit(hex[1], b);
    HexValueIsDigit(hex[2], c);
    HexValueIsDigit(hex[3], d);
    assert DigitsOf(hex, a, b, c, d);
  }

  lemma SpelledIsHex4(hex: Text, code: nat)
    requires Spells(hex, code)
    ensures IsHex4(hex) && Hex4(hex) == code
  {
    hide HexValue, DigitIs;
    var a: nat, b: nat, c: nat, d: nat :|
      DigitsOf(hex, a, b, c, d) && code == 0x1000 * a + 0x100 * b + 0x10 * c + d;
    HexValueIsDigit(hex[0], a);
    HexValueIsDigit(hex[1], b);
    HexValueIsDigit(hex[2], c);
    HexValueIsDigit(hex[3], d);
  }

  lemma ShortEscapeIsRfc8259(letter: byte)
    ensures ShortEscape(letter) == EscapeCode(letter as char)
  {
  }

  /** A surrogate pair is read as the character it encodes. */
  lemma CombineIsUtf16(cp: nat)
    requires 0x10000 <= cp <= 0x10FFFF
    ensures var u := Utf16(cp); IsHigh(u[0]) && IsLow(u[1]) && Combine(u[0], u[1]) == cp
  {
  }

  lemma PairIsUtf16(high: nat, low: nat)
    ensures IsHigh(high) && IsLow(low) <==> IsPair(high, low)
    ensures IsPair(high, low) ==> Utf16(Combine(high, low)) == [high, low]
  {
  }

  // ----- The two passes

  /** First pass: where the closing quote is, a backslash hiding the byte behind it. */
  function FindQuote(t: Text): (r: Option<nat>)
    ensures r.Some? ==> r.value < |t| && t[r.value] == QUOTE
  {
    if t == [] then None
    else if t[0] == QUOTE then Some(0)
    else if t[0] == BACKSLASH then
      if |t| < 2 then None
      else match FindQuote(t[2..])
        case None => None
        case Some(n) => Some(n + 2)
    else match FindQuote(t[1..])
      case None => None
      case Some(n) => Some(n + 1)
  }

  /** How many backslashes the first pass skips in the `n` bytes before the quote. */
  function Pairs(t: Text, n: nat): (r: nat)
    requires n <= |t|
    ensures r <= n
  {
    if n == 0 then 0
    else if t[0] == BACKSLASH then if n < 2 then 0 else 1 + Pairs(t[2..], n - 2)
    else Pairs(t[1..], n - 1)
  }

  /** What a one-letter escape stands for. */
  function ShortEscape(letter: byte): Option<byte> {
    if letter == 98 then Some(8)
    else if letter == 102 then Some(12)
    else if letter == 110 then Some(10)
    else if letter == 114 then Some(13)
    else if letter == 116 then Some(9)
    else if letter == QUOTE || letter == BACKSLASH || letter == 47 then Some(letter)
    else None
  }

  /** Second pass: the bytes denoted by the first `n` bytes of `t`. It takes \uXXXX as one escape
      where the first pass took \u, so it may start an escape at the last byte and end one past it. */
  function Unescape(t: Text, n: int): (r: Option<Text>)
    requires |t| > n
    decreases n
  {
    if n <= 0 then Some([])
    else if t[0] != BACKSLASH then Prepend([t[0]], Unescape(t[1..], n - 1))
    else if t[1] == LOWER_U then
      match ReadLiteral(t, n)
      case None => None
      case Some(l) => Prepend(Utf8(l.codepoint), Unescape(t[l.length..], n - l.length))
    else match ShortEscape(t[1])
      case None => None
      case Some(b) => Prepend([b], Unescape(t[2..], n - 2))
  }

  function Prepend(front: Text, r: Option<Text>): Option<Text> {
    match r
    case None => None
    case Some(back) => Some(front + back)
  }

  lemma PrependTwice(a: Text, b: Text, r: Option<Text>)
    ensures Prepend(a, Prepend(b, r)) == Prepend(a + b, r)
  {
    if r.Some? {
      Regroup(a, b, r.value);
    }
  }

  /** What C sees of bytes that may contain a NUL. */
  function CString(s: Text): (r: Text)
    ensures r <= s && 0 !in r
  {
    if s == [] || s[0] == 0 then [] else [s[0]] + CString(s[1..])
  }

  lemma {:induction false} CStringOfNulFree(s: Text)
    requires 0 !in s
    ensures CString(s) == s
  {
    if s != [] {
      CStringOfNulFree(s[1..]);
    }
  }

  /** The input ends with a NUL byte. */
  predicate Terminated(s: Text) {
    |s| > 0 && s[|s| - 1] == 0
  }

  datatype Parsed<+T> = Fail | Ok(value: T, rest: Text)

  /** A string literal at the start of `s`. */
  function ParseString(s: Text): (r: Parsed<Text>)
    ensures r.Ok? ==> |r.rest| < |s| && (Terminated(s) ==> Terminated(r.rest))
  {
    if s == [] || s[0] != QUOTE then Fail
    else
      var t := s[1..];
      match FindQuote(t)
      case None => Fail
      case Some(n) =>
        match Unescape(t, n)
        case None => Fail
        case Some(bytes) => Ok(CString(bytes), t[n + 1..])
  }
}
