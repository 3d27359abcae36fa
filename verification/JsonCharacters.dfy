/** Characters and their encodings as the standards define them, without the code: the escapes of
    RFC 8259, section 7, UTF-16 (RFC 2781) and UTF-8 (RFC 3629). */
module JsonCharacters {
  import opened Bytes

  /** The bytes of an ASCII text. */
  function Ascii(s: string): (r: Text)
    requires forall i :: 0 <= i < |s| ==> s[i] as int < 128
    ensures |r| == |s| && forall i :: 0 <= i < |s| ==> r[i] == s[i] as int
  {
    seq(|s|, i requires 0 <= i < |s| => s[i] as int)
  }

  // ----- Escapes

  /** The digit `b` has the value `d`. */
  predicate DigitIs(b: byte, d: nat)
    requires d < 16
  {
    b == "0123456789abcdef"[d] as int || b == "0123456789ABCDEF"[d] as int
  }

  /** `hex` are the digits of `code`, the most significant first. */
  ghost predicate Spells(hex: Text, code: nat) {
    |hex| == 4 && exists a: nat, b: nat, c: nat, d: nat ::
      DigitsOf(hex, a, b, c, d) && code == 0x1000 * a + 0x100 * b + 0x10 * c + d
  }

  predicate DigitsOf(hex: Text, a: nat, b: nat, c: nat, d: nat)
    requires |hex| == 4
  {
    && a < 16 && DigitIs(hex[0], a) && b < 16 && DigitIs(hex[1], b)
    && c < 16 && DigitIs(hex[2], c) && d < 16 && DigitIs(hex[3], d)
  }

  /** What a backslash and a letter stand for. */
  function EscapeCode(letter: char): Option<byte> {
    match letter
    case '"' => Some(0x22)
    case '\\' => Some(0x5C)
    case '/' => Some(0x2F)
    case 'b' => Some(0x08)
    case 'f' => Some(0x0C)
    case 'n' => Some(0x0A)
    case 'r' => Some(0x0D)
    case 't' => Some(0x09)
    case _ => None
  }

  // ----- UTF-16

  /** The code units of a character (RFC 2781, section 2.1). */
  function Utf16(cp: nat): (r: seq<nat>) {
    if cp < 0x10000 then [cp] else [0xD800 + (cp - 0x10000) / 0x400, 0xDC00 + (cp - 0x10000) % 0x400]
  }

  predicate IsPair(high: nat, low: nat) {
    0xD800 <= high <= 0xDBFF && 0xDC00 <= low <= 0xDFFF
  }

  lemma Utf16Pairs(cp: nat)
    requires 0x10000 <= cp <= 0x10FFFF
    ensures var u := Utf16(cp); |u| == 2 && IsPair(u[0], u[1])
  {
  }

  /** Every pair encodes one character. */
  lemma PairHasCode(high: nat, low: nat)
    requires IsPair(high, low)
    ensures exists cp :: 0x10000 <= cp <= 0x10FFFF && Utf16(cp) == [high, low]
    ensures forall cp, cp' :: 0x10000 <= cp && 0x10000 <= cp' && Utf16(cp) == Utf16(cp') ==> cp == cp'
  {
    var cp := 0x10000 + (high - 0xD800) * 0x400 + (low - 0xDC00);
    assert Utf16(cp) == [high, low];
  }

  // ----- UTF-8

  predicate Tail(b: byte) { 0x80 <= b <= 0xBF }

  /** The syntax of UTF-8 byte sequences of RFC 3629, section 4. */
  predicate IsUtf8Char(s: Text) {
    || (|s| == 1 && s[0] <= 0x7F)
    || (|s| == 2 && 0xC2 <= s[0] <= 0xDF && Tail(s[1]))
    || (|s| == 3 && Tail(s[1]) && Tail(s[2])
        && ((s[0] == 0xE0 && 0xA0 <= s[1]) || 0xE1 <= s[0] <= 0xEC
            || (s[0] == 0xED && s[1] <= 0x9F) || 0xEE <= s[0] <= 0xEF))
    || (|s| == 4 && Tail(s[1]) && Tail(s[2]) && Tail(s[3])
        && ((s[0] == 0xF0 && 0x90 <= s[1]) || 0xF1 <= s[0] <= 0xF3 || (s[0] == 0xF4 && s[1] <= 0x8F)))
  }

  /** The character number such a sequence stands for (RFC 3629, section 3). */
  function Utf8Decode(s: Text): nat
    requires IsUtf8Char(s)
  {
    if |s| == 1 then s[0]
    else if |s| == 2 then (s[0] - 0xC0) as int * 64 + (s[1] - 0x80) as int
    else if |s| == 3 then (s[0] - 0xE0) as int * 4096 + (s[1] - 0x80) as int * 64 + (s[2] - 0x80) as int
    else (s[0] - 0xF0) as int * 262144 + (s[1] - 0x80) as int * 4096 + (s[2] - 0x80) as int * 64 + (s[3] - 0x80) as int
  }
}
