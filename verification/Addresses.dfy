/** The textual addresses of src/mgmt/manager/project/api/utils.py: dotted IPv4 text, the MAC
    derived from it, and the list of a cluster's gateway addresses. */
module Addresses {
  import opened Arithmetic
  import opened Bytes

  const TWO_TO_THE_32: nat := 0x1_0000_0000
  const TWO_TO_THE_48: nat := 0x1_0000_0000_0000

  /** Python's `|` on non-negative integers. */
  function BitOr(a: nat, b: nat): (r: nat)
    decreases a + b
  {
    if a == 0 then b
    else if b == 0 then a
    else 2 * BitOr(a / 2, b / 2) + if a % 2 == 1 || b % 2 == 1 then 1 else 0
  }

  function Pow2(k: nat): (r: nat)
    ensures r > 0
  {
    if k == 0 then 1 else 2 * Pow2(k - 1)
  }

  /** Numbers without common bits are added by `|`. */
  lemma {:induction false} OrDisjoint(a: nat, b: nat, k: nat)
    requires a < Pow2(k) && b % Pow2(k) == 0
    ensures BitOr(a, b) == a + b
    ensures BitOr(b, a) == a + b
    decreases k
  {
    if k > 0 && a > 0 && b > 0 {
      Halve(b, Pow2(k - 1));
      OrDisjoint(a / 2, b / 2, k - 1);
    }
  }

  lemma Halve(b: nat, p: nat)
    requires p > 0 && b % (2 * p) == 0
    ensures b % 2 == 0 && (b / 2) % p == 0
  {
    var q := b / (2 * p);
    assert b == 2 * (p * q);
    assert b / 2 == p * q;
    DivModUnique(p * q, p, q, 0);
  }

  lemma PowersOfTwo()
    ensures Pow2(8) == 0x100 && Pow2(32) == TWO_TO_THE_32
  {
    assert Pow2(8) == 0x100;
    assert Pow2(16) == 0x10000;
    assert Pow2(24) == 0x100_0000;
  }

  // ----- Digits

  const DIGITS: string := "0123456789abcdef"

  /** The value of a digit, 16 for any other character. */
  function DigitValue(c: char): (d: nat)
    ensures d <= 16
  {
    if '0' <= c <= '9' then c as int - '0' as int
    else if 'a' <= c <= 'f' then c as int - 'a' as int + 10
    else 16
  }

  predicate IsNumeral(s: string, base: nat) {
    forall c :: c in s ==> DigitValue(c) < base
  }

  /** Python's `int(s, base)` on plain digits; None where it raises. */
  function Parse(s: string, base: nat): Option<nat> {
    if s == "" || !IsNumeral(s, base) then None else Some(Value(s, base))
  }

  function Value(s: string, base: nat): nat {
    if s == "" then 0 else base * Value(s[..|s| - 1], base) + DigitValue(s[|s| - 1])
  }

  function Decimal(n: nat): (s: string)
    ensures s != "" && IsNumeral(s, 10)
  {
    if n < 10 then [DIGITS[n]] else Decimal(n / 10) + [DIGITS[n % 10]]
  }

  /** `k` hexadecimal digits, most significant first. */
  function Hex(n: nat, k: nat): (s: string)
    ensures |s| == k && IsNumeral(s, 16)
  {
    if k == 0 then "" else Hex(n / 16, k - 1) + [DIGITS[n % 16]]
  }

  lemma {:induction false} DecimalRoundTrip(n: nat)
    ensures Parse(Decimal(n), 10) == Some(n)
  {
    hide Value;
    if n >= 10 {
      DecimalRoundTrip(n / 10);
      AddDigit(Decimal(n / 10), n % 10);
    } else {
      AddDigit("", n);
      assert "" + [DIGITS[n]] == [DIGITS[n]];
    }
  }

  lemma AddDigit(s: string, d: nat)
    requires d < 10
    ensures Value(s + [DIGITS[d]], 10) == 10 * Value(s, 10) + d
    ensures s == "" ==> Value(s, 10) == 0
  {
    var t := s + [DIGITS[d]];
    assert t[..|t| - 1] == s && t[|t| - 1] == DIGITS[d];
    assert DigitValue(DIGITS[d]) == d;
  }

  lemma HexByteRoundTrip(n: nat)
    requires n < 256
    ensures Parse(Hex(n, 2), 16) == Some(n)
  {
    HexDigitsValue(n, 2);
    assert Pow16(2) == 256;
  }

  function Pow16(k: nat): (r: nat)
    ensures r > 0
  {
    if k == 0 then 1 else 16 * Pow16(k - 1)
  }

  lemma {:induction false} HexDigitsValue(n: nat, k: nat)
    requires n < Pow16(k)
    ensures Value(Hex(n, k), 16) == n
  {
    if k > 0 {
      HexDigitsValue(n / 16, k - 1);
      var s := Hex(n, k);
      assert s[..k - 1] == Hex(n / 16, k - 1) && s[k - 1] == DIGITS[n % 16];
    }
  }

  // ----- Separated bytes

  /** The pieces of `s` between separators. */
  function Split(s: string, sep: char): (r: seq<string>)
    ensures |r| > 0
  {
    if s == "" then [""]
    else
      var rest := Split(s[1..], sep);
      if s[0] == sep then [""] + rest else [[s[0]] + rest[0]] + rest[1..]
  }

  /** `sep.join(pieces)`. */
  function Join(pieces: seq<string>, sep: char): string {
    if |pieces| == 0 then "" else if |pieces| == 1 then pieces[0] else pieces[0] + ([sep] + Join(pieces[1..], sep))
  }

  lemma {:induction false} SplitPiece(piece: string, s: string, sep: char)
    requires sep !in piece
    ensures Split(piece + ([sep] + s), sep) == [piece] + Split(s, sep)
    ensures Split(piece, sep) == [piece]
  {
    if piece == "" {
      assert (piece + ([sep] + s))[1..] == s;
    } else {
      SplitPiece(piece[1..], s, sep);
      assert (piece + ([sep] + s))[1..] == piece[1..] + ([sep] + s);
      assert [piece[0]] + piece[1..] == piece;
    }
  }

  lemma {:induction false} SplitJoin(pieces: seq<string>, sep: char)
    requires |pieces| > 0 && forall p :: p in pieces ==> sep !in p
    ensures Split(Join(pieces, sep), sep) == pieces
  {
    if |pieces| == 1 {
      SplitPiece(pieces[0], "", sep);
    } else {
      SplitJoin(pieces[1..], sep);
      SplitPiece(pieces[0], Join(pieces[1..], sep), sep);
    }
  }

  /** `reduce(lambda a, b: a<<8 | b, map(int, pieces))`, in some base; None where it raises. */
  function Reduce(acc: nat, pieces: seq<string>, base: nat): Option<nat>
    decreases |pieces|
  {
    if pieces == [] then Some(acc)
    else match Parse(pieces[0], base)
      case None => None
      case Some(b) => Reduce(BitOr(acc * 256, b), pieces[1..], base)
  }

  /** The number with these base-256 digits after `acc`. */
  function Big(acc: nat, bytes: seq<nat>): nat
    decreases |bytes|
  {
    if bytes == [] then acc else Big(acc * 256 + bytes[0], bytes[1..])
  }

  lemma ShiftIn(acc: nat, b: nat)
    requires b < 256
    ensures BitOr(acc * 256, b) == acc * 256 + b
  {
    PowersOfTwo();
    assert (acc * 256) % 256 == 0;
    OrDisjoint(b, acc * 256, 8);
  }

  lemma {:induction false} ReduceIsBig(acc: nat, pieces: seq<string>, base: nat, bytes: seq<nat>)
    requires |pieces| == |bytes|
    requires forall i :: 0 <= i < |bytes| ==> bytes[i] < 256 && Parse(pieces[i], base) == Some(bytes[i])
    ensures Reduce(acc, pieces, base) == Some(Big(acc, bytes))
    decreases |pieces|
  {
    if pieces != [] {
      ShiftIn(acc, bytes[0]);
      ReduceIsBig(acc * 256 + bytes[0], pieces[1..], base, bytes[1..]);
    }
  }

  // ----- IPv4 addresses

  function IpToInt(s: string): Option<nat> {
    var pieces := Split(s, '.');
    match Parse(pieces[0], 10)
    case None => None
    case Some(a) => Reduce(a, pieces[1..], 10)
  }

  /** The bytes of a 32-bit address: `ipint>>n & 0xFF` for n = 24, 16, 8, 0. */
  function Octets(n: nat): (r: seq<nat>)
    ensures |r| == 4 && forall i :: 0 <= i < 4 ==> r[i] < 256
  {
    [n / 0x100_0000 % 256, n / 0x10000 % 256, n / 0x100 % 256, n % 256]
  }

  function IpText(n: nat): string {
    Join(seq(4, i requires 0 <= i < 4 => Decimal(Octets(n)[i])), '.')
  }

  lemma OctetsAreBytes(n: nat)
    ensures Octets(n) == Base256(n, 4)
  {
    assert Base256(n, 4) == Base256(n / 256, 3) + [n % 256];
    assert Base256(n / 256, 3) == Base256(n / 256 / 256, 2) + [n / 256 % 256];
    assert Base256(n / 256 / 256, 2) == Base256(n / 256 / 256 / 256, 1) + [n / 256 / 256 % 256];
    assert Base256(n / 256 / 256 / 256, 1) == [] + [n / 256 / 256 / 256 % 256];
    assert n / 256 / 256 == n / 0x10000 && n / 0x10000 / 256 == n / 0x100_0000;
  }

  /** Reading an address text back gives the address. */
  lemma IpRoundTrip(n: nat)
    requires n < TWO_TO_THE_32
    ensures IpToInt(IpText(n)) == Some(n)
  {
    var o := Octets(n);
    var pieces := seq(4, i requires 0 <= i < 4 => Decimal(o[i]));
    forall p | p in pieces
      ensures '.' !in p
    {
      assert IsNumeral(p, 10) && DigitValue('.') == 16;
    }
    SplitJoin(pieces, '.');
    forall i | 0 <= i < 4
      ensures Parse(pieces[i], 10) == Some(o[i])
    {
      DecimalRoundTrip(o[i]);
    }
    ReduceIsBig(o[0], pieces[1..], 10, o[1..]);
    OctetsAreBytes(n);
    assert Big(0, o) == Big(o[0], o[1..]);
    assert Pow256(2) == 0x10000 && Pow256(4) == TWO_TO_THE_32;
    Base256Value(n, 4);
  }

  /** Four numbers below 256, the most significant first, without leading zeros. */
  lemma IpShape(n: nat)
    requires n < TWO_TO_THE_32
    ensures var pieces, o := Split(IpText(n), '.'), Octets(n);
      && |pieces| == 4 && IpText(n) == Join(pieces, '.')
      && n == o[0] * 0x100_0000 + o[1] * 0x10000 + o[2] * 0x100 + o[3]
      && forall i :: 0 <= i < 4 ==> Parse(pieces[i], 10) == Some(o[i]) && (|pieces[i]| > 1 ==> pieces[i][0] != '0')
  {
    var o := Octets(n);
    OctetsSum(n);
    hide Octets, Parse, Decimal, Join, Split;
    var pieces := seq(4, i requires 0 <= i < 4 => Decimal(o[i]));
    forall p | p in pieces
      ensures '.' !in p
    {
      assert IsNumeral(p, 10) && DigitValue('.') == 16;
    }
    SplitJoin(pieces, '.');
    forall i | 0 <= i < 4
      ensures Parse(pieces[i], 10) == Some(o[i]) && (|pieces[i]| > 1 ==> pieces[i][0] != '0')
    {
      DecimalRoundTrip(o[i]);
      NoLeadingZero(o[i]);
    }
  }

  lemma OctetsSum(n: nat)
    requires n < TWO_TO_THE_32
    ensures var o := Octets(n); n == o[0] * 0x100_0000 + o[1] * 0x10000 + o[2] * 0x100 + o[3]
  {
    var a, b, c := n / 0x100, n / 0x10000, n / 0x100_0000;
    assert n == 0x100 * a + n % 0x100;
    assert a == 0x100 * b + a % 0x100;
    assert b == 0x100 * c + b % 0x100;
  }

  lemma {:induction false} NoLeadingZero(n: nat)
    ensures |Decimal(n)| > 1 ==> Decimal(n)[0] != '0'
    ensures n > 0 ==> Decimal(n)[0] != '0'
  {
    if n >= 10 {
      NoLeadingZero(n / 10);
    }
  }

  // ----- MAC addresses

  /** The twelve digits of a 48-bit number, two by two. */
  function HexPairs(m: nat): (r: seq<string>)
    ensures |r| == 6
  {
    var h := Hex(m, 12);
    seq(6, i requires 0 <= i < 6 => h[2 * i..2 * i + 2])
  }

  function IntToMac(m: nat): string
    requires m < TWO_TO_THE_48
  {
    Join(HexPairs(m), ':')
  }

  function MacToInt(s: string): Option<nat> {
    var pieces := Split(s, ':');
    var pieces := if |pieces| > 6 then pieces[..6] else pieces;
    match Parse(pieces[0], 16)
    case None => None
    case Some(a) => Reduce(a, pieces[1..], 16)
  }

  /** The last two of the digits are the last byte. */
  lemma HexSplit(n: nat, k: nat)
    ensures Hex(n, k + 2) == Hex(n / 256, k) + Hex(n % 256, 2)
  {
    var b := n % 256;
    assert Hex(b, 2) == Hex(b / 16, 1) + [DIGITS[b % 16]];
    assert Hex(b / 16, 1) == Hex(b / 16 / 16, 0) + [DIGITS[b / 16 % 16]];
    assert Hex(n, k + 2) == Hex(n / 16, k + 1) + [DIGITS[n % 16]];
    assert Hex(n / 16, k + 1) == Hex(n / 16 / 16, k) + [DIGITS[n / 16 % 16]];
    assert n / 16 / 16 == n / 256 && n / 16 % 16 == b / 16;
  }

  /** The bytes of a number, as many as `k`. */
  function Base256(n: nat, k: nat): (r: seq<nat>)
    ensures |r| == k && forall i :: 0 <= i < k ==> r[i] < 256
  {
    if k == 0 then [] else Base256(n / 256, k - 1) + [n % 256]
  }

  function Pow256(k: nat): (r: nat)
    ensures r > 0
  {
    if k == 0 then 1 else 256 * Pow256(k - 1)
  }

  lemma {:induction false} BigAppend(acc: nat, bytes: seq<nat>, b: nat)
    ensures Big(acc, bytes + [b]) == Big(acc, bytes) * 256 + b
    decreases |bytes|
  {
    if bytes == [] {
      assert Big(acc, [b]) == Big(acc * 256 + b, [b][1..]);
    } else {
      BigAppend(acc * 256 + bytes[0], bytes[1..], b);
      assert (bytes + [b])[1..] == bytes[1..] + [b];
    }
  }

  lemma {:induction false} Base256Value(n: nat, k: nat)
    requires n < Pow256(k)
    ensures Big(0, Base256(n, k)) == n
  {
    if k > 0 {
      Base256Value(n / 256, k - 1);
      BigAppend(0, Base256(n / 256, k - 1), n % 256);
    }
  }

  lemma Slices(a: string, b: string, i: nat)
    requires |b| == 2 && i <= |a|
    ensures (a + b)[i..i + 2] == if i == |a| then b else if i + 2 <= |a| then a[i..i + 2] else a[i..] + b[..1]
  {
  }

  lemma FrontPair(n: nat, k: nat, i: nat)
    requires i < k
    ensures Hex(n, 2 * k + 2)[2 * i..2 * i + 2] == Hex(n / 256, 2 * k)[2 * i..2 * i + 2]
  {
    hide Hex;
    HexSplit(n, 2 * k);
    Slices(Hex(n / 256, 2 * k), Hex(n % 256, 2), 2 * i);
  }

  lemma LastPair(n: nat, k: nat)
    ensures Hex(n, 2 * k + 2)[2 * k..2 * k + 2] == Hex(n % 256, 2)
  {
    hide Hex;
    HexSplit(n, 2 * k);
    Slices(Hex(n / 256, 2 * k), Hex(n % 256, 2), 2 * k);
  }

  /** The pairs of digits are the bytes. */
  lemma {:induction false} PairsAreBytes(n: nat, k: nat, i: nat)
    requires i < k
    ensures Hex(n, 2 * k)[2 * i..2 * i + 2] == Hex(Base256(n, k)[i], 2)
    decreases k
  {
    hide Hex;
    if i < k - 1 {
      FrontPair(n, k - 1, i);
      PairsAreBytes(n / 256, k - 1, i);
    } else {
      LastPair(n, k - 1);
    }
  }

  /** Reading a MAC text back gives the number, so the text determines it. */
  lemma MacRoundTrip(m: nat)
    requires m < TWO_TO_THE_48
    ensures MacToInt(IntToMac(m)) == Some(m)
  {
    var pieces, bytes := HexPairs(m), Base256(m, 6);
    forall i | 0 <= i < 6
      ensures pieces[i] == Hex(bytes[i], 2) && Parse(pieces[i], 16) == Some(bytes[i])
    {
      PairsAreBytes(m, 6, i);
      HexByteRoundTrip(bytes[i]);
    }
    forall p | p in pieces
      ensures ':' !in p
    {
      assert IsNumeral(p, 16) && DigitValue(':') == 16;
    }
    SplitJoin(pieces, ':');
    ReduceIsBig(bytes[0], pieces[1..], 16, bytes[1..]);
    assert Big(0, bytes) == Big(bytes[0], bytes[1..]);
    assert Pow256(2) == 0x10000 && Pow256(4) == 0x1_0000_0000 && Pow256(6) == TWO_TO_THE_48;
    Base256Value(m, 6);
  }

  /** Six bytes, the most significant first, of two lower-case digits each. */
  lemma MacShape(m: nat)
    requires m < TWO_TO_THE_48
    ensures var pieces, bytes := Split(IntToMac(m), ':'), Base256(m, 6);
      && |pieces| == 6 && IntToMac(m) == Join(pieces, ':') && Big(0, bytes) == m
      && forall i :: 0 <= i < 6 ==> pieces[i] == ["0123456789abcdef"[bytes[i] / 16], "0123456789abcdef"[bytes[i] % 16]]
  {
    var pieces, bytes := HexPairs(m), Base256(m, 6);
    forall p | p in pieces
      ensures ':' !in p
    {
      assert IsNumeral(p, 16) && DigitValue(':') == 16;
    }
    SplitJoin(pieces, ':');
    forall i | 0 <= i < 6
      ensures pieces[i] == [DIGITS[bytes[i] / 16], DIGITS[bytes[i] % 16]]
    {
      PairsAreBytes(m, 6, i);
      TwoDigits(bytes[i]);
    }
    assert Pow256(2) == 0x10000 && Pow256(4) == 0x1_0000_0000 && Pow256(6) == TWO_TO_THE_48;
    Base256Value(m, 6);
  }

  lemma TwoDigits(b: nat)
    requires b < 256
    ensures Hex(b, 2) == [DIGITS[b / 16], DIGITS[b % 16]]
  {
    assert Hex(b / 16, 1) == Hex(b / 16 / 16, 0) + [DIGITS[b / 16 % 16]];
    assert Hex(b, 2) == Hex(b / 16, 1) + [DIGITS[b % 16]];
  }

  // ----- The MAC of an address

  /** A MAC prefix as configured: 48 bits, of which the low 32 are zero. */
  predicate MacPrefix(mp: nat) {
    mp < TWO_TO_THE_48 && mp % TWO_TO_THE_32 == 0
  }

  lemma MacNumber(n: nat, mp: nat)
    requires n < TWO_TO_THE_32 && MacPrefix(mp)
    ensures BitOr(n, mp) == n + mp < TWO_TO_THE_48
  {
    PowersOfTwo();
    OrDisjoint(n, mp, 32);
  }

  /** `get_mac_from_ip`, on the text of a 32-bit address. */
  function MacFromIp(ip: string, mp: nat): string
    requires MacPrefix(mp)
    requires IpToInt(ip).Some? && IpToInt(ip).value < TWO_TO_THE_32
  {
    MacNumber(IpToInt(ip).value, mp);
    IntToMac(BitOr(IpToInt(ip).value, mp))
  }

  /** The MAC tells the address. */
  lemma MacTellsIp(ip: string, mp: nat)
    requires MacPrefix(mp)
    requires IpToInt(ip).Some? && IpToInt(ip).value < TWO_TO_THE_32
    ensures MacToInt(MacFromIp(ip, mp)) == Some(IpToInt(ip).value + mp)
  {
    MacNumber(IpToInt(ip).value, mp);
    MacRoundTrip(IpToInt(ip).value + mp);
  }

  /** Different addresses have different MACs. */
  lemma MacInjective(m: nat, n: nat, mp: nat)
    requires m < TWO_TO_THE_32 && n < TWO_TO_THE_32 && MacPrefix(mp)
    requires IpToInt(IpText(m)) == Some(m) && IpToInt(IpText(n)) == Some(n)
    requires MacFromIp(IpText(m), mp) == MacFromIp(IpText(n), mp)
    ensures m == n
  {
    MacTellsIp(IpText(m), mp);
    MacTellsIp(IpText(n), mp);
  }
}
