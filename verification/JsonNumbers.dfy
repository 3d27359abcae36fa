/** Numbers: the doubles an item holds, the number texts of RFC 8259, and the C library functions
    that convert between them (src/extern/cJSON.c, `parse_number` and `print_number`). */
module JsonNumbers {
  import opened Bytes

  // ----- Doubles

  /** An IEEE 754 number; a finite one is mantissa * 2^exponent, with its sign. */
  datatype Double = NaN | Infinite(negative: bool) | Finite(negative: bool, mantissa: nat, exponent: int)

  /** The normal form of a 64-bit number: 53 bits of mantissa, fewer only at the least exponent. */
  predicate IsDouble(d: Double) {
    d.Finite? ==>
      && -1074 <= d.exponent <= 971
      && d.mantissa < 0x20_0000_0000_0000
      && (d.mantissa < 0x10_0000_0000_0000 ==> d.exponent == -1074)
  }

  type double = d: Double | IsDouble(d) witness NaN

  /** C's `==`: NaN equals nothing, and the two zeros are equal. */
  predicate Equal(a: double, b: double) {
    !a.NaN? && !b.NaN? && Unsigned(a) == Unsigned(b)
  }

  /** Zero without its sign. */
  function Unsigned(d: double): (r: double)
    ensures r == d || (d.Finite? && d.mantissa == 0)
  {
    if d.Finite? && d.mantissa == 0 then Finite(false, 0, -1074) else d
  }

  // ----- The bytes of a number

  predicate IsDigit(b: byte) { 48 <= b <= 57 }

  /** The bytes copied for `strtod`: digits, signs, the point and the exponent letters. */
  predicate IsNumberByte(b: byte) {
    IsDigit(b) || b == 43 || b == 45 || b == 46 || b == 69 || b == 101
  }

  /** How many bytes at the start of `s`, at most `limit`, are copied. */
  function NumberRun(s: Text, limit: nat): (r: nat)
    ensures r <= limit && r <= |s|
    ensures forall i :: 0 <= i < r ==> IsNumberByte(s[i])
    ensures r == limit || r == |s| || !IsNumberByte(s[r])
  {
    if limit == 0 || s == [] || !IsNumberByte(s[0]) then 0 else 1 + NumberRun(s[1..], limit - 1)
  }

  function Digits(s: Text): (r: nat)
    ensures r <= |s|
  {
    if s == [] || !IsDigit(s[0]) then 0 else 1 + Digits(s[1..])
  }

  function Sign(s: Text): (r: nat)
    ensures r <= |s|
  {
    if s != [] && (s[0] == 43 || s[0] == 45) then 1 else 0
  }

  function Fraction(s: Text): (r: nat)
    ensures r <= |s|
  {
    if s != [] && s[0] == 46 then 1 + Digits(s[1..]) else 0
  }

  function Exponent(s: Text): (r: nat)
    ensures r <= |s|
  {
    if s == [] || !(s[0] == 69 || s[0] == 101) then 0
    else
      var sign := Sign(s[1..]);
      var digits := Digits(s[1 + sign..]);
      if digits == 0 then 0 else 1 + sign + digits
  }

  /** How many bytes `strtod` takes as a decimal floating-point number (C11, section 7.22.1.3);
      0 if there is none. */
  function Taken(s: Text): (r: nat)
    ensures r <= |s|
  {
    var whole := Sign(s) + Digits(s[Sign(s)..]);
    var mantissa := whole + Fraction(s[whole..]);
    if Digits(s[Sign(s)..]) == 0 && mantissa - whole <= 1 then 0
    else mantissa + Exponent(s[mantissa..])
  }

  // ----- RFC 8259, section 6

  /** minus, int, frac and exp of a number; the latter two may be missing. */
  datatype NumberForm = NumberForm(minus: bool, whole: Text, fraction: Option<Text>, exponent: Option<Power>)

  datatype Power = Power(letter: byte, sign: Option<byte>, digits: Text)

  predicate AllDigits(s: Text) {
    s != [] && forall i :: 0 <= i < |s| ==> IsDigit(s[i])
  }

  predicate LawfulPower(p: Option<Power>) {
    p.Some? ==>
      && (p.value.letter == 'e' as int || p.value.letter == 'E' as int)
      && (p.value.sign.Some? ==> p.value.sign.value == '+' as int || p.value.sign.value == '-' as int)
      && AllDigits(p.value.digits)
  }

  predicate LawfulNumber(n: NumberForm) {
    && AllDigits(n.whole) && (n.whole[0] == '0' as int ==> |n.whole| == 1)
    && (n.fraction.Some? ==> AllDigits(n.fraction.value)) && LawfulPower(n.exponent)
  }

  predicate OnlyDigits(s: Text) {
    forall i :: 0 <= i < |s| ==> IsDigit(s[i])
  }

  /** What the parser takes: leading zeros, no digits behind the point, and behind a minus none before
      it, if there are some behind it. */
  predicate ToleratedNumber(n: NumberForm) {
    && OnlyDigits(n.whole) && (n.fraction.Some? ==> OnlyDigits(n.fraction.value)) && LawfulPower(n.exponent)
    && (n.whole != [] || (n.minus && n.fraction.Some? && n.fraction.value != []))
  }

  function FractionText(f: Option<Text>): Text {
    if f.Some? then ['.' as int] + f.value else []
  }

  function PowerText(p: Option<Power>): Text {
    if p.None? then []
    else [p.value.letter] + ((if p.value.sign.Some? then [p.value.sign.value] else []) + p.value.digits)
  }

  function NumberWritten(n: NumberForm): Text {
    (if n.minus then ['-' as int] else []) + (n.whole + (FractionText(n.fraction) + PowerText(n.exponent)))
  }

  ghost predicate IsNumber(t: Text) {
    exists n :: LawfulNumber(n) && NumberWritten(n) == t
  }

  lemma {:induction false} DigitsEnd(d: Text, t: Text)
    requires forall i :: 0 <= i < |d| ==> IsDigit(d[i])
    requires t == [] || !IsDigit(t[0])
    ensures Digits(d + t) == |d|
  {
    if d == [] {
      assert d + t == t;
    } else {
      assert (d + t)[1..] == d[1..] + t;
      DigitsEnd(d[1..], t);
    }
  }

  lemma PowerTaken(p: Option<Power>)
    requires LawfulPower(p)
    ensures Exponent(PowerText(p)) == |PowerText(p)|
    ensures forall i :: 0 <= i < |PowerText(p)| ==> IsNumberByte(PowerText(p)[i])
  {
    if p.Some? {
      var sign: Text := if p.value.sign.Some? then [p.value.sign.value] else [];
      var digits := p.value.digits;
      var s := PowerText(p);
      assert s[1..] == sign + digits;
      assert Sign(s[1..]) == |sign|;
      assert s[1 + |sign|..] == digits;
      DigitsEnd(digits, []);
      assert digits + [] == digits;
      hide Digits;
    }
  }

  lemma FractionTaken(f: Option<Text>, t: Text)
    requires f.Some? ==> OnlyDigits(f.value)
    requires t == [] || t[0] == 69 || t[0] == 101
    ensures Fraction(FractionText(f) + t) == |FractionText(f)|
    ensures f.Some? ==> |FractionText(f)| == 1 + |f.value|
  {
    var s := FractionText(f) + t;
    if f.Some? {
      assert s[1..] == f.value + t;
      DigitsEnd(f.value, t);
    } else {
      assert s == t;
    }
  }

  /** `strtod` takes every such number whole, those of RFC 8259 among them. */
  lemma NumberTaken(n: NumberForm)
    requires ToleratedNumber(n)
    ensures var t := NumberWritten(n);
      && t != [] && (t[0] == '-' as int || IsDigit(t[0]))
      && Taken(t) == |t|
  {
    hide Digits, Fraction, Exponent, FractionText, PowerText, Taken;
    var f, p := FractionText(n.fraction), PowerText(n.exponent);
    NumberParts(n);
    DigitsEnd(n.whole, f + p);
    FractionTaken(n.fraction, p);
    PowerTaken(n.exponent);
    PartsTaken(if n.minus then [45] else [], n.whole, f, p);
  }

  lemma LawfulIsTolerated(n: NumberForm)
    requires LawfulNumber(n)
    ensures ToleratedNumber(n)
  {
  }

  lemma PartsTaken(minus: Text, whole: Text, f: Text, p: Text)
    requires minus == [] || minus == [45]
    requires if whole != [] then IsDigit(whole[0]) else minus == [45] && |f| > 1
    requires Digits(whole + (f + p)) == |whole| && Fraction(f + p) == |f| && Exponent(p) == |p|
    ensures Taken(minus + (whole + (f + p))) == |minus| + |whole| + |f| + |p|
  {
    hide Digits, Fraction, Exponent, Taken;
    hide *;
    var t := minus + (whole + (f + p));
    SignOf(minus, whole, f + p);
    Layout(minus, whole, f, p);
    TakenParts(t, |minus|, |minus| + |whole|, |minus| + |whole| + |f|);
  }

  lemma SignOf(minus: Text, whole: Text, t: Text)
    requires minus == [45] || (minus == [] && whole != [] && IsDigit(whole[0]))
    ensures Sign(minus + (whole + t)) == |minus|
  {
    assert (minus + (whole + t))[0] == if minus == [45] then 45 else whole[0];
  }

  lemma TakenParts(t: Text, sign: nat, whole: nat, mantissa: nat)
    requires sign <= whole <= mantissa <= |t| && (sign < whole || mantissa - whole > 1)
    requires Sign(t) == sign && Digits(t[sign..]) == whole - sign && Fraction(t[whole..]) == mantissa - whole
    ensures Taken(t) == mantissa + Exponent(t[mantissa..])
  {
  }

  lemma Layout(a: Text, b: Text, c: Text, d: Text)
    ensures var t := a + (b + (c + d));
      t[|a|..] == b + (c + d) && t[|a| + |b|..] == c + d && t[|a| + |b| + |c|..] == d
  {
    assert (b + (c + d))[|b|..] == c + d;
  }

  lemma NumberBytes(n: NumberForm)
    requires ToleratedNumber(n)
    ensures forall i :: 0 <= i < |NumberWritten(n)| ==> IsNumberByte(NumberWritten(n)[i])
  {
    hide FractionText, PowerText;
    NumberParts(n);
    PowerTaken(n.exponent);
  }

  lemma NumberParts(n: NumberForm)
    requires ToleratedNumber(n)
    ensures var f, p := FractionText(n.fraction), PowerText(n.exponent);
      && (p == [] || p[0] == 69 || p[0] == 101)
      && (f + p == [] || !IsDigit((f + p)[0]))
      && (forall i :: 0 <= i < |f| ==> IsNumberByte(f[i]))
  {
  }

  // ----- What `strtod` takes is such a number

  lemma {:induction false} DigitsTaken(s: Text)
    ensures OnlyDigits(s[..Digits(s)])
  {
    if s != [] && IsDigit(s[0]) {
      DigitsTaken(s[1..]);
      assert s[..Digits(s)] == [s[0]] + s[1..][..Digits(s) - 1];
    }
  }

  lemma FractionIsText(s: Text) returns (f: Option<Text>)
    ensures (f.Some? ==> OnlyDigits(f.value)) && FractionText(f) == s[..Fraction(s)]
  {
    if s != [] && s[0] == 46 {
      DigitsTaken(s[1..]);
      f := Some(s[1..][..Digits(s[1..])]);
      assert s[..Fraction(s)] == [46] + f.value;
    } else {
      f := None;
    }
  }

  lemma PowerIsText(s: Text) returns (p: Option<Power>)
    ensures LawfulPower(p) && PowerText(p) == s[..Exponent(s)]
  {
    if Exponent(s) == 0 {
      p := None;
    } else {
      var sign := Sign(s[1..]);
      var t := s[1 + sign..];
      var digits := Digits(t);
      DigitsTaken(t);
      p := Some(Power(s[0], if sign == 1 then Some(s[1]) else None, t[..digits]));
      hide Digits, OnlyDigits;
      PowerLayout(s, sign, digits);
    }
  }

  lemma PowerLayout(s: Text, sign: nat, digits: nat)
    requires sign <= 1 && 1 + sign + digits <= |s|
    ensures s[..1 + sign + digits] == [s[0]] + ((if sign == 1 then [s[1]] else []) + s[1 + sign..][..digits])
  {
    assert s[..1 + sign + digits] == s[..1 + sign] + s[1 + sign..][..digits];
  }

  /** Of a text that starts like a number `strtod` takes a number. */
  lemma TakenIsNumber(s: Text) returns (n: NumberForm)
    requires s != [] && (s[0] == 45 || IsDigit(s[0])) && Taken(s) > 0
    ensures ToleratedNumber(n) && NumberWritten(n) == s[..Taken(s)]
  {
    var sign, whole, mantissa := TakenPlaces(s);
    DigitsTaken(s[sign..]);
    hide Digits, Fraction, Exponent, FractionText, PowerText, LawfulPower, Taken, Sign;
    var f := FractionIsText(s[whole..]);
    var p := PowerIsText(s[mantissa..]);
    n := NumberForm(sign == 1, s[sign..][..whole - sign], f, p);
    FractionLength(f);
    FormIsText(s, sign, whole, mantissa, Taken(s), n);
  }

  lemma FormIsText(s: Text, sign: nat, whole: nat, mantissa: nat, end: nat, n: NumberForm)
    requires sign <= 1 && sign <= whole <= mantissa <= end <= |s|
    requires n.minus == (sign == 1) && (sign == 1 ==> s[0] == 45)
    requires n.whole == s[sign..][..whole - sign] && FractionText(n.fraction) == s[whole..][..mantissa - whole]
    requires PowerText(n.exponent) == s[mantissa..][..end - mantissa]
    ensures NumberWritten(n) == s[..end]
  {
    var minus: Text := if n.minus then [45] else [];
    assert s[..sign] == minus;
    assert NumberWritten(n) == minus + (n.whole + (FractionText(n.fraction) + PowerText(n.exponent)));
    hide *;
    TakenLayout(s, sign, whole, mantissa, end);
  }

  /** Where sign, digits and fraction end. */
  lemma TakenPlaces(s: Text) returns (sign: nat, whole: nat, mantissa: nat)
    requires s != [] && (s[0] == 45 || IsDigit(s[0])) && Taken(s) > 0
    ensures sign <= whole <= mantissa <= Taken(s) && Taken(s) == mantissa + Exponent(s[mantissa..])
    ensures whole == sign + Digits(s[sign..]) && mantissa == whole + Fraction(s[whole..])
    ensures sign == (if s[0] == 45 then 1 else 0) && (sign < whole || (sign == 1 && mantissa - whole > 1))
  {
    sign := Sign(s);
    whole := sign + Digits(s[sign..]);
    mantissa := whole + Fraction(s[whole..]);
    assert IsDigit(s[0]) ==> s[0..] == s && Digits(s) > 0;
    hide Digits, Fraction, Exponent;
  }

  lemma FractionLength(f: Option<Text>)
    ensures |FractionText(f)| == if f.Some? then 1 + |f.value| else 0
  {
  }

  lemma TakenLayout(s: Text, a: nat, b: nat, c: nat, d: nat)
    requires a <= b <= c <= d <= |s|
    ensures s[..d] == s[..a] + (s[a..][..b - a] + (s[b..][..c - b] + s[c..][..d - c]))
  {
    CutFront(s, c, d);
    CutFront(s, b, c);
    CutFront(s, a, b);
    var x, y, z, w := s[..a], s[a..][..b - a], s[b..][..c - b], s[c..][..d - c];
    Regroup(x, y, z);
    Regroup(x, y + z, w);
    Regroup(y, z, w);
  }

  // ----- The C library

  /** A string `sprintf` wrote. */
  type CText = t: Text | 0 !in t

  /** `strtod` on a decimal number, and `sprintf` with "%1.15g" and "%1.17g". */
  datatype Libc = Libc(strtod: Text -> double, g15: double -> CText, g17: double -> CText)

  const NULL_TEXT: Text := [110, 117, 108, 108]

  /** What the printer writes: 15 digits if they read back as an equal number, else 17; `null` for
      what is not finite. */
  function NumberText(libc: Libc, d: double): (t: Text)
    ensures 0 !in t
  {
    if !d.Finite? then NULL_TEXT
    else if Taken(libc.g15(d)) > 0 && Equal(Scan(libc, libc.g15(d)), d) then libc.g15(d)
    else libc.g17(d)
  }

  /** The number at the start of a text. */
  function Scan(libc: Libc, t: Text): double {
    libc.strtod(t[..Taken(t)])
  }

  /** The longest number text the printer's own buffer takes. */
  const NUMBER_BUFFER: nat := 25

  /** What the C standard says of `sprintf` and `strtod` on one finite number: both texts are
      numbers and fit the printer's buffer, 17 digits tell every double, and a text that reads as
      an equal number has the right sign. */
  ghost predicate Converts(libc: Libc, d: double) {
    && IsNumber(libc.g15(d)) && |libc.g15(d)| <= NUMBER_BUFFER
    && IsNumber(libc.g17(d)) && |libc.g17(d)| <= NUMBER_BUFFER
    && libc.strtod(libc.g17(d)) == d
    && (Equal(libc.strtod(libc.g15(d)), d) ==> libc.strtod(libc.g15(d)) == d)
  }

  ghost predicate Sound(libc: Libc) {
    forall d: double :: d.Finite? ==> Converts(libc, d)
  }

  /** What is printed for a finite number is an RFC 8259 number that reads back as it: the one of 15
      digits exactly if that reads as an equal number, or both are the same. */
  lemma NumberTextReads(libc: Libc, d: double)
    requires Sound(libc) && d.Finite?
    ensures var t := NumberText(libc, d); IsNumber(t) && |t| <= NUMBER_BUFFER && libc.strtod(t) == d
    ensures var g := libc.g15(d); NumberText(libc, d) == g <==> Equal(libc.strtod(g), d) || g == libc.g17(d)
  {
    hide Taken, Equal;
    assert Converts(libc, d);
    var n :| LawfulNumber(n) && NumberWritten(n) == libc.g15(d);
    LawfulIsTolerated(n);
    NumberTaken(n);
    var t := libc.g15(d);
    assert t[..Taken(t)] == t;
  }
}
