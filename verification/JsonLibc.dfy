/** A C library that meets what the theorems about printed numbers assume of it: every finite double
    is written with its mantissa and exponent in decimal, and read back from them. */
module JsonLibc {
  import opened Bytes
  import opened JsonNumbers

  // ----- Decimal numbers

  function Value(s: Text): int {
    if s == [] then 0 else Value(s[..|s| - 1]) * 10 + (s[|s| - 1] as int - 48)
  }

  function Decimal(n: nat): (r: Text)
    ensures AllDigits(r) && Value(r) == n
    ensures r[0] == 48 ==> n == 0 && |r| == 1
  {
    if n < 10 then [48 + n]
    else
      var front := Decimal(n / 10);
      var r := front + [48 + n % 10];
      assert r[..|r| - 1] == front;
      r
  }

  function Power10(k: nat): nat {
    if k == 0 then 1 else 10 * Power10(k - 1)
  }

  lemma {:induction false} DecimalLength(n: nat, k: nat)
    requires k > 0 && n < Power10(k)
    ensures |Decimal(n)| <= k
  {
    if n >= 10 {
      DecimalLength(n / 10, k - 1);
    }
  }

  // ----- Writing and reading

  function Size(exponent: int): nat {
    if exponent < 0 then -exponent else exponent
  }

  function ExactForm(d: double): (n: NumberForm)
    requires d.Finite?
    ensures LawfulNumber(n)
  {
    var sign := if d.exponent < 0 then Some(45) else None;
    NumberForm(d.negative, Decimal(d.mantissa), None, Some(Power(101, sign, Decimal(Size(d.exponent)))))
  }

  function WriteExact(d: double): CText {
    if d.Finite? then
      NumberBytes(ExactForm(d));
      NumberWritten(ExactForm(d))
    else NULL_TEXT
  }

  function ReadSigned(s: Text): int {
    if s != [] && s[0] == 45 then -Value(s[1..]) else Value(s)
  }

  function ReadExact(t: Text): double {
    var sign := Sign(t);
    var whole := sign + Digits(t[sign..]);
    var mantissa := Value(t[sign..whole]);
    if mantissa < 0 || whole == |t| then NaN
    else
      var d := Finite(sign == 1, mantissa, ReadSigned(t[whole + 1..]));
      if IsDouble(d) then d else NaN
  }

  /** Sign, digits and exponent are found where they were written. */
  lemma FindsParts(minus: Text, whole: Text, p: Text)
    requires (minus == [] || minus == [45]) && AllDigits(whole) && p != [] && p[0] == 101
    ensures var t := minus + (whole + p);
      && Sign(t) == |minus| && Digits(t[|minus|..]) == |whole|
      && t[|minus|..|minus| + |whole|] == whole
      && |minus| + |whole| < |t| && t[|minus| + |whole| + 1..] == p[1..]
  {
    var t := minus + (whole + p);
    assert t[|minus|..] == whole + p;
    DigitsEnd(whole, p);
  }

  lemma WritesParts(d: double)
    requires d.Finite?
    ensures var n := ExactForm(d);
      WriteExact(d) == (if d.negative then [45] else []) + (n.whole + PowerText(n.exponent))
  {
    var p := PowerText(ExactForm(d).exponent);
    assert [] + p == p;
    hide PowerText, Decimal;
  }

  lemma ReadsFound(t: Text, sign: nat, whole: nat, d: double)
    requires d.Finite? && sign <= whole < |t| && Sign(t) == sign && Digits(t[sign..]) == whole - sign
    requires d.negative == (sign == 1) && Value(t[sign..whole]) == d.mantissa
    requires ReadSigned(t[whole + 1..]) == d.exponent
    ensures ReadExact(t) == d
  {
    hide Sign, Digits, Value, ReadSigned;
  }

  lemma ReadsParts(minus: Text, whole: Text, p: Text, d: double)
    requires (minus == [] || minus == [45]) && AllDigits(whole) && p != [] && p[0] == 101
    requires d.Finite? && d.negative == (minus == [45])
    requires Value(whole) == d.mantissa && ReadSigned(p[1..]) == d.exponent
    ensures ReadExact(minus + (whole + p)) == d
  {
    hide ReadExact, Digits, Sign, Value, ReadSigned;
    FindsParts(minus, whole, p);
    ReadsFound(minus + (whole + p), |minus|, |minus| + |whole|, d);
  }

  lemma ReadsBack(d: double)
    requires d.Finite?
    ensures ReadExact(WriteExact(d)) == d
  {
    var n := ExactForm(d);
    WritesParts(d);
    ReadsExponent(d.exponent, n.exponent);
    ReadsParts(if d.negative then [45] else [], n.whole, PowerText(n.exponent), d);
    hide ReadExact, WriteExact, Decimal, Value, ReadSigned;
  }

  lemma ReadsExponent(exponent: int, p: Option<Power>)
    requires p == Some(Power(101, if exponent < 0 then Some(45) else None, Decimal(Size(exponent))))
    ensures ReadSigned(PowerText(p)[1..]) == exponent
  {
    var digits := Decimal(Size(exponent));
    if exponent < 0 {
      assert PowerText(p)[1..] == [45] + digits;
      assert ([45] + digits)[1..] == digits;
    } else {
      assert PowerText(p)[1..] == [] + digits == digits;
    }
  }

  lemma WritesShort(d: double)
    requires d.Finite?
    ensures |WriteExact(d)| <= NUMBER_BUFFER
  {
    assert Power10(16) == 1_0000_0000_0000_0000 && Power10(4) == 10000;
    DecimalLength(d.mantissa, 16);
    DecimalLength(Size(d.exponent), 4);
  }

  const EXACT := Libc(ReadExact, WriteExact, WriteExact)

  /** There is a sound C library. */
  lemma ExactIsSound()
    ensures Sound(EXACT)
  {
    forall d: double | d.Finite?
      ensures Converts(EXACT, d)
    {
      ReadsBack(d);
      WritesShort(d);
      assert NumberWritten(ExactForm(d)) == WriteExact(d);
    }
  }
}
