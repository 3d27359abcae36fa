/** String literals as RFC 8259, section 7 defines them, the wider class of literals the parser takes,
    and what they denote. */
module JsonLiterals {
  import opened Bytes
  import opened JsonCharacters
  import opened JsonStrings

  /** A piece of a literal: an unescaped byte, a one-letter escape, or a \u escape of four bytes. The
      last piece may be a backslash whose letter is the closing quote. */
  datatype Piece = Raw(b: byte) | Short(letter: byte) | Unit(hex: Text) | Last

  /** The pieces of RFC 8259. */
  ghost predicate WellFormed(p: Piece) {
    match p
    case Raw(b) => b >= 0x20 && b != 0x22 && b != 0x5C
    case Short(letter) => EscapeCode(letter as char).Some?
    case Unit(hex) => exists code: nat :: Spells(hex, code)
    case Last => false
  }

  /** The pieces the parser takes. */
  predicate Tolerated(p: Piece) {
    match p
    case Raw(b) => b != 0x5C
    case Short(letter) => EscapeCode(letter as char).Some?
    case Unit(hex) => |hex| == 4
    case Last => true
  }

  function Written(p: Piece): Text {
    match p
    case Raw(b) => [b]
    case Short(letter) => [0x5C, letter]
    case Unit(hex) => [0x5C, 'u' as int] + hex
    case Last => [0x5C]
  }

  /** The number of a \u escape; bytes that are no digits count as zero. */
  ghost function UnitCode(hex: Text): (code: nat)
    ensures code < 0x10000
  {
    if exists c: nat :: Spells(hex, c) then var c: nat :| Spells(hex, c); c else 0
  }

  lemma UnitCodeIsHex4(hex: Text)
    requires |hex| == 4
    ensures UnitCode(hex) == Hex4(hex)
    ensures IsHex4(hex) <==> exists c: nat :: Spells(hex, c)
  {
    if IsHex4(hex) {
      Hex4Spells(hex);
    }
    if exists c: nat :: Spells(hex, c) {
      SpelledIsHex4(hex, UnitCode(hex));
    }
  }

  /** The first and the second half of a surrogate pair. */
  ghost predicate HighHalf(p: Piece) { p.Unit? && 0xD800 <= UnitCode(p.hex) <= 0xDBFF }
  ghost predicate LowHalf(p: Piece) { p.Unit? && 0xDC00 <= UnitCode(p.hex) <= 0xDFFF }

  /** The character two halves encode in UTF-16. */
  ghost function PairCode(p: Piece, q: Piece): (cp: nat)
    requires HighHalf(p) && LowHalf(q)
    ensures 0x10000 <= cp <= 0x10FFFF && Utf16(cp) == [UnitCode(p.hex), UnitCode(q.hex)]
  {
    PairHasCode(UnitCode(p.hex), UnitCode(q.hex));
    var cp: nat :| 0x10000 <= cp <= 0x10FFFF && Utf16(cp) == [UnitCode(p.hex), UnitCode(q.hex)];
    cp
  }

  /** The bytes a piece denotes on its own: UTF-8 of the character for a \u escape. */
  ghost function Denoted(p: Piece): Text {
    match p
    case Raw(b) => [b]
    case Short(letter) => if EscapeCode(letter as char).Some? then [EscapeCode(letter as char).value] else []
    case Unit(hex) => Utf8(UnitCode(hex))
    case Last => [0x22]
  }

  function WrittenAll(ps: seq<Piece>): Text {
    if ps == [] then [] else Written(ps[0]) + WrittenAll(ps[1..])
  }

  /** What a literal denotes; two halves of a pair are one character. */
  ghost function DenotedAll(ps: seq<Piece>): Text {
    if ps == [] then []
    else if |ps| > 1 && HighHalf(ps[0]) && LowHalf(ps[1]) then Utf8(PairCode(ps[0], ps[1])) + DenotedAll(ps[2..])
    else Denoted(ps[0]) + DenotedAll(ps[1..])
  }

  /** No half of a surrogate pair without the other; the grammar admits them, but they denote no
      character. */
  ghost predicate Paired(ps: seq<Piece>) {
    if ps == [] then true
    else if HighHalf(ps[0]) then |ps| > 1 && LowHalf(ps[1]) && Paired(ps[2..])
    else !LowHalf(ps[0]) && Paired(ps[1..])
  }

  /** A body read in bytes and backslashes with the byte behind them, in which no quote stands alone. */
  predicate Closed(body: Text) {
    if body == [] then true
    else if body[0] == 0x5C then |body| >= 2 && Closed(body[2..])
    else body[0] != 0x22 && Closed(body[1..])
  }

  ghost predicate AllWellFormed(ps: seq<Piece>) {
    forall i :: 0 <= i < |ps| ==> WellFormed(ps[i])
  }

  predicate AllTolerated(ps: seq<Piece>) {
    forall i :: 0 <= i < |ps| ==> Tolerated(ps[i]) && (ps[i].Last? ==> i == |ps| - 1)
  }

  /** The literals the parser takes: both readings of the body end at its end. */
  predicate IsLiteral(ps: seq<Piece>) {
    AllTolerated(ps) && Closed(WrittenAll(ps))
  }

  // ----- The literals of RFC 8259 are among them

  lemma ClosedPlain(b: byte, t: Text)
    requires b != 0x22 && b != 0x5C
    ensures Closed([b] + t) == Closed(t)
  {
    assert ([b] + t)[1..] == t;
  }

  lemma ClosedEscape(letter: byte, t: Text)
    ensures Closed([0x5C, letter] + t) == Closed(t)
  {
    assert ([0x5C, letter] + t)[2..] == t;
  }

  /** No digit of a \u escape is a quote or a backslash. */
  lemma ClosedUnit(hex: Text, t: Text)
    requires IsHex4(hex)
    ensures Closed([0x5C, 'u' as int] + hex + t) == Closed(t)
  {
    assert forall i :: 0 <= i < 4 ==> HexValue(hex[i]) < 16 && hex[i] != 0x22 && hex[i] != 0x5C;
    hide Closed, IsHex4, HexValue;
    ClosedPlain(hex[3], t);
    ClosedPlain(hex[2], [hex[3]] + t);
    ClosedPlain(hex[1], [hex[2]] + ([hex[3]] + t));
    ClosedPlain(hex[0], [hex[1]] + ([hex[2]] + ([hex[3]] + t)));
    ClosedEscape('u' as int, [hex[0]] + ([hex[1]] + ([hex[2]] + ([hex[3]] + t))));
    assert [0x5C, 'u' as int] + hex + t
        == [0x5C, 'u' as int] + ([hex[0]] + ([hex[1]] + ([hex[2]] + ([hex[3]] + t))));
  }

  lemma ClosedPiece(p: Piece, t: Text)
    requires WellFormed(p)
    ensures Closed(Written(p) + t) == Closed(t)
  {
    hide Closed;
    match p
    case Raw(b) => ClosedPlain(b, t);
    case Short(letter) => ClosedEscape(letter, t);
    case Unit(hex) =>
      var code: nat :| Spells(hex, code);
      SpelledIsHex4(hex, code);
      ClosedUnit(hex, t);
  }

  lemma {:induction false} WellFormedIsLiteral(ps: seq<Piece>)
    requires AllWellFormed(ps)
    ensures IsLiteral(ps)
  {
    if ps != [] {
      WellFormedIsLiteral(ps[1..]);
      assert WellFormed(ps[0]);
      ClosedPiece(ps[0], WrittenAll(ps[1..]));
      hide Closed;
      forall i | 0 <= i < |ps|
        ensures Tolerated(ps[i]) && !ps[i].Last?
      {
        assert WellFormed(ps[i]);
      }
    }
  }

  // ----- The first pass

  /** The quote is found behind a body exactly if the body is closed. */
  lemma {:induction false} ClosedIsFound(body: Text, t: Text)
    requires t != [] && t[0] == QUOTE
    ensures Closed(body) <==> FindQuote(body + t) == Some(|body|)
    decreases |body|
  {
    var s := body + t;
    if body == [] {
      assert s == t;
    } else if body[0] == BACKSLASH {
      if |body| >= 2 {
        assert s[2..] == body[2..] + t;
        ClosedIsFound(body[2..], t);
      }
    } else {
      assert s[1..] == body[1..] + t;
      ClosedIsFound(body[1..], t);
    }
  }

  // ----- The second pass, over pieces in front of `t`

  function Decoded(ps: seq<Piece>, t: Text): Option<Text>
    requires t != []
  {
    Unescape(WrittenAll(ps) + t, |WrittenAll(ps)|)
  }

  lemma UnescapeRaw(t: Text, n: nat)
    requires 0 < n < |t| && t[0] != BACKSLASH
    ensures Unescape(t, n) == Prepend([t[0]], Unescape(t[1..], n - 1))
  {
  }

  lemma UnescapeShort(t: Text, n: nat)
    requires 0 < n < |t| && t[0] == BACKSLASH && t[1] != LOWER_U
    ensures Unescape(t, n) ==
      if EscapeCode(t[1] as char).None? then None
      else Prepend([EscapeCode(t[1] as char).value], Unescape(t[2..], n - 2))
  {
    ShortEscapeIsRfc8259(t[1]);
  }

  lemma UnescapeUnit(t: Text, n: nat)
    requires 0 < n < |t| && t[0] == BACKSLASH && t[1] == LOWER_U
    ensures Unescape(t, n) ==
      match ReadLiteral(t, n)
      case None => None
      case Some(l) => Prepend(Utf8(l.codepoint), Unescape(t[l.length..], n - l.length))
  {
  }

  /** A \u escape is read as a unit that is no half of a pair, or as a pair. */
  lemma UnitIsRead(t: Text, n: nat)
    requires 6 <= n < |t|
    ensures var p := Unit(t[2..6]);
      ReadLiteral(t, n) ==
        if LowHalf(p) then None
        else if !HighHalf(p) then Some(Literal(UnitCode(p.hex), 6))
        else if n < 12 || t[6] != BACKSLASH || t[7] != LOWER_U || !LowHalf(Unit(t[8..12])) then None
        else Some(Literal(PairCode(p, Unit(t[8..12])), 12))
  {
    var p := Unit(t[2..6]);
    UnitCodeIsHex4(p.hex);
    if n >= 12 {
      var q := Unit(t[8..12]);
      UnitCodeIsHex4(q.hex);
      if HighHalf(p) && LowHalf(q) {
        CombineIsUtf16(PairCode(p, q));
      }
    }
    hide Hex4, Combine, UnitCode, PairCode, Utf16;
  }

  lemma UnescapeAfterPiece(p: Piece, t: Text, n: nat)
    requires Tolerated(p) && !p.Last? && !HighHalf(p) && !LowHalf(p) && n < |t|
    ensures Unescape(Written(p) + t, |Written(p)| + n) == Prepend(Denoted(p), Unescape(t, n))
  {
    hide Unescape, ReadLiteral, UnitCode, Utf8, Prepend, HighHalf, LowHalf;
    var w := Written(p);
    var s := w + t;
    assert s[|w|..] == t;
    match p
    case Raw(b) => UnescapeRaw(s, 1 + n);
    case Short(letter) => UnescapeShort(s, 2 + n);
    case Unit(hex) =>
      assert s[2..6] == hex;
      UnitIsRead(s, 6 + n);
      UnescapeUnit(s, 6 + n);
  }

  lemma UnescapeLast(t: Text)
    requires t != [] && t[0] == QUOTE
    ensures Unescape([0x5C] + t, 1) == Some([0x22])
  {
    var s := [0x5C] + t;
    assert s[1] == QUOTE;
    UnescapeShort(s, 1);
    var none: Text := [];
    assert [0x22] + none == [0x22];
  }

  lemma UnescapeAfterPair(p: Piece, q: Piece, t: Text, n: nat)
    requires HighHalf(p) && LowHalf(q) && |p.hex| == |q.hex| == 4 && n < |t|
    ensures Unescape(Written(p) + (Written(q) + t), 12 + n) == Prepend(Utf8(PairCode(p, q)), Unescape(t, n))
  {
    hide Unescape, ReadLiteral, UnitCode, PairCode, Utf8, Prepend;
    var s := Written(p) + (Written(q) + t);
    assert s[2..6] == p.hex && s[8..12] == q.hex && s[12..] == t;
    HalfIsUnit(p);
    hide HighHalf, LowHalf;
    UnitIsRead(s, 12 + n);
    UnescapeUnit(s, 12 + n);
  }

  lemma LowRejected(p: Piece, t: Text, n: nat)
    requires LowHalf(p) && |p.hex| == 4 && 6 <= n <= 5 + |t|
    ensures ReadLiteral(Written(p) + t, n) == None
  {
    hide ReadLiteral, UnitCode;
    assert (Written(p) + t)[2..6] == p.hex;
    UnitIsRead(Written(p) + t, n);
  }

  lemma HighRejected(p: Piece, q: Piece, t: Text, n: nat)
    requires HighHalf(p) && |p.hex| == 4 && Tolerated(q) && !q.Last? && !LowHalf(q)
    requires 6 <= n <= 5 + |Written(q)| + |t|
    ensures ReadLiteral(Written(p) + (Written(q) + t), n) == None
  {
    hide ReadLiteral, UnitCode;
    var w := Written(q);
    var s := Written(p) + (w + t);
    assert s[2..6] == p.hex && s[6] == w[0];
    if !q.Raw? {
      assert s[7] == w[1];
    }
    if q.Unit? {
      assert s[8..12] == q.hex;
    }
    UnitIsRead(s, n);
  }

  /** Half a pair is rejected in front of the end of the literal and of any other piece. */
  lemma HalfRejected(p: Piece, ps: seq<Piece>, t: Text)
    requires t != [] && p.Unit? && |p.hex| == 4
    requires LowHalf(p) || (HighHalf(p) && (ps != [] ==> Tolerated(ps[0]) && !LowHalf(ps[0])))
    requires ps != [] && ps[0].Last? ==> |ps| == 1
    ensures Unescape(Written(p) + (WrittenAll(ps) + t), 6 + |WrittenAll(ps)|) == None
  {
    var s, n := Written(p) + (WrittenAll(ps) + t), 6 + |WrittenAll(ps)|;
    assert s[0] == BACKSLASH && s[1] == LOWER_U && s[2..6] == p.hex;
    if LowHalf(p) {
      LowRejected(p, WrittenAll(ps) + t, n);
    } else {
      UnitCodeIsHex4(p.hex);
      if ps != [] && !ps[0].Last? {
        Regroup(Written(ps[0]), WrittenAll(ps[1..]), t);
        HighRejected(p, ps[0], WrittenAll(ps[1..]) + t, n);
      } else if ps != [] {
        assert ps[1..] == [] && WrittenAll(ps) == [0x5C];
      }
    }
    assert ReadLiteral(s, n) == None;
    hide ReadLiteral;
  }

  lemma UnitLength(p: Piece)
    requires p.Unit? && |p.hex| == 4
    ensures |Written(p)| == 6
  {
  }

  lemma DecodedPlain(ps: seq<Piece>, t: Text)
    requires ps != [] && t != [] && Tolerated(ps[0]) && !ps[0].Last? && !HighHalf(ps[0]) && !LowHalf(ps[0])
    ensures Decoded(ps, t) == Prepend(Denoted(ps[0]), Decoded(ps[1..], t))
  {
    hide Unescape, Written, Denoted, HighHalf, LowHalf, Tolerated, Prepend;
    var back := WrittenAll(ps[1..]);
    Regroup(Written(ps[0]), back, t);
    UnescapeAfterPiece(ps[0], back + t, |back|);
  }

  lemma DecodedPair(ps: seq<Piece>, t: Text)
    requires |ps| > 1 && t != [] && ps[0].Unit? && ps[1].Unit? && |ps[0].hex| == |ps[1].hex| == 4
    requires HighHalf(ps[0]) && LowHalf(ps[1])
    ensures Decoded(ps, t) == Prepend(Utf8(PairCode(ps[0], ps[1])), Decoded(ps[2..], t))
  {
    hide *;
    var p, q, back := ps[0], ps[1], WrittenAll(ps[2..]);
    DecodedIs(ps, t);
    DecodedIs(ps[2..], t);
    WrittenPair(ps);
    UnitLength(p);
    UnitLength(q);
    PairInText(Written(p), Written(q), back, t);
    UnescapeAfterPair(p, q, back + t, |back|);
  }

  lemma DecodedIs(ps: seq<Piece>, t: Text)
    requires t != []
    ensures Decoded(ps, t) == Unescape(WrittenAll(ps) + t, |WrittenAll(ps)|)
  {
  }

  lemma PairInText(a: Text, b: Text, back: Text, t: Text)
    requires |a| == |b| == 6
    ensures (a + (b + back)) + t == a + (b + (back + t)) && |a + (b + back)| == 12 + |back|
  {
    Regroup(a, b + back, t);
    Regroup(b, back, t);
  }

  lemma WrittenPair(ps: seq<Piece>)
    requires |ps| > 1
    ensures WrittenAll(ps) == Written(ps[0]) + (Written(ps[1]) + WrittenAll(ps[2..]))
  {
    hide Written;
    var rest := ps[1..];
    assert rest[0] == ps[1] && rest[1..] == ps[2..];
  }

  lemma DecodedHalf(ps: seq<Piece>, t: Text)
    requires ps != [] && t != [] && AllTolerated(ps) && ps[0].Unit? && |ps[0].hex| == 4
    requires LowHalf(ps[0]) || (HighHalf(ps[0]) && (|ps| > 1 ==> !LowHalf(ps[1])))
    ensures Decoded(ps, t) == None
  {
    if |ps| > 1 {
      assert ps[1..][0] == ps[1] && Tolerated(ps[1]);
    }
    UnitLength(ps[0]);
    HalfRejected(ps[0], ps[1..], t);
    Regroup(Written(ps[0]), WrittenAll(ps[1..]), t);
    hide Unescape, Written, HighHalf, LowHalf, Tolerated;
  }

  lemma DecodedLast(ps: seq<Piece>, t: Text)
    requires ps == [Last] && t != [] && t[0] == QUOTE
    ensures Decoded(ps, t) == Some([0x22]) && DenotedAll(ps) == [0x22] && Paired(ps)
  {
    assert ps[1..] == [];
    assert WrittenAll(ps) == [0x5C];
    UnescapeLast(t);
  }

  /** The second pass decodes the pieces exactly if no half of a pair is alone. */
  lemma {:induction false} PiecesDecode(ps: seq<Piece>, t: Text)
    requires AllTolerated(ps) && t != [] && t[0] == QUOTE
    ensures Decoded(ps, t) == if Paired(ps) then Some(DenotedAll(ps)) else None
    decreases |ps|
  {
    if ps == [] {
      NothingDecoded(t);
    } else {
      ToleratedInFront(ps);
      PiecesInFront(ps);
      HalfIsUnit(ps[0]);
      hide Decoded, Denoted, Utf8, PairCode, HighHalf, LowHalf, Tolerated, Paired, DenotedAll, AllTolerated;
      if ps[0].Last? {
        DecodedLast(ps, t);
      } else if !HighHalf(ps[0]) && !LowHalf(ps[0]) {
        DecodedPlain(ps, t);
        PiecesDecode(ps[1..], t);
      } else if HighHalf(ps[0]) && |ps| > 1 && LowHalf(ps[1]) {
        HalfIsUnit(ps[1]);
        DecodedPair(ps, t);
        PiecesDecode(ps[2..], t);
      } else {
        DecodedHalf(ps, t);
      }
    }
  }

  lemma NothingDecoded(t: Text)
    requires t != []
    ensures Decoded([], t) == Some([]) && Paired([]) && DenotedAll([]) == []
  {
  }

  lemma ToleratedInFront(ps: seq<Piece>)
    requires ps != [] && AllTolerated(ps)
    ensures Tolerated(ps[0]) && (ps[0].Last? ==> ps == [Last]) && AllTolerated(ps[1..])
    ensures |ps| > 1 ==> Tolerated(ps[1]) && AllTolerated(ps[2..])
  {
    hide Tolerated;
  }

  /** What pieces denote, by the first of them. */
  lemma PiecesInFront(ps: seq<Piece>)
    requires ps != []
    ensures !HighHalf(ps[0]) && !LowHalf(ps[0]) ==>
      Paired(ps) == Paired(ps[1..]) && DenotedAll(ps) == Denoted(ps[0]) + DenotedAll(ps[1..])
    ensures |ps| > 1 && HighHalf(ps[0]) && LowHalf(ps[1]) ==>
      Paired(ps) == Paired(ps[2..]) && DenotedAll(ps) == Utf8(PairCode(ps[0], ps[1])) + DenotedAll(ps[2..])
    ensures (HighHalf(ps[0]) && (|ps| > 1 ==> !LowHalf(ps[1]))) || LowHalf(ps[0]) ==> !Paired(ps)
  {
    HalfIsUnit(ps[0]);
    hide Denoted, Utf8, PairCode, HighHalf, LowHalf;
  }

  lemma HalfIsUnit(p: Piece)
    ensures HighHalf(p) || LowHalf(p) ==> p.Unit? && (Tolerated(p) ==> |p.hex| == 4)
    ensures !HighHalf(p) || !LowHalf(p)
  {
  }

  lemma ParseBody(body: Text, rest: Text)
    ensures ParseString([QUOTE] + body + [QUOTE] + rest) ==
      match FindQuote(body + ([QUOTE] + rest))
      case None => Fail
      case Some(n) =>
        match Unescape(body + ([QUOTE] + rest), n)
        case None => Fail
        case Some(bytes) => Ok(CString(bytes), (body + ([QUOTE] + rest))[n + 1..])
  {
    hide FindQuote, Unescape, CString;
    var s := [QUOTE] + body + [QUOTE] + rest;
    Regroup([QUOTE] + body, [QUOTE], rest);
    Regroup([QUOTE], body, [QUOTE] + rest);
    assert s[1..] == body + ([QUOTE] + rest);
  }

  function LiteralText(ps: seq<Piece>): Text {
    [QUOTE] + WrittenAll(ps) + [QUOTE]
  }

  /** Every literal parses exactly if no half of a surrogate pair is alone, to the bytes it denotes
      (up to a NUL, where C stops). */
  lemma LiteralParses(ps: seq<Piece>, rest: Text)
    requires IsLiteral(ps)
    ensures ParseString(LiteralText(ps) + rest) == if Paired(ps) then Ok(CString(DenotedAll(ps)), rest) else Fail
  {
    hide FindQuote, Unescape, ParseString, Paired, DenotedAll, Closed;
    var body, t := WrittenAll(ps), [QUOTE] + rest;
    ClosedIsFound(body, t);
    PiecesDecode(ps, t);
    ParseBody(body, rest);
    assert (body + t)[|body| + 1..] == rest;
  }

  // ----- Only these literals parse

  lemma {:induction false} PiecesRead(t: Text, n: nat) returns (ps: seq<Piece>)
    requires n < |t| && t[n] == QUOTE && Unescape(t, n).Some?
    ensures AllTolerated(ps) && Paired(ps)
    ensures WrittenAll(ps) == t[..n] && Unescape(t, n) == Some(DenotedAll(ps))
    decreases n, 1
  {
    if n == 0 {
      ps := [];
    } else if t[0] != BACKSLASH {
      ps := RawRead(t, n);
    } else if t[1] == LOWER_U {
      ps := UnitRead(t, n);
    } else {
      ps := ShortRead(t, n);
    }
  }

  lemma {:induction false} RawRead(t: Text, n: nat) returns (ps: seq<Piece>)
    requires 0 < n < |t| && t[n] == QUOTE && Unescape(t, n).Some? && t[0] != BACKSLASH
    ensures AllTolerated(ps) && Paired(ps)
    ensures WrittenAll(ps) == t[..n] && Unescape(t, n) == Some(DenotedAll(ps))
    decreases n, 0
  {
    hide Unescape, DenotedAll, Paired, WrittenAll, AllTolerated;
    UnescapeRaw(t, n);
    var back := PiecesRead(t[1..], n - 1);
    ps := [Raw(t[0])] + back;
    PieceInFront(Raw(t[0]), back);
    CutFront(t, 1, n);
    assert t[..1] == [t[0]];
  }

  lemma {:induction false} ShortRead(t: Text, n: nat) returns (ps: seq<Piece>)
    requires 0 < n < |t| && t[n] == QUOTE && Unescape(t, n).Some? && t[0] == BACKSLASH && t[1] != LOWER_U
    ensures AllTolerated(ps) && Paired(ps)
    ensures WrittenAll(ps) == t[..n] && Unescape(t, n) == Some(DenotedAll(ps))
    decreases n, 0
  {
    UnescapeShort(t, n);
    if n == 1 {
      ps := [Last];
      DecodedLast(ps, t[1..]);
      assert t == [0x5C] + t[1..] && WrittenAll(ps) == t[..1];
    } else {
      hide Unescape, DenotedAll, Paired, WrittenAll, AllTolerated;
      var back := PiecesRead(t[2..], n - 2);
      ps := [Short(t[1])] + back;
      PieceInFront(Short(t[1]), back);
      CutFront(t, 2, n);
      assert t[..2] == [t[0], t[1]];
    }
  }

  lemma {:induction false} UnitRead(t: Text, n: nat) returns (ps: seq<Piece>)
    requires 0 < n < |t| && t[n] == QUOTE && Unescape(t, n).Some? && t[0] == BACKSLASH && t[1] == LOWER_U
    ensures AllTolerated(ps) && Paired(ps)
    ensures WrittenAll(ps) == t[..n] && Unescape(t, n) == Some(DenotedAll(ps))
    decreases n, 0
  {
    hide Unescape, DenotedAll, Paired, WrittenAll, AllTolerated, ReadLiteral, UnitCode, Utf8, PairCode;
    hide HighHalf, LowHalf;
    UnescapeUnit(t, n);
    UnitIsRead(t, n);
    var l := ReadLiteral(t, n).value;
    var back := PiecesRead(t[l.length..], n - l.length);
    if l.length == 6 {
      ps := [Unit(t[2..6])] + back;
      OneUnitInFront(t, n, back);
    } else {
      ps := [Unit(t[2..6]), Unit(t[8..12])] + back;
      TwoUnitsInFront(t, n, back);
    }
  }

  lemma OneUnitInFront(t: Text, n: nat, back: seq<Piece>)
    requires 6 <= n < |t| && t[0] == BACKSLASH && t[1] == LOWER_U && !HighHalf(Unit(t[2..6])) && !LowHalf(Unit(t[2..6]))
    requires AllTolerated(back) && Paired(back) && WrittenAll(back) == t[6..][..n - 6]
    ensures var p := Unit(t[2..6]); var ps := [p] + back;
      AllTolerated(ps) && Paired(ps) && WrittenAll(ps) == t[..n] && DenotedAll(ps) == Denoted(p) + DenotedAll(back)
  {
    hide DenotedAll, Paired, WrittenAll, AllTolerated, HighHalf, LowHalf;
    var p := Unit(t[2..6]);
    PieceInFront(p, back);
    CutFront(t, 6, n);
    UnitWritten(t);
  }

  lemma UnitWritten(t: Text)
    requires |t| >= 6 && t[0] == BACKSLASH && t[1] == LOWER_U
    ensures t[..6] == Written(Unit(t[2..6]))
  {
  }

  lemma TwoUnitsInFront(t: Text, n: nat, back: seq<Piece>)
    requires 12 <= n < |t| && t[0] == BACKSLASH && t[1] == LOWER_U && t[6] == BACKSLASH && t[7] == LOWER_U
    requires HighHalf(Unit(t[2..6])) && LowHalf(Unit(t[8..12]))
    requires AllTolerated(back) && Paired(back) && WrittenAll(back) == t[12..][..n - 12]
    ensures var p, q := Unit(t[2..6]), Unit(t[8..12]); var ps := [p, q] + back;
      && AllTolerated(ps) && Paired(ps) && WrittenAll(ps) == t[..n]
      && DenotedAll(ps) == Utf8(PairCode(p, q)) + DenotedAll(back)
  {
    hide DenotedAll, Paired, WrittenAll, AllTolerated, HighHalf, LowHalf;
    var p, q := Unit(t[2..6]), Unit(t[8..12]);
    TwoUnitsWritten(t, n);
    PairInFront(p, q, back);
  }

  lemma TwoUnitsWritten(t: Text, n: nat)
    requires 12 <= n <= |t| && t[0] == BACKSLASH && t[1] == LOWER_U && t[6] == BACKSLASH && t[7] == LOWER_U
    ensures t[..n] == Written(Unit(t[2..6])) + (Written(Unit(t[8..12])) + t[12..][..n - 12])
  {
    hide Written;
    var s := t[6..];
    CutFront(t, 6, n);
    CutFront(s, 6, n - 6);
    UnitWritten(t);
    assert s[0] == t[6] && s[1] == t[7] && s[2..6] == t[8..12];
    UnitWritten(s);
    assert s[6..] == t[12..];
  }

  lemma PieceInFront(p: Piece, ps: seq<Piece>)
    requires Tolerated(p) && !p.Last? && !HighHalf(p) && !LowHalf(p) && AllTolerated(ps) && Paired(ps)
    ensures var all := [p] + ps;
      && AllTolerated(all) && Paired(all)
      && WrittenAll(all) == Written(p) + WrittenAll(ps) && DenotedAll(all) == Denoted(p) + DenotedAll(ps)
  {
    var all := [p] + ps;
    assert all[0] == p && all[1..] == ps;
    PiecesInFront(all);
    hide Tolerated, HighHalf, LowHalf, Denoted, Written, Paired, DenotedAll;
  }

  lemma PairInFront(p: Piece, q: Piece, ps: seq<Piece>)
    requires HighHalf(p) && LowHalf(q) && Tolerated(p) && Tolerated(q) && AllTolerated(ps) && Paired(ps)
    ensures var all := [p, q] + ps;
      && AllTolerated(all) && Paired(all)
      && WrittenAll(all) == Written(p) + (Written(q) + WrittenAll(ps))
      && DenotedAll(all) == Utf8(PairCode(p, q)) + DenotedAll(ps)
  {
    var all := [p, q] + ps;
    assert all[0] == p && all[1] == q && all[2..] == ps;
    HalfIsUnit(p);
    HalfIsUnit(q);
    PiecesInFront(all);
    WrittenPair(all);
    hide Tolerated, HighHalf, LowHalf, Denoted, Written, WrittenAll, Paired, DenotedAll, PairCode, Utf8;
  }

  /** Whatever parses as a string is a literal in front of the rest, and gives what it denotes. */
  lemma ParsedIsLiteral(s: Text) returns (ps: seq<Piece>)
    requires ParseString(s).Ok?
    ensures IsLiteral(ps) && Paired(ps) && s == LiteralText(ps) + ParseString(s).rest
    ensures ParseString(s).value == CString(DenotedAll(ps))
  {
    var t, n := s[1..], FindQuote(s[1..]).value;
    ps := PiecesRead(t, n);
    assert t[n] == QUOTE;
    hide *;
    BodyLayout(s, n);
    ClosedIsFound(t[..n], t[n..]);
  }

  lemma BodyLayout(s: Text, n: nat)
    requires n + 1 < |s| && s[0] == QUOTE && s[n + 1] == QUOTE
    ensures s == [QUOTE] + s[1..][..n] + [QUOTE] + s[1..][n + 1..]
    ensures s[1..] == s[1..][..n] + s[1..][n..]
  {
  }

  // ----- The NUL character in a literal

  /** The NUL character, as \u0000 or a \u escape that is no number, or unescaped. */
  ghost predicate IsNul(p: Piece) {
    p == Raw(0) || (p.Unit? && UnitCode(p.hex) == 0)
  }

  ghost predicate NulFree(ps: seq<Piece>) {
    forall i :: 0 <= i < |ps| ==> !IsNul(ps[i])
  }

  lemma NulInUtf8(cp: nat)
    requires cp <= 0x10FFFF
    ensures 0 in Utf8(cp) <==> cp == 0
  {
  }

  lemma NulInPiece(p: Piece)
    ensures 0 in Denoted(p) <==> IsNul(p)
  {
    hide Utf8, UnitCode;
    if p.Unit? {
      NulInUtf8(UnitCode(p.hex));
    }
  }

  lemma NulFreeConcat(ps: seq<Piece>, qs: seq<Piece>)
    ensures NulFree(ps + qs) <==> NulFree(ps) && NulFree(qs)
  {
    hide IsNul;
    if NulFree(ps + qs) {
      forall i | 0 <= i < |qs|
        ensures !IsNul(qs[i])
      {
        assert (ps + qs)[|ps| + i] == qs[i];
      }
      forall i | 0 <= i < |ps|
        ensures !IsNul(ps[i])
      {
        assert (ps + qs)[i] == ps[i];
      }
    }
  }

  lemma NulInPair(p: Piece, q: Piece)
    requires HighHalf(p) && LowHalf(q)
    ensures NulFree([p, q]) && 0 !in Utf8(PairCode(p, q))
  {
    NulInUtf8(PairCode(p, q));
  }

  lemma NulInOne(p: Piece)
    ensures NulFree([p]) <==> 0 !in Denoted(p)
  {
    NulInPiece(p);
    assert [p][0] == p;
    hide IsNul, Denoted;
  }

  lemma {:induction false} NulInDenoted(ps: seq<Piece>)
    ensures 0 in DenotedAll(ps) <==> !NulFree(ps)
    decreases |ps|
  {
    hide Utf8, Denoted, PairCode, HighHalf, LowHalf, NulFree, DenotedAll;
    if ps == [] {
      NoNul();
    } else {
      FrontDenoted(ps);
      if |ps| > 1 && HighHalf(ps[0]) && LowHalf(ps[1]) {
        NulInDenoted(ps[2..]);
        NulFreeConcat([ps[0], ps[1]], ps[2..]);
        NulInPair(ps[0], ps[1]);
        assert ps == [ps[0], ps[1]] + ps[2..];
      } else {
        NulInDenoted(ps[1..]);
        NulFreeConcat([ps[0]], ps[1..]);
        NulInOne(ps[0]);
        assert ps == [ps[0]] + ps[1..];
      }
    }
  }

  lemma FrontDenoted(ps: seq<Piece>)
    requires ps != []
    ensures DenotedAll(ps) ==
      if |ps| > 1 && HighHalf(ps[0]) && LowHalf(ps[1]) then Utf8(PairCode(ps[0], ps[1])) + DenotedAll(ps[2..])
      else Denoted(ps[0]) + DenotedAll(ps[1..])
  {
  }

  lemma NoNul()
    ensures NulFree([]) && DenotedAll([]) == []
  {
  }

  // ----- The literals the printer writes

  function HexDigit(d: nat): (b: byte)
    requires d < 16
    ensures HexValue(b) == d
  {
    if d < 10 then 48 + d else 87 + d
  }

  /** How the printer writes one byte of a string (never a NUL): as itself, as a one-letter escape,
      or, for the other control characters, as \u00xx with small letters. */
  function PieceOf(c: byte): (p: Piece)
    ensures WellFormed(p) && Denoted(p) == [c] && !HighHalf(p) && !LowHalf(p)
    ensures p.Raw? <==> c >= 0x20 && c != 0x22 && c != 0x5C
    ensures p.Unit? <==> c < 0x20 && c !in {0x08, 0x09, 0x0A, 0x0C, 0x0D}
    ensures p.Unit? ==> forall d :: d in p.hex ==> 48 <= d <= 57 || 97 <= d <= 102
    ensures 0 !in Written(p) || c == 0
  {
    if c > 31 && c != QUOTE && c != BACKSLASH then Raw(c)
    else if c == BACKSLASH || c == QUOTE then Short(c)
    else if c == 8 then Short(98)
    else if c == 12 then Short(102)
    else if c == 10 then Short(110)
    else if c == 13 then Short(114)
    else if c == 9 then Short(116)
    else UnitOf(c)
  }

  function UnitOf(c: byte): (p: Piece)
    requires c < 32
    ensures p.Unit? && WellFormed(p) && Denoted(p) == [c] && !HighHalf(p) && !LowHalf(p)
    ensures forall d :: d in p.hex ==> 48 <= d <= 57 || 97 <= d <= 102
  {
    UnitHexIs(c);
    Unit(UnitHex(c))
  }

  function UnitHex(c: byte): (hex: Text)
    requires c < 32
    ensures |hex| == 4 && forall d :: d in hex ==> 48 <= d <= 57 || 97 <= d <= 102
  {
    [48, 48, HexDigit(c / 16), HexDigit(c % 16)]
  }

  lemma UnitHexIs(c: byte)
    requires c < 32
    ensures Spells(UnitHex(c), c) && UnitCode(UnitHex(c)) == c
  {
    var hex := UnitHex(c);
    assert IsHex4(hex) && Hex4(hex) == c;
    Hex4Spells(hex);
    UnitCodeIsHex4(hex);
  }

  function PiecesOf(s: Text): (r: seq<Piece>)
    ensures AllWellFormed(r) && |r| == |s|
  {
    if s == [] then [] else [PieceOf(s[0])] + PiecesOf(s[1..])
  }

  function Escaped(s: Text): Text {
    WrittenAll(PiecesOf(s))
  }

  /** The string literal the printer writes for `s`. */
  function Quoted(s: Text): (r: Text)
    ensures |r| >= 2 && r[0] == QUOTE
  {
    [QUOTE] + Escaped(s) + [QUOTE]
  }

  lemma {:induction false} PiecesDenote(s: Text)
    ensures DenotedAll(PiecesOf(s)) == s && Paired(PiecesOf(s))
  {
    hide PieceOf;
    if s != [] {
      PiecesDenote(s[1..]);
    }
  }

  /** Printing a NUL-free string and parsing it back gives the string. */
  lemma StringRoundTrip(s: Text, rest: Text)
    requires 0 !in s
    ensures ParseString(Quoted(s) + rest) == Ok(s, rest)
  {
    WellFormedIsLiteral(PiecesOf(s));
    LiteralParses(PiecesOf(s), rest);
    PiecesDenote(s);
    CStringOfNulFree(s);
  }

  lemma {:induction false} EscapedNulFree(s: Text)
    requires 0 !in s
    ensures 0 !in Escaped(s)
  {
    if s != [] {
      EscapedNulFree(s[1..]);
    }
  }
}
