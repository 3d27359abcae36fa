/** What the parser accepts can be printed again; whether it then means the same can be read off the
    parsed tree. */
module JsonParsed {
  import opened Bytes
  import opened JsonStrings
  import opened JsonNumbers
  import opened JsonText
  import opened JsonSteps
  import opened JsonGrammar
  import opened JsonDocuments
  import opened JsonRoundTrip

  lemma NumberIsScalar(libc: Libc, s: Text)
    requires Terminated(s)
    ensures ParseNumber(libc, s).Ok? ==> ParseNumber(libc, s).value.Number?
  {
  }

  lemma ScalarIsPrintable(libc: Libc, s: Text, nested: nat)
    requires Terminated(s) && s[0] != 45 && !IsDigit(s[0]) && s[0] != OPEN_ARRAY && s[0] != OPEN_OBJECT
    ensures var r := ParseValue(libc, s, nested); r.Ok? ==> CStrings(r.value) && Nesting(r.value) == 0
  {
  }

  /** Strings are cut at a NUL, and no container opens past the limit. */
  lemma {:induction false} ParsedIsPrintable(libc: Libc, s: Text, nested: nat)
    requires Terminated(s) && nested <= NESTING_LIMIT
    ensures var r := ParseValue(libc, s, nested);
      r.Ok? ==> CStrings(r.value) && nested + Nesting(r.value) <= NESTING_LIMIT
    decreases |s|, 0
  {
    hide ParseValue, ParseItems, ParseMembers, ParseNumber;
    if s[0] == 45 || IsDigit(s[0]) {
      NumberStep(libc, s, nested);
      NumberIsScalar(libc, s);
    } else if s[0] == OPEN_ARRAY {
      var t := SkipWhitespace(s[1..]);
      ArrayStep(libc, s, t, nested);
      if t[0] != CLOSE_ARRAY && nested < NESTING_LIMIT {
        ItemsArePrintable(libc, t, nested + 1);
      }
    } else if s[0] == OPEN_OBJECT {
      var t := SkipWhitespace(s[1..]);
      ObjectStep(libc, s, t, nested);
      if t[0] != CLOSE_OBJECT && nested < NESTING_LIMIT {
        MembersArePrintable(libc, t, nested + 1);
      }
    } else {
      ScalarIsPrintable(libc, s, nested);
    }
  }

  lemma {:induction false} ItemsArePrintable(libc: Libc, s: Text, nested: nat)
    requires Terminated(s) && nested <= NESTING_LIMIT
    ensures var r := ParseItems(libc, s, nested);
      r.Ok? ==> CStrings(Array(r.value)) && nested + NestingItems(r.value) <= NESTING_LIMIT
    decreases |s|, 1
  {
    hide ParseValue;
    ParsedIsPrintable(libc, SkipWhitespace(s), nested);
    var first := ParseValue(libc, SkipWhitespace(s), nested);
    if first.Ok? {
      var t := SkipWhitespace(first.rest);
      if t[0] == COMMA {
        ItemsArePrintable(libc, t[1..], nested);
        var r := ParseItems(libc, t[1..], nested);
        if r.Ok? {
          assert ([first.value] + r.value)[1..] == r.value;
        }
      }
    }
  }

  lemma {:induction false} MembersArePrintable(libc: Libc, s: Text, nested: nat)
    requires Terminated(s) && nested <= NESTING_LIMIT
    ensures var r := ParseMembers(libc, s, nested);
      r.Ok? ==> CStrings(Object(r.value)) && nested + NestingMembers(r.value) <= NESTING_LIMIT
    decreases |s|, 2
  {
    hide ParseMember, ParseValue;
    MemberIsPrintable(libc, s, nested);
    var first := ParseMember(libc, s, nested);
    if first.Ok? {
      var t := SkipWhitespace(first.rest);
      if t[0] == COMMA {
        MembersArePrintable(libc, t[1..], nested);
        var r := ParseMembers(libc, t[1..], nested);
        if r.Ok? {
          assert ([first.value] + r.value)[1..] == r.value;
        }
      }
    }
  }

  lemma {:induction false} MemberIsPrintable(libc: Libc, s: Text, nested: nat)
    requires Terminated(s) && nested <= NESTING_LIMIT
    ensures var r := ParseMember(libc, s, nested);
      r.Ok? ==> 0 !in r.value.key && CStrings(r.value.value) && nested + Nesting(r.value.value) <= NESTING_LIMIT
    decreases |s|, 1
  {
    hide ParseValue;
    var key := ParseString(SkipWhitespace(s));
    if key.Ok? {
      var t := SkipWhitespace(key.rest);
      if t[0] == COLON {
        ParsedIsPrintable(libc, SkipWhitespace(t[1..]), nested);
      }
    }
  }

  /** Every document the parser accepts is printed, in either format, as a text that is accepted
      again; it gives the same tree exactly if every number was read as a finite one, and null in
      place of the others. */
  lemma ReformattingKeepsMeaning(libc: Libc, text: Text, requireEnd: bool, format: bool)
    requires Sound(libc)
    ensures var v := ParseDocument(libc, text, requireEnd);
      v.Some? ==>
        && CStrings(v.value) && Nesting(v.value) <= NESTING_LIMIT
        && ParseDocument(libc, Render(libc, v.value, 0, format), true) == Some(Nulled(v.value))
        && (ParseDocument(libc, Render(libc, v.value, 0, format), true) == v <==> AllFinite(v.value))
  {
    var v := ParseDocument(libc, text, requireEnd);
    if v.Some? {
      ParsedIsPrintable(libc, SkipWhitespace(SkipByteOrderMark(text + [0])), 0);
      hide ParseDocument, Render, Nulled, AllFinite;
      DocumentRoundTrip(libc, v.value, format, true);
      NulledIsSame(v.value);
    }
  }

  /** 1e999 */
  const HUGE_NUMBER: Text := [49, 101, 57, 57, 57]

  /** A number beyond the range of a double is accepted, printed as null, and null is read back. */
  lemma OverflowBecomesNull(libc: Libc, format: bool)
    requires libc.strtod(HUGE_NUMBER) == Infinite(false)
    ensures var v := Number(Infinite(false));
      && ParseDocument(libc, HUGE_NUMBER, true) == Some(v)
      && Render(libc, v, 0, format) == NULL_TEXT
      && ParseDocument(libc, Render(libc, v, 0, format), true) == Some(Null)
  {
    var form := NumberForm(false, [49], None, Some(Power(101, None, [57, 57, 57])));
    assert NumberWritten(form) == HUGE_NUMBER && ToleratedNumber(form);
    var v := Number(Infinite(false));
    assert Render(libc, v, 0, format) == NULL_TEXT;
    assert TextOf(NullWord) == NULL_TEXT && Meaning(libc, NullWord) == Null;
    assert TextOf(NumberWord(form)) == HUGE_NUMBER && Meaning(libc, NumberWord(form)) == v;
    hide *;
    WordDocument(libc, NumberWord(form));
    WordDocument(libc, NullWord);
  }

  lemma WordDocument(libc: Libc, x: Syntax)
    requires x == NullWord || (x.NumberWord? && ToleratedNumber(x.form) && |NumberWritten(x.form)| <= LONGEST_NUMBER)
    ensures ParseDocument(libc, TextOf(x), true) == Some(Meaning(libc, x))
  {
    assert Tolerable(x) && Readable(x) && Depth(x) == 0 && Skippable([]) && Cut(Meaning(libc, x)) == Meaning(libc, x);
    assert Document(false, [], x, []) == TextOf(x);
    hide *;
    DocumentParses(libc, false, [], x, [], true);
  }
}
