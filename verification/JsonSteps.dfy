/** Single steps of the parser, on inputs of which only the relevant part is known. */
module JsonSteps {
  import opened Bytes
  import opened JsonStrings
  import opened JsonNumbers
  import opened JsonText

  /** Insignificant whitespace (RFC 8259, section 2). */
  predicate Blank(w: Text) {
    forall i :: 0 <= i < |w| ==> w[i] == 9 || w[i] == 10 || w[i] == 13 || w[i] == 32
  }

  /** What the parser skips. */
  predicate Skippable(w: Text) {
    forall i :: 0 <= i < |w| ==> w[i] <= 32
  }

  lemma {:induction false} SkipBlank(w: Text, t: Text)
    requires Skippable(w) && Terminated(t) && t[0] > 32
    ensures SkipWhitespace(w + t) == t
  {
    if w == [] {
      assert w + t == t;
    } else {
      assert (w + t)[1..] == w[1..] + t;
      SkipBlank(w[1..], t);
    }
  }

  /** What is skipped in front of `s`. */
  lemma {:induction false} SkippedFront(s: Text) returns (w: Text)
    requires Terminated(s)
    ensures Skippable(w) && s == w + SkipWhitespace(s)
  {
    if |s| > 1 && s[0] <= 32 {
      var back := SkippedFront(s[1..]);
      w := [s[0]] + back;
    } else {
      w := [];
    }
  }

  /** The parser gets to the end exactly if it can skip everything. */
  lemma {:induction false} SkipToEnd(w: Text)
    ensures SkipWhitespace(w + [0])[0] == 0 <==> Skippable(w)
  {
    if w == [] {
      assert w + [0] == [0];
    } else {
      assert (w + [0])[1..] == w[1..] + [0];
      if w[0] <= 32 {
        SkipToEnd(w[1..]);
        assert w == [w[0]] + w[1..];
      } else {
        assert SkipWhitespace(w + [0]) == w + [0];
      }
    }
  }

  // ----- Values

  lemma WordStep(libc: Libc, v: Json, word: Text, rest: Text, nested: nat)
    requires (v == Null && word == NULL_TEXT) || (v == False && word == FALSE_TEXT) || (v == True && word == TRUE_TEXT)
    requires Terminated(rest)
    ensures ParseValue(libc, word + rest, nested) == Ok(v, rest)
  {
    var s := word + rest;
    assert s[..|word|] == word && s[|word|..] == rest;
    assert s[0] == word[0];
  }

  lemma StringStep(libc: Libc, s: Text, nested: nat)
    requires Terminated(s) && s[0] == QUOTE
    ensures ParseValue(libc, s, nested) ==
      match ParseString(s)
      case Fail => Fail
      case Ok(bytes, rest) => Ok(String(bytes), rest)
  {
    hide ParseString;
  }

  lemma NumberStep(libc: Libc, s: Text, nested: nat)
    requires Terminated(s) && (s[0] == 45 || IsDigit(s[0]))
    ensures ParseValue(libc, s, nested) == ParseNumber(libc, s)
  {
    assert !StartsWith(s, NULL_TEXT) && !StartsWith(s, FALSE_TEXT) && !StartsWith(s, TRUE_TEXT);
  }

  lemma ArrayStep(libc: Libc, s: Text, t: Text, nested: nat)
    requires Terminated(s) && s[0] == OPEN_ARRAY && SkipWhitespace(s[1..]) == t
    ensures ParseValue(libc, s, nested) ==
      if nested >= NESTING_LIMIT then Fail
      else if t[0] == CLOSE_ARRAY then Ok(Array([]), t[1..])
      else match ParseItems(libc, t, nested + 1)
        case Fail => Fail
        case Ok(items, rest) => Ok(Array(items), rest)
  {
  }

  lemma ObjectStep(libc: Libc, s: Text, t: Text, nested: nat)
    requires Terminated(s) && s[0] == OPEN_OBJECT && SkipWhitespace(s[1..]) == t
    ensures ParseValue(libc, s, nested) ==
      if nested >= NESTING_LIMIT then Fail
      else if t[0] == CLOSE_OBJECT then Ok(Object([]), t[1..])
      else match ParseMembers(libc, t, nested + 1)
        case Fail => Fail
        case Ok(members, rest) => Ok(Object(members), rest)
  {
  }

  lemma StartsNothing(libc: Libc, s: Text, nested: nat)
    requires Terminated(s) && !StartsWith(s, NULL_TEXT) && !StartsWith(s, FALSE_TEXT) && !StartsWith(s, TRUE_TEXT)
    requires s[0] != QUOTE && s[0] != 45 && !IsDigit(s[0]) && s[0] != OPEN_ARRAY && s[0] != OPEN_OBJECT
    ensures ParseValue(libc, s, nested) == Fail
  {
  }

  // ----- Elements

  /** No array goes on behind what is no value, or in the middle of a number. */
  lemma NoItem(libc: Libc, s: Text, nested: nat)
    requires Terminated(s)
    ensures var r := ParseValue(libc, SkipWhitespace(s), nested);
      r.Fail? || IsNumberByte(r.rest[0]) ==> ParseItems(libc, s, nested) == Fail
  {
  }

  /** Blanks in front of the first element do not matter. */
  lemma ItemsAfterBlank(libc: Libc, s: Text, nested: nat)
    requires Terminated(s)
    ensures ParseItems(libc, SkipWhitespace(s), nested) == ParseItems(libc, s, nested)
  {
    assert SkipWhitespace(SkipWhitespace(s)) == SkipWhitespace(s);
  }

  /** After an element, blanks and a comma the others follow. */
  lemma ParsesNextItem(libc: Libc, s: Text, item: Json, w: Text, after: Text, nested: nat)
    requires Terminated(s) && Terminated(after) && Skippable(w)
    requires ParseValue(libc, SkipWhitespace(s), nested) == Ok(item, w + ([COMMA] + after))
    ensures ParseItems(libc, s, nested) ==
      match ParseItems(libc, after, nested)
      case Fail => Fail
      case Ok(items, end) => Ok([item] + items, end)
  {
    SkipBlank(w, [COMMA] + after);
    assert ([COMMA] + after)[1..] == after;
  }

  lemma ParsesLastItem(libc: Libc, s: Text, item: Json, w: Text, rest: Text, nested: nat)
    requires Terminated(s) && Terminated(rest) && Skippable(w)
    requires ParseValue(libc, SkipWhitespace(s), nested) == Ok(item, w + ([CLOSE_ARRAY] + rest))
    ensures ParseItems(libc, s, nested) == Ok([item], rest)
  {
    SkipBlank(w, [CLOSE_ARRAY] + rest);
    assert ([CLOSE_ARRAY] + rest)[1..] == rest;
  }

  // ----- Members

  lemma MemberStep(libc: Libc, s: Text, key: Text, t: Text, nested: nat)
    requires Terminated(s) && ParseString(SkipWhitespace(s)).Ok? && ParseString(SkipWhitespace(s)).value == key
    requires SkipWhitespace(ParseString(SkipWhitespace(s)).rest) == t && t[0] == COLON
    ensures ParseMember(libc, s, nested) ==
      match ParseValue(libc, SkipWhitespace(t[1..]), nested)
      case Fail => Fail
      case Ok(value, end) => Ok(Member(key, value), end)
  {
    hide ParseValue, ParseString;
  }

  /** A name that is no string ends the object. */
  lemma NoName(libc: Libc, s: Text, nested: nat)
    requires Terminated(s) && ParseString(SkipWhitespace(s)) == Fail
    ensures ParseMember(libc, s, nested) == Fail
  {
    hide ParseValue, ParseString;
  }

  lemma NoMember(libc: Libc, s: Text, nested: nat)
    requires Terminated(s)
    ensures var r := ParseMember(libc, s, nested);
      r.Fail? || IsNumberByte(r.rest[0]) ==> ParseMembers(libc, s, nested) == Fail
  {
    hide ParseMember;
  }

  lemma MemberAfterBlank(libc: Libc, s: Text, nested: nat)
    requires Terminated(s)
    ensures ParseMember(libc, SkipWhitespace(s), nested) == ParseMember(libc, s, nested)
  {
    hide ParseValue, ParseString;
    assert SkipWhitespace(SkipWhitespace(s)) == SkipWhitespace(s);
  }

  lemma MembersAfterBlank(libc: Libc, s: Text, nested: nat)
    requires Terminated(s)
    ensures ParseMembers(libc, SkipWhitespace(s), nested) == ParseMembers(libc, s, nested)
  {
    hide ParseMember;
    MemberAfterBlank(libc, s, nested);
  }

  lemma ParsesNextMember(libc: Libc, s: Text, member: Member, w: Text, after: Text, nested: nat)
    requires Terminated(s) && Terminated(after) && Skippable(w)
    requires ParseMember(libc, s, nested) == Ok(member, w + ([COMMA] + after))
    ensures ParseMembers(libc, s, nested) ==
      match ParseMembers(libc, after, nested)
      case Fail => Fail
      case Ok(members, end) => Ok([member] + members, end)
  {
    hide ParseMember;
    SkipBlank(w, [COMMA] + after);
    assert ([COMMA] + after)[1..] == after;
  }

  lemma ParsesLastMember(libc: Libc, s: Text, member: Member, w: Text, rest: Text, nested: nat)
    requires Terminated(s) && Terminated(rest) && Skippable(w)
    requires ParseMember(libc, s, nested) == Ok(member, w + ([CLOSE_OBJECT] + rest))
    ensures ParseMembers(libc, s, nested) == Ok([member], rest)
  {
    hide ParseMember;
    SkipBlank(w, [CLOSE_OBJECT] + rest);
    assert ([CLOSE_OBJECT] + rest)[1..] == rest;
  }
}
