/** Which documents the parser accepts: exactly the texts of the wider grammar that stay within its
    limits, and as the trees they denote. */
module JsonDocuments {
  import opened Bytes
  import opened JsonStrings
  import opened JsonLiterals
  import opened JsonNumbers
  import opened JsonText
  import opened JsonSteps
  import opened JsonGrammar

  // ----- Only texts of the grammar parse

  /** `x` is a text the parser takes in front of `rest`, inside `nested` containers, and `v` is what
      it denotes. */
  ghost predicate Reads(libc: Libc, s: Text, x: Syntax, v: Json, rest: Text, nested: nat) {
    && Tolerable(x) && Readable(x) && nested + Depth(x) <= NESTING_LIMIT
    && s == TextOf(x) + rest && v == Cut(Meaning(libc, x))
  }

  ghost predicate ReadsElements(libc: Libc, s: Text, es: seq<Element>, items: seq<Json>, rest: Text, nested: nat) {
    && es != [] && (forall i :: 0 <= i < |es| ==> TolerableElement(es[i])) && ReadableElements(es)
    && nested + ElementsDepth(es) <= NESTING_LIMIT
    && s == ElementsText(es) + ([CLOSE_ARRAY] + rest) && items == CutItems(Items(libc, es))
  }

  ghost predicate ReadsFields(libc: Libc, s: Text, fs: seq<FieldForm>, members: seq<Member>, rest: Text, nested: nat) {
    && fs != [] && (forall i :: 0 <= i < |fs| ==> TolerableField(fs[i])) && ReadableFields(fs)
    && nested + FieldsDepth(fs) <= NESTING_LIMIT
    && s == FieldsText(fs) + ([CLOSE_OBJECT] + rest) && members == CutMembers(Members(libc, fs))
  }

  /** A member, up to its value. */
  ghost predicate ReadsField(libc: Libc, s: Text, f: FieldForm, m: Member, rest: Text, nested: nat) {
    && TolerableField(f) && f.after == [] && ReadableField(f) && nested + Depth(f.value) <= NESTING_LIMIT
    && s == f.before + (MemberText(f) + rest) && m == CutMember(MemberOf(libc, f))
  }

  lemma WordRead(libc: Libc, s: Text, nested: nat, x: Syntax, word: Text, v: Json)
    requires Terminated(s) && StartsWith(s, word) && nested <= NESTING_LIMIT
    requires
      || (x == NullWord && word == NULL_TEXT && v == Null)
      || (x == FalseWord && word == FALSE_TEXT && v == False)
      || (x == TrueWord && word == TRUE_TEXT && v == True)
    ensures |word| < |s| && ParseValue(libc, s, nested) == Ok(v, s[|word|..])
    ensures Reads(libc, s, x, v, s[|word|..], nested)
  {
    assert s[|word| - 1] == word[|word| - 1];
    assert s == word + s[|word|..];
    WordStep(libc, v, word, s[|word|..], nested);
  }

  lemma NumberRead(libc: Libc, s: Text, nested: nat) returns (x: Syntax)
    requires Terminated(s) && (s[0] == 45 || IsDigit(s[0])) && ParseNumber(libc, s).Ok? && nested <= NESTING_LIMIT
    ensures var r := ParseNumber(libc, s); Reads(libc, s, x, r.value, r.rest, nested)
  {
    var run := s[..NumberRun(s, 63)];
    assert NumberRun(s, 63) > 0 && run[0] == s[0];
    hide Taken, ToleratedNumber, NumberWritten, NumberRun;
    var form := TakenIsNumber(run);
    x := NumberWord(form);
    NumberReads(libc, s, run, Taken(run), form, nested);
  }

  lemma NumberReads(libc: Libc, s: Text, run: Text, n: nat, form: NumberForm, nested: nat)
    requires run <= s && n <= |run| <= 63 && ToleratedNumber(form) && NumberWritten(form) == run[..n]
    requires nested <= NESTING_LIMIT
    ensures Reads(libc, s, NumberWord(form), Number(libc.strtod(run[..n])), s[n..], nested)
  {
    hide ToleratedNumber, NumberWritten;
    assert run[..n] == s[..n] && s == s[..n] + s[n..];
  }

  lemma StringRead(libc: Libc, s: Text, nested: nat) returns (x: Syntax)
    requires Terminated(s) && s[0] == QUOTE && ParseValue(libc, s, nested).Ok? && nested <= NESTING_LIMIT
    ensures var r := ParseValue(libc, s, nested); Reads(libc, s, x, r.value, r.rest, nested)
  {
    hide ParseValue, ParseString, Reads;
    StringStep(libc, s, nested);
    var ps := ParsedIsLiteral(s);
    x := StringWord(ps);
    StringReads(libc, ps, ParseString(s).rest, nested);
  }

  lemma StringReads(libc: Libc, ps: seq<Piece>, rest: Text, nested: nat)
    requires IsLiteral(ps) && Paired(ps) && nested <= NESTING_LIMIT
    ensures Reads(libc, LiteralText(ps) + rest, StringWord(ps), String(CString(DenotedAll(ps))), rest, nested)
  {
    hide IsLiteral, Paired, LiteralText, DenotedAll, CString;
  }

  lemma {:induction false} ValueIsTolerable(libc: Libc, s: Text, nested: nat) returns (x: Syntax)
    requires Terminated(s) && nested <= NESTING_LIMIT && ParseValue(libc, s, nested).Ok?
    ensures var r := ParseValue(libc, s, nested); Reads(libc, s, x, r.value, r.rest, nested)
    decreases |s|, 0
  {
    hide ParseValue, ParseNumber, Reads, StartsWith;
    if StartsWith(s, NULL_TEXT) {
      x := NullWord;
      WordRead(libc, s, nested, x, NULL_TEXT, Null);
    } else if StartsWith(s, FALSE_TEXT) {
      x := FalseWord;
      WordRead(libc, s, nested, x, FALSE_TEXT, False);
    } else if StartsWith(s, TRUE_TEXT) {
      x := TrueWord;
      WordRead(libc, s, nested, x, TRUE_TEXT, True);
    } else if s[0] == QUOTE {
      x := StringRead(libc, s, nested);
    } else if s[0] == 45 || IsDigit(s[0]) {
      NumberStep(libc, s, nested);
      x := NumberRead(libc, s, nested);
    } else if s[0] == OPEN_ARRAY {
      x := ArrayRead(libc, s, nested);
    } else if s[0] == OPEN_OBJECT {
      x := ObjectRead(libc, s, nested);
    } else {
      StartsNothing(libc, s, nested);
    }
  }

  lemma {:induction false} ArrayRead(libc: Libc, s: Text, nested: nat) returns (x: Syntax)
    requires Terminated(s) && nested <= NESTING_LIMIT && s[0] == OPEN_ARRAY && ParseValue(libc, s, nested).Ok?
    ensures var r := ParseValue(libc, s, nested); Reads(libc, s, x, r.value, r.rest, nested)
    decreases |s|, 0, 0
  {
    hide ParseValue, ParseItems, SkipWhitespace, Reads, ReadsElements;
    var u := s[1..];
    var t := SkipWhitespace(u);
    ArrayStep(libc, s, t, nested);
    if t[0] == CLOSE_ARRAY {
      var w := SkippedFront(u);
      x := ArrayForm(w, []);
      EmptyArrayReads(libc, s, w, t[1..], nested);
    } else {
      ItemsAfterBlank(libc, u, nested + 1);
      var es := ItemsRead(libc, u, nested + 1);
      x := ArrayForm([], es);
      ArrayReads(libc, s, es, ParseItems(libc, u, nested + 1).value, ParseItems(libc, u, nested + 1).rest, nested);
    }
  }

  lemma EmptyArrayReads(libc: Libc, s: Text, w: Text, rest: Text, nested: nat)
    requires |s| > 0 && s[0] == OPEN_ARRAY && Skippable(w) && s[1..] == w + ([CLOSE_ARRAY] + rest)
    requires nested < NESTING_LIMIT
    ensures Reads(libc, s, ArrayForm(w, []), Array([]), rest, nested)
  {
    assert s == [OPEN_ARRAY] + s[1..];
    Regroup([OPEN_ARRAY], w + [CLOSE_ARRAY], rest);
    Regroup(w, [CLOSE_ARRAY], rest);
  }

  lemma ArrayReads(libc: Libc, s: Text, es: seq<Element>, items: seq<Json>, rest: Text, nested: nat)
    requires |s| > 0 && s[0] == OPEN_ARRAY && ReadsElements(libc, s[1..], es, items, rest, nested + 1)
    ensures Reads(libc, s, ArrayForm([], es), Array(items), rest, nested)
  {
    var x := ArrayForm([], es);
    ArrayParts(libc, x);
    ArrayLayout(x, rest);
    hide ElementsText, Items, CutItems, ElementsDepth, ReadableElements, TextOf, Meaning, Cut, Depth, Readable;
    assert s == [OPEN_ARRAY] + s[1..];
  }

  lemma {:induction false} ItemsRead(libc: Libc, s: Text, nested: nat) returns (es: seq<Element>)
    requires Terminated(s) && nested <= NESTING_LIMIT && ParseItems(libc, s, nested).Ok?
    ensures var r := ParseItems(libc, s, nested); ReadsElements(libc, s, es, r.value, r.rest, nested)
    decreases |s|, 1
  {
    hide ParseValue, SkipWhitespace, Reads, ReadsElements;
    var w := SkippedFront(s);
    var v := ParseValue(libc, SkipWhitespace(s), nested);
    var x := ValueIsTolerable(libc, SkipWhitespace(s), nested);
    var after := SkippedFront(v.rest);
    var t := SkipWhitespace(v.rest);
    var e := Element(w, x, after);
    assert t == [t[0]] + t[1..];
    if t[0] == COMMA {
      var back := ItemsRead(libc, t[1..], nested);
      var r := ParseItems(libc, t[1..], nested);
      es := [e] + back;
      FirstElementReads(libc, s, SkipWhitespace(s), e, v.value, t[1..], back, r.value, r.rest, nested);
    } else {
      es := [e];
      LastElementReads(libc, s, SkipWhitespace(s), e, v.value, t[1..], nested);
    }
  }

  lemma LastElementReads(libc: Libc, s: Text, u: Text, e: Element, v: Json, rest: Text, nested: nat)
    requires Skippable(e.before) && Skippable(e.after)
    requires s == e.before + u && Reads(libc, u, e.value, v, e.after + ([CLOSE_ARRAY] + rest), nested)
    ensures ReadsElements(libc, s, [e], [v], rest, nested)
  {
    hide ElementsText, TextOf, Meaning, Cut, Depth, Readable, Tolerable;
    OneElement(libc, e);
    LastElementText(e, [CLOSE_ARRAY] + rest);
  }

  lemma FirstElementReads(libc: Libc, s: Text, u: Text, e: Element, v: Json, more: Text, es: seq<Element>,
                          items: seq<Json>, rest: Text, nested: nat)
    requires Skippable(e.before) && Skippable(e.after) && ReadsElements(libc, more, es, items, rest, nested)
    requires s == e.before + u && Reads(libc, u, e.value, v, e.after + ([COMMA] + more), nested)
    ensures ReadsElements(libc, s, [e] + es, [v] + items, rest, nested)
  {
    var all := [e] + es;
    assert all[1..] == es;
    CutInFront(Meaning(libc, e.value), Items(libc, es));
    FirstElementText(all, [CLOSE_ARRAY] + rest);
    ElementInFront(libc, e, es);
    hide ElementsText, TextOf, Meaning, Cut, Depth, Readable, Tolerable, Items, CutItems;
  }

  // ----- Objects

  lemma {:induction false} ObjectRead(libc: Libc, s: Text, nested: nat) returns (x: Syntax)
    requires Terminated(s) && nested <= NESTING_LIMIT && s[0] == OPEN_OBJECT && ParseValue(libc, s, nested).Ok?
    ensures var r := ParseValue(libc, s, nested); Reads(libc, s, x, r.value, r.rest, nested)
    decreases |s|, 0, 0
  {
    hide ParseValue, ParseMembers, SkipWhitespace, Reads, ReadsFields;
    var u := s[1..];
    var t := SkipWhitespace(u);
    ObjectStep(libc, s, t, nested);
    if t[0] == CLOSE_OBJECT {
      var w := SkippedFront(u);
      x := ObjectForm(w, []);
      EmptyObjectReads(libc, s, w, t[1..], nested);
    } else {
      MembersAfterBlank(libc, u, nested + 1);
      var fs := MembersRead(libc, u, nested + 1);
      x := ObjectForm([], fs);
      var r := ParseMembers(libc, u, nested + 1);
      ObjectReads(libc, s, fs, r.value, r.rest, nested);
    }
  }

  lemma EmptyObjectReads(libc: Libc, s: Text, w: Text, rest: Text, nested: nat)
    requires |s| > 0 && s[0] == OPEN_OBJECT && Skippable(w) && s[1..] == w + ([CLOSE_OBJECT] + rest)
    requires nested < NESTING_LIMIT
    ensures Reads(libc, s, ObjectForm(w, []), Object([]), rest, nested)
  {
    assert s == [OPEN_OBJECT] + s[1..];
    Regroup([OPEN_OBJECT], w + [CLOSE_OBJECT], rest);
    Regroup(w, [CLOSE_OBJECT], rest);
  }

  lemma ObjectReads(libc: Libc, s: Text, fs: seq<FieldForm>, members: seq<Member>, rest: Text, nested: nat)
    requires |s| > 0 && s[0] == OPEN_OBJECT && ReadsFields(libc, s[1..], fs, members, rest, nested + 1)
    ensures Reads(libc, s, ObjectForm([], fs), Object(members), rest, nested)
  {
    var x := ObjectForm([], fs);
    ObjectParts(libc, x);
    ObjectLayout(x, rest);
    hide FieldsText, Members, CutMembers, FieldsDepth, ReadableFields, TextOf, Meaning, Cut, Depth, Readable;
    assert s == [OPEN_OBJECT] + s[1..];
  }

  lemma {:induction false} MembersRead(libc: Libc, s: Text, nested: nat) returns (fs: seq<FieldForm>)
    requires Terminated(s) && nested <= NESTING_LIMIT && ParseMembers(libc, s, nested).Ok?
    ensures var r := ParseMembers(libc, s, nested); ReadsFields(libc, s, fs, r.value, r.rest, nested)
    decreases |s|, 2
  {
    hide ParseMember, SkipWhitespace, ReadsField, ReadsFields;
    var m := ParseMember(libc, s, nested);
    var f := MemberRead(libc, s, nested);
    var after := SkippedFront(m.rest);
    var t := SkipWhitespace(m.rest);
    assert t == [t[0]] + t[1..];
    if t[0] == COMMA {
      var back := MembersRead(libc, t[1..], nested);
      var r := ParseMembers(libc, t[1..], nested);
      fs := [f.(after := after)] + back;
      FirstFieldReads(libc, s, f, m.value, after, t[1..], back, r.value, r.rest, nested);
    } else {
      fs := [f.(after := after)];
      LastFieldReads(libc, s, f, m.value, after, t[1..], nested);
    }
  }

  lemma LastFieldReads(libc: Libc, s: Text, f: FieldForm, m: Member, after: Text, rest: Text, nested: nat)
    requires ReadsField(libc, s, f, m, after + ([CLOSE_OBJECT] + rest), nested) && Skippable(after)
    ensures ReadsFields(libc, s, [f.(after := after)], [m], rest, nested)
  {
    var g := f.(after := after);
    assert MemberText(g) == MemberText(f) && MemberOf(libc, g) == MemberOf(libc, f);
    hide FieldsText, MemberText, MemberOf, CutMember, Depth, Readable, Tolerable;
    OneField(libc, g);
    LastFieldText(g, [CLOSE_OBJECT] + rest);
  }

  lemma FirstFieldReads(libc: Libc, s: Text, f: FieldForm, m: Member, after: Text, more: Text, fs: seq<FieldForm>,
                        members: seq<Member>, rest: Text, nested: nat)
    requires ReadsField(libc, s, f, m, after + ([COMMA] + more), nested) && Skippable(after)
    requires ReadsFields(libc, more, fs, members, rest, nested)
    ensures ReadsFields(libc, s, [f.(after := after)] + fs, [m] + members, rest, nested)
  {
    var g := f.(after := after);
    var all := [g] + fs;
    assert MemberText(g) == MemberText(f) && MemberOf(libc, g) == MemberOf(libc, f);
    assert all[1..] == fs;
    CutMemberInFront(MemberOf(libc, g), Members(libc, fs));
    FirstFieldText(all, [CLOSE_OBJECT] + rest);
    FieldInFront(libc, g, fs);
    hide FieldsText, MemberText, MemberOf, CutMember, Depth, Readable, Tolerable, Members, CutMembers;
  }

  lemma {:induction false} MemberRead(libc: Libc, s: Text, nested: nat) returns (f: FieldForm)
    requires Terminated(s) && nested <= NESTING_LIMIT && ParseMember(libc, s, nested).Ok?
    ensures var r := ParseMember(libc, s, nested); ReadsField(libc, s, f, r.value, r.rest, nested)
    decreases |s|, 1
  {
    hide ParseValue, ParseString, SkipWhitespace, Reads, ReadsField;
    var before := SkippedFront(s);
    var key := ParseString(SkipWhitespace(s));
    var ps := ParsedIsLiteral(SkipWhitespace(s));
    var gap := SkippedFront(key.rest);
    var t := SkipWhitespace(key.rest);
    assert t == [COLON] + t[1..];
    var space := SkippedFront(t[1..]);
    var v := ParseValue(libc, SkipWhitespace(t[1..]), nested);
    var x := ValueIsTolerable(libc, SkipWhitespace(t[1..]), nested);
    f := FieldForm(before, ps, gap, space, x, []);
    FieldReads(libc, s, SkipWhitespace(t[1..]), f, v.value, v.rest, nested);
  }

  lemma FieldReads(libc: Libc, s: Text, u: Text, f: FieldForm, v: Json, rest: Text, nested: nat)
    requires Skippable(f.before) && IsLiteral(f.key) && Paired(f.key) && Skippable(f.gap) && Skippable(f.space)
    requires f.after == [] && Reads(libc, u, f.value, v, rest, nested)
    requires s == f.before + (LiteralText(f.key) + (f.gap + ([COLON] + (f.space + u))))
    ensures ReadsField(libc, s, f, Member(CString(DenotedAll(f.key)), v), rest, nested)
  {
    hide TextOf, Meaning, Cut, Depth, Readable, Tolerable, Paired, IsLiteral, LiteralText, MemberText;
    MemberLayout(f, rest);
  }

  // ----- Whole texts

  function Document(mark: bool, before: Text, x: Syntax, tail: Text): Text {
    (if mark then BYTE_ORDER_MARK else []) + (before + (TextOf(x) + tail))
  }

  lemma NoBlank(s: Text)
    requires Terminated(s) && IsNumberByte(s[0])
    ensures SkipWhitespace(s) == s
  {
  }

  /** What the parser makes of a text of the wider grammar with anything behind it: within the limits
      the tree it denotes, with strings cut at a NUL, if nothing but blanks follows or anything may
      follow. Otherwise nothing, but for a long number that anything may follow. */
  lemma DocumentParses(libc: Libc, mark: bool, before: Text, x: Syntax, tail: Text, requireEnd: bool)
    requires Skippable(before) && Tolerable(x) && (x.NumberWord? && tail != [] ==> !IsNumberByte(tail[0]))
    ensures ParseDocument(libc, Document(mark, before, x, tail), requireEnd) ==
      if Depth(x) <= NESTING_LIMIT && Readable(x) && (requireEnd ==> Skippable(tail)) then Some(Cut(Meaning(libc, x)))
      else if x.NumberWord? && !Readable(x) && !requireEnd then Some(FrontOfNumber(libc, TextOf(x), []).value)
      else None
  {
    hide ParseDocument, ParseValue, SkipWhitespace, TextOf, Meaning, Cut, Readable, Depth, Taken, Document, Skippable;
    var t := TextOf(x) + (tail + [0]);
    DocumentStart(mark, before, x, tail);
    DocumentStep(libc, Document(mark, before, x, tail), t, requireEnd);
    ValueParses(libc, x, tail + [0], 0);
    SkipToEnd(tail);
    if x.NumberWord? {
      WordText(x);
      NumberParses(libc, x.form, tail + [0], 0);
      if !Readable(x) {
        NoBlank(FrontOfNumber(libc, TextOf(x), tail + [0]).rest);
      }
    }
  }

  /** The parser starts at the value. */
  lemma DocumentStart(mark: bool, before: Text, x: Syntax, tail: Text)
    requires Skippable(before) && Tolerable(x)
    ensures SkipWhitespace(SkipByteOrderMark(Document(mark, before, x, tail) + [0])) == TextOf(x) + (tail + [0])
  {
    hide SkipWhitespace, SkipByteOrderMark, TextOf;
    var m: Text := if mark then BYTE_ORDER_MARK else [];
    var body := before + (TextOf(x) + tail);
    TextStart(x);
    Regroup(m, body, [0]);
    Regroup(before, TextOf(x) + tail, [0]);
    Regroup(TextOf(x), tail, [0]);
    MarkSkipped(mark, body + [0]);
    SkipBlank(before, TextOf(x) + (tail + [0]));
  }

  lemma DocumentStep(libc: Libc, text: Text, t: Text, requireEnd: bool)
    requires SkipWhitespace(SkipByteOrderMark(text + [0])) == t
    ensures ParseDocument(libc, text, requireEnd) ==
      match ParseValue(libc, t, 0)
      case Fail => None
      case Ok(v, rest) => if requireEnd && SkipWhitespace(rest)[0] != 0 then None else Some(v)
  {
  }

  lemma MarkSkipped(mark: bool, t: Text)
    requires Terminated(t) && |t| > 1 && t[0] < 0xEF
    ensures SkipByteOrderMark((if mark then BYTE_ORDER_MARK else []) + t) == t
  {
    var m: Text := if mark then BYTE_ORDER_MARK else [];
    var s := m + t;
    if mark {
      assert s[..3] == BYTE_ORDER_MARK && s[3..] == t;
    } else {
      assert s == t;
      assert !StartsWith(s, BYTE_ORDER_MARK);
    }
  }

  /** Whatever the parser accepts has a text of the grammar at its start, within the limits, and gives
      the tree which that denotes; if nothing may follow, nothing but blanks does. */
  lemma AcceptedIsTolerable(libc: Libc, text: Text, requireEnd: bool)
      returns (mark: bool, before: Text, x: Syntax, tail: Text)
    requires ParseDocument(libc, text, requireEnd).Some?
    ensures text == Document(mark, before, x, tail) && Skippable(before) && Tolerable(x)
    ensures Depth(x) <= NESTING_LIMIT && Readable(x) && (requireEnd ==> Skippable(tail))
    ensures ParseDocument(libc, text, requireEnd) == Some(Cut(Meaning(libc, x)))
  {
    hide ParseDocument, ParseValue, SkipWhitespace, SkipByteOrderMark, TextOf, Meaning, Cut, Readable, Depth, Tolerable;
    var s := SkipByteOrderMark(text + [0]);
    var t := SkipWhitespace(s);
    var r := ParseValue(libc, t, 0);
    DocumentStep(libc, text, t, requireEnd);
    x := ValueIsTolerable(libc, t, 0);
    before := SkippedFront(s);
    tail := r.rest[..|r.rest| - 1];
    assert r.rest == tail + [0];
    SkipToEnd(tail);
    mark := MarkFound(text);
    WithoutEnd(text, if mark then BYTE_ORDER_MARK else [], before, TextOf(x), tail);
  }

  lemma MarkFound(text: Text) returns (mark: bool)
    ensures text + [0] == (if mark then BYTE_ORDER_MARK else []) + SkipByteOrderMark(text + [0])
  {
    var s := text + [0];
    mark := |s| > 4 && StartsWith(s, BYTE_ORDER_MARK);
    if mark {
      assert s == s[..3] + s[3..];
    } else {
      assert s == [] + s;
    }
  }

  lemma WithoutEnd(text: Text, m: Text, before: Text, x: Text, tail: Text)
    requires text + [0] == m + (before + (x + (tail + [0])))
    ensures text == m + (before + (x + tail))
  {
    Regroup(x, tail, [0]);
    Regroup(before, x + tail, [0]);
    Regroup(m, before + (x + tail), [0]);
    var all := m + (before + (x + tail));
    assert (text + [0])[..|text|] == text && (all + [0])[..|all|] == all;
  }

  /** `text` is a text of the grammar between blanks, within the limits, and denotes `v`. */
  ghost predicate Denotes(libc: Libc, text: Text, v: Json) {
    exists mark, before, x, after :: text == Document(mark, before, x, after) && Stands(libc, before, x, after, v)
  }

  ghost predicate Stands(libc: Libc, before: Text, x: Syntax, after: Text, v: Json) {
    && Skippable(before) && Tolerable(x) && Skippable(after)
    && Depth(x) <= NESTING_LIMIT && Readable(x) && v == Cut(Meaning(libc, x))
  }

  /** Accepted with nothing behind are exactly these texts, as what they denote. */
  lemma AcceptedExactly(libc: Libc, text: Text, v: Json)
    ensures ParseDocument(libc, text, true) == Some(v) <==> Denotes(libc, text, v)
  {
    hide ParseDocument, Document, Meaning, Cut, Readable, Depth, Tolerable;
    if ParseDocument(libc, text, true) == Some(v) {
      var mark, before, x, after := AcceptedIsTolerable(libc, text, true);
      assert Stands(libc, before, x, after, v);
    }
    if Denotes(libc, text, v) {
      var mark, before, x, after :| text == Document(mark, before, x, after) && Stands(libc, before, x, after, v);
      SkippableIsNoNumber(after);
      DocumentParses(libc, mark, before, x, after, true);
    }
  }

  lemma SkippableIsNoNumber(w: Text)
    requires Skippable(w)
    ensures w != [] ==> !IsNumberByte(w[0])
  {
  }

  /** A text of RFC 8259 is read as the tree it denotes, with nothing behind it, exactly if it nests at
      most 1000 containers, its numbers have at most 63 bytes each, no half of a surrogate pair is
      alone and no string has a NUL. */
  lemma DocumentIsRead(libc: Libc, mark: bool, before: Text, x: Syntax, after: Text)
    requires Blank(before) && Lawful(x) && Blank(after)
    ensures ParseDocument(libc, Document(mark, before, x, after), true) == Some(Meaning(libc, x))
      <==> Depth(x) <= NESTING_LIMIT && Readable(x) && WithoutNul(x)
  {
    LawfulIsTolerable(x);
    assert Skippable(before) && Skippable(after);
    SkippableIsNoNumber(after);
    hide ParseDocument, Meaning, Cut, Readable, Depth, WithoutNul, CStrings, Document, Lawful, Tolerable;
    DocumentParses(libc, mark, before, x, after, true);
    CutIsSame(Meaning(libc, x));
    NulInMeaning(libc, x);
  }

  // ----- Texts of RFC 8259 that are not read as what they denote

  /** A literal of one \u escape. */
  lemma OneUnitParses(libc: Libc, hex: Text, requireEnd: bool)
    requires |hex| == 4 && Closed([0x5C, 'u' as int] + hex)
    ensures var x := StringWord([Unit(hex)]);
      && TextOf(x) == [0x22, 0x5C, 'u' as int] + hex + [0x22] && Meaning(libc, x) == String(Utf8(UnitCode(hex)))
      && ParseDocument(libc, TextOf(x), requireEnd)
         == if HighHalf(Unit(hex)) || LowHalf(Unit(hex)) then None else Some(String(CString(Utf8(UnitCode(hex)))))
  {
    var p := Unit(hex);
    var x := StringWord([p]);
    OnePiece(p);
    assert Written(p) == [0x5C, 'u' as int] + hex;
    assert TextOf(x) == [0x22, 0x5C, 'u' as int] + hex + [0x22];
    assert Document(false, [], x, []) == TextOf(x);
    assert Tolerable(x) && Readable(x) == Paired([p]) && Depth(x) == 0 && Skippable([]);
    assert Meaning(libc, x) == String(DenotedAll([p])) && Cut(Meaning(libc, x)) == String(CString(DenotedAll([p])));
    assert Denoted(p) == Utf8(UnitCode(hex));
    hide *;
    DocumentParses(libc, false, [], x, [], requireEnd);
  }

  lemma OnePiece(p: Piece)
    ensures WrittenAll([p]) == Written(p) && DenotedAll([p]) == Denoted(p)
    ensures Paired([p]) <==> !HighHalf(p) && !LowHalf(p)
  {
    hide Written, Denoted, HighHalf, LowHalf;
    assert [p][1..] == [] && WrittenAll([]) == [] && DenotedAll([]) == [] && Paired([]);
    assert Written(p) + [] == Written(p) && Denoted(p) + [] == Denoted(p);
  }

  /** "\ud800", the first half of a pair alone */
  const LONE_HALF: Text := [34, 92, 117, 100, 56, 48, 48, 34]

  lemma LoneHalfRejected(libc: Libc, requireEnd: bool)
    ensures ParseDocument(libc, LONE_HALF, requireEnd) == None
  {
    var hex := LONE_HALF[3..7];
    assert LONE_HALF == [0x22, 0x5C, 'u' as int] + hex + [0x22];
    assert hex == [100, 56, 48, 48];
    hide *;
    FirstHalf(hex);
    PlainIsClosed(hex);
    OneUnitParses(libc, hex, requireEnd);
  }

  lemma FirstHalf(hex: Text)
    requires hex == [100, 56, 48, 48]
    ensures HighHalf(Unit(hex))
  {
    assert HexValue(hex[0]) == 13 && HexValue(hex[1]) == 8 && HexValue(hex[2]) == 0 && HexValue(hex[3]) == 0;
    assert Hex4(hex) == 0xD800;
    UnitCodeIsHex4(hex);
    hide Hex4, HexValue;
  }

  lemma PlainIsClosed(hex: Text)
    requires |hex| == 4 && 0x22 !in hex && 0x5C !in hex
    ensures Closed([0x5C, 'u' as int] + hex)
  {
    var w := [0x5C, 'u' as int] + hex;
    assert w[2..] == hex && hex[1..][1..] == hex[2..] && hex[2..][1..] == hex[3..] && hex[3..][1..] == [];
    assert Closed(hex[3..]);
    assert Closed(hex[2..]);
    assert Closed(hex[1..]);
  }

  /** A digit more than the parser's buffer takes */
  const LONG_NUMBER: Text := seq(64, _ => 49)

  lemma LongNumberRejected(libc: Libc)
    ensures ParseDocument(libc, LONG_NUMBER, true) == None
    ensures ParseDocument(libc, LONG_NUMBER, false) == Some(Number(libc.strtod(LONG_NUMBER[..63])))
  {
    hide ParseDocument;
    var form := NumberForm(false, LONG_NUMBER, None, None);
    assert NumberWritten(form) == LONG_NUMBER;
    DocumentParses(libc, false, [], NumberWord(form), [], true);
    DocumentParses(libc, false, [], NumberWord(form), [], false);
    assert Document(false, [], NumberWord(form), []) == LONG_NUMBER;
    var front := LONG_NUMBER[..63];
    DigitsEnd(front, []);
    assert front + [] == front;
    assert Taken(front) == 63;
  }

  /** "\u0000" */
  const ONLY_NUL: Text := [34, 92, 117, 48, 48, 48, 48, 34]

  /** A string is lost from a NUL on, here all of it. */
  lemma NulCuts(libc: Libc, requireEnd: bool)
    ensures var x := StringWord([Unit([48, 48, 48, 48])]);
      && TextOf(x) == ONLY_NUL && Meaning(libc, x) == String([0])
      && ParseDocument(libc, ONLY_NUL, requireEnd) == Some(String([]))
  {
    var hex: Text := [48, 48, 48, 48];
    assert Hex4(hex) == 0;
    assert ONLY_NUL == [0x22, 0x5C, 'u' as int] + hex + [0x22];
    hide *;
    NulUnit(libc, hex, requireEnd);
  }

  lemma NulUnit(libc: Libc, hex: Text, requireEnd: bool)
    requires |hex| == 4 && 0x22 !in hex && 0x5C !in hex && Hex4(hex) == 0
    ensures var x := StringWord([Unit(hex)]);
      && TextOf(x) == [0x22, 0x5C, 'u' as int] + hex + [0x22] && Meaning(libc, x) == String([0])
      && ParseDocument(libc, TextOf(x), requireEnd) == Some(String([]))
  {
    UnitCodeIsHex4(hex);
    PlainIsClosed(hex);
    assert Utf8(0) == [0] && CString([0]) == [];
    assert !HighHalf(Unit(hex)) && !LowHalf(Unit(hex));
    hide *;
    OneUnitParses(libc, hex, requireEnd);
  }

  // ----- A text that is not one of RFC 8259, but read

  /** "\uwxyz" */
  const BAD_DIGITS: Text := [34, 92, 117, 119, 120, 121, 122, 34]

  /** Four bytes that are no digits count as the NUL. */
  lemma BadDigitsAccepted(libc: Libc)
    ensures ParseDocument(libc, BAD_DIGITS, true) == Some(String([]))
  {
    var hex: Text := [119, 120, 121, 122];
    assert HexValue(hex[0]) == 16;
    assert Hex4(hex) == 0;
    assert BAD_DIGITS == [0x22, 0x5C, 'u' as int] + hex + [0x22];
    hide *;
    NulUnit(libc, hex, true);
  }
}
