/** The grammar of RFC 8259 and the wider one the parser takes, without reference to the parser: their
    texts and the trees they denote. The parser accepts exactly the texts of the wider grammar that
    stay within its limits. */
module JsonGrammar {
  import opened Bytes
  import opened JsonCharacters
  import opened JsonStrings
  import opened JsonLiterals
  import opened JsonNumbers
  import opened JsonText
  import opened JsonSteps

  /** How a value is written; `blank` is what an empty container has between its brackets. */
  datatype Syntax =
    | NullWord
    | FalseWord
    | TrueWord
    | NumberWord(form: NumberForm)
    | StringWord(pieces: seq<Piece>)
    | ArrayForm(blank: Text, elements: seq<Element>)
    | ObjectForm(blank: Text, fields: seq<FieldForm>)

  datatype Element = Element(before: Text, value: Syntax, after: Text)

  datatype FieldForm =
    FieldForm(before: Text, key: seq<Piece>, gap: Text, space: Text, value: Syntax, after: Text)

  function TextOf(x: Syntax): Text {
    match x
    case NullWord => NULL_TEXT
    case FalseWord => FALSE_TEXT
    case TrueWord => TRUE_TEXT
    case NumberWord(form) => NumberWritten(form)
    case StringWord(pieces) => LiteralText(pieces)
    case ArrayForm(blank, elements) =>
      [OPEN_ARRAY] + ((if elements == [] then blank else ElementsText(elements)) + [CLOSE_ARRAY])
    case ObjectForm(blank, fields) =>
      [OPEN_OBJECT] + ((if fields == [] then blank else FieldsText(fields)) + [CLOSE_OBJECT])
  }

  function ElementsText(es: seq<Element>): Text {
    if es == [] then []
    else es[0].before + (TextOf(es[0].value) + (es[0].after
           + (if |es| > 1 then [COMMA] + ElementsText(es[1..]) else [])))
  }

  /** A member from its name on, without what follows the value. */
  function MemberText(f: FieldForm): Text {
    LiteralText(f.key) + (f.gap + ([COLON] + (f.space + TextOf(f.value))))
  }

  function FieldsText(fs: seq<FieldForm>): Text {
    if fs == [] then []
    else fs[0].before + (MemberText(fs[0]) + (fs[0].after
           + (if |fs| > 1 then [COMMA] + FieldsText(fs[1..]) else [])))
  }

  /** The texts of RFC 8259. */
  ghost predicate Lawful(x: Syntax) {
    match x
    case NumberWord(form) => LawfulNumber(form)
    case StringWord(pieces) => AllWellFormed(pieces)
    case ArrayForm(blank, elements) => Blank(blank) && forall i :: 0 <= i < |elements| ==> LawfulElement(elements[i])
    case ObjectForm(blank, fields) => Blank(blank) && forall i :: 0 <= i < |fields| ==> LawfulField(fields[i])
    case _ => true
  }

  ghost predicate LawfulElement(e: Element) {
    Blank(e.before) && Lawful(e.value) && Blank(e.after)
  }

  ghost predicate LawfulField(f: FieldForm) {
    && Blank(f.before) && AllWellFormed(f.key) && Blank(f.gap)
    && Blank(f.space) && Lawful(f.value) && Blank(f.after)
  }

  /** The texts the parser takes: every byte up to a space is a blank, numbers are what `strtod`
      takes, and strings may hold control characters and escapes that are no numbers. */
  predicate Tolerable(x: Syntax) {
    match x
    case NumberWord(form) => ToleratedNumber(form)
    case StringWord(pieces) => IsLiteral(pieces)
    case ArrayForm(blank, elements) =>
      Skippable(blank) && forall i :: 0 <= i < |elements| ==> TolerableElement(elements[i])
    case ObjectForm(blank, fields) =>
      Skippable(blank) && forall i :: 0 <= i < |fields| ==> TolerableField(fields[i])
    case _ => true
  }

  predicate TolerableElement(e: Element) {
    Skippable(e.before) && Tolerable(e.value) && Skippable(e.after)
  }

  predicate TolerableField(f: FieldForm) {
    && Skippable(f.before) && IsLiteral(f.key) && Skippable(f.gap)
    && Skippable(f.space) && Tolerable(f.value) && Skippable(f.after)
  }

  /** The parser takes all the texts of RFC 8259. */
  lemma {:induction false} LawfulIsTolerable(x: Syntax)
    requires Lawful(x)
    ensures Tolerable(x)
    decreases x
  {
    match x
    case StringWord(pieces) => WellFormedIsLiteral(pieces);
    case ArrayForm(_, elements) =>
      forall i | 0 <= i < |elements|
        ensures TolerableElement(elements[i])
      {
        assert LawfulElement(elements[i]);
        LawfulIsTolerable(elements[i].value);
      }
    case ObjectForm(_, fields) =>
      forall i | 0 <= i < |fields|
        ensures TolerableField(fields[i])
      {
        assert LawfulField(fields[i]);
        WellFormedIsLiteral(fields[i].key);
        LawfulIsTolerable(fields[i].value);
      }
    case _ =>
  }

  /** The tokens, as RFC 8259, section 2 and 3 spell them. */
  lemma TokensAreAscii()
    ensures NULL_TEXT == Ascii("null") && TRUE_TEXT == Ascii("true") && FALSE_TEXT == Ascii("false")
    ensures [OPEN_ARRAY] == Ascii("[") && [CLOSE_ARRAY] == Ascii("]") && [COMMA] == Ascii(",")
    ensures [OPEN_OBJECT] == Ascii("{") && [CLOSE_OBJECT] == Ascii("}") && [COLON] == Ascii(":")
    ensures [QUOTE] == Ascii("\"") && [TAB, NEWLINE, SPACE] == Ascii("\t\n ")
  {
  }

  // ----- What a text denotes

  ghost function Meaning(libc: Libc, x: Syntax): Json {
    match x
    case NullWord => Null
    case FalseWord => False
    case TrueWord => True
    case NumberWord(form) => Number(libc.strtod(NumberWritten(form)))
    case StringWord(pieces) => String(DenotedAll(pieces))
    case ArrayForm(_, elements) => Array(Items(libc, elements))
    case ObjectForm(_, fields) => Object(Members(libc, fields))
  }

  ghost function Items(libc: Libc, es: seq<Element>): (r: seq<Json>)
    ensures |r| == |es|
  {
    if es == [] then [] else [Meaning(libc, es[0].value)] + Items(libc, es[1..])
  }

  ghost function MemberOf(libc: Libc, f: FieldForm): Member {
    Member(DenotedAll(f.key), Meaning(libc, f.value))
  }

  ghost function Members(libc: Libc, fs: seq<FieldForm>): (r: seq<Member>)
    ensures |r| == |fs|
  {
    if fs == [] then [] else [MemberOf(libc, fs[0])] + Members(libc, fs[1..])
  }

  function Depth(x: Syntax): nat {
    match x
    case ArrayForm(_, elements) => 1 + ElementsDepth(elements)
    case ObjectForm(_, fields) => 1 + FieldsDepth(fields)
    case _ => 0
  }

  function ElementsDepth(es: seq<Element>): nat {
    if es == [] then 0 else Max(Depth(es[0].value), ElementsDepth(es[1..]))
  }

  function FieldsDepth(fs: seq<FieldForm>): nat {
    if fs == [] then 0 else Max(Depth(fs[0].value), FieldsDepth(fs[1..]))
  }

  /** The depth of a text is the nesting of its tree. */
  lemma {:induction false} DepthIsNesting(libc: Libc, x: Syntax)
    ensures Nesting(Meaning(libc, x)) == Depth(x)
    decreases x
  {
    match x
    case ArrayForm(_, elements) => ElementsNesting(libc, elements);
    case ObjectForm(_, fields) => FieldsNesting(libc, fields);
    case _ =>
  }

  lemma {:induction false} ElementsNesting(libc: Libc, es: seq<Element>)
    ensures NestingItems(Items(libc, es)) == ElementsDepth(es)
    decreases es
  {
    if es != [] {
      DepthIsNesting(libc, es[0].value);
      ElementsNesting(libc, es[1..]);
    }
  }

  lemma {:induction false} FieldsNesting(libc: Libc, fs: seq<FieldForm>)
    ensures NestingMembers(Members(libc, fs)) == FieldsDepth(fs)
    decreases fs
  {
    if fs != [] {
      DepthIsNesting(libc, fs[0].value);
      FieldsNesting(libc, fs[1..]);
    }
  }

  // ----- What the parser supports, as properties of the text

  /** The longest number text that is not cut. */
  const LONGEST_NUMBER: nat := 63

  /** Every number is short enough, and no half of a surrogate pair is alone. */
  ghost predicate Readable(x: Syntax) {
    match x
    case NumberWord(form) => |NumberWritten(form)| <= LONGEST_NUMBER
    case StringWord(pieces) => Paired(pieces)
    case ArrayForm(_, elements) => ReadableElements(elements)
    case ObjectForm(_, fields) => ReadableFields(fields)
    case _ => true
  }

  ghost predicate ReadableElements(es: seq<Element>) {
    es == [] || (Readable(es[0].value) && ReadableElements(es[1..]))
  }

  ghost predicate ReadableField(f: FieldForm) {
    Paired(f.key) && Readable(f.value)
  }

  ghost predicate ReadableFields(fs: seq<FieldForm>) {
    fs == [] || (ReadableField(fs[0]) && ReadableFields(fs[1..]))
  }

  /** No string and no name has the NUL character. */
  ghost predicate WithoutNul(x: Syntax) {
    match x
    case StringWord(pieces) => NulFree(pieces)
    case ArrayForm(_, elements) => ElementsWithoutNul(elements)
    case ObjectForm(_, fields) => FieldsWithoutNul(fields)
    case _ => true
  }

  ghost predicate ElementsWithoutNul(es: seq<Element>) {
    es == [] || (WithoutNul(es[0].value) && ElementsWithoutNul(es[1..]))
  }

  ghost predicate FieldsWithoutNul(fs: seq<FieldForm>) {
    fs == [] || (NulFree(fs[0].key) && WithoutNul(fs[0].value) && FieldsWithoutNul(fs[1..]))
  }

  /** What C keeps of a tree: strings and names end at their first NUL. */
  function Cut(v: Json): Json {
    match v
    case String(s) => String(CString(s))
    case Array(items) => Array(CutItems(items))
    case Object(members) => Object(CutMembers(members))
    case _ => v
  }

  function CutItems(items: seq<Json>): (r: seq<Json>)
    ensures |r| == |items|
  {
    if items == [] then [] else [Cut(items[0])] + CutItems(items[1..])
  }

  function CutMember(m: Member): Member {
    Member(CString(m.key), Cut(m.value))
  }

  function CutMembers(members: seq<Member>): (r: seq<Member>)
    ensures |r| == |members|
  {
    if members == [] then [] else [CutMember(members[0])] + CutMembers(members[1..])
  }

  lemma CutInFront(item: Json, items: seq<Json>)
    ensures CutItems([item] + items) == [Cut(item)] + CutItems(items)
  {
    assert ([item] + items)[1..] == items;
  }

  lemma CutMemberInFront(m: Member, members: seq<Member>)
    ensures CutMembers([m] + members) == [CutMember(m)] + CutMembers(members)
  {
    assert ([m] + members)[1..] == members;
  }

  lemma CutString(s: Text)
    ensures CString(s) == s <==> 0 !in s
  {
    if 0 !in s {
      CStringOfNulFree(s);
    }
  }

  /** Nothing is cut exactly if there is no NUL. */
  lemma {:induction false} CutIsSame(v: Json)
    ensures Cut(v) == v <==> CStrings(v)
    decreases v, 0
  {
    match v
    case String(s) => CutString(s);
    case Array(items) => CutItemsSame(items);
    case Object(members) => CutMembersSame(members);
    case _ =>
  }

  lemma {:induction false} CutItemsSame(items: seq<Json>)
    ensures CutItems(items) == items <==> CStrings(Array(items))
    decreases items, 0
  {
    if items != [] {
      CutIsSame(items[0]);
      CutItemsSame(items[1..]);
      assert items == [items[0]] + items[1..];
    }
  }

  lemma {:induction false} CutMembersSame(members: seq<Member>)
    ensures CutMembers(members) == members <==> CStrings(Object(members))
    decreases members, 0
  {
    if members != [] {
      CutString(members[0].key);
      CutIsSame(members[0].value);
      CutMembersSame(members[1..]);
      assert members == [members[0]] + members[1..];
    }
  }

  lemma NulInFront(item: Json, items: seq<Json>)
    ensures CStrings(Array([item] + items)) <==> CStrings(item) && CStrings(Array(items))
  {
    var all := [item] + items;
    assert all[0] == item;
    if CStrings(Array(all)) {
      forall i | 0 <= i < |items|
        ensures CStrings(items[i])
      {
        assert all[i + 1] == items[i];
      }
    }
  }

  lemma NulInFirstMember(m: Member, members: seq<Member>)
    ensures CStrings(Object([m] + members)) <==> 0 !in m.key && CStrings(m.value) && CStrings(Object(members))
  {
    var all := [m] + members;
    assert all[0] == m;
    if CStrings(Object(all)) {
      forall i | 0 <= i < |members|
        ensures 0 !in members[i].key && CStrings(members[i].value)
      {
        assert all[i + 1] == members[i];
      }
    }
  }

  /** A text without the NUL character denotes a tree without it, and no other text does. */
  lemma {:induction false} NulInMeaning(libc: Libc, x: Syntax)
    ensures CStrings(Meaning(libc, x)) <==> WithoutNul(x)
    decreases x
  {
    match x
    case StringWord(pieces) => NulInDenoted(pieces);
    case ArrayForm(_, elements) => NulInElements(libc, elements);
    case ObjectForm(_, fields) => NulInFields(libc, fields);
    case _ =>
  }

  lemma {:induction false} NulInElements(libc: Libc, es: seq<Element>)
    ensures CStrings(Array(Items(libc, es))) <==> ElementsWithoutNul(es)
    decreases es
  {
    if es != [] {
      NulInMeaning(libc, es[0].value);
      NulInElements(libc, es[1..]);
      NulInFront(Meaning(libc, es[0].value), Items(libc, es[1..]));
    }
  }

  lemma {:induction false} NulInFields(libc: Libc, fs: seq<FieldForm>)
    ensures CStrings(Object(Members(libc, fs))) <==> FieldsWithoutNul(fs)
    decreases fs
  {
    if fs != [] {
      NulInDenoted(fs[0].key);
      NulInMeaning(libc, fs[0].value);
      NulInFields(libc, fs[1..]);
      NulInFirstMember(MemberOf(libc, fs[0]), Members(libc, fs[1..]));
    }
  }

  // ----- What the parser makes of every text of the grammar

  lemma TextStart(x: Syntax)
    requires Tolerable(x)
    ensures var t := TextOf(x); t != [] && 32 < t[0] < 0xEF && t[0] != CLOSE_ARRAY
  {
    if x.NumberWord? {
      NumberTaken(x.form);
    }
  }

  lemma StringParses(pieces: seq<Piece>, rest: Text)
    requires IsLiteral(pieces)
    ensures ParseString(LiteralText(pieces) + rest)
      == if Paired(pieces) then Ok(CString(DenotedAll(pieces)), rest) else Fail
  {
    LiteralParses(pieces, rest);
  }

  /** Of a number that is too long the parser takes what `strtod` makes of its first 63 bytes. */
  function FrontOfNumber(libc: Libc, t: Text, rest: Text): Parsed<Json>
    requires |t| > LONGEST_NUMBER
  {
    var n := Taken(t[..LONGEST_NUMBER]);
    Ok(Number(libc.strtod(t[..n])), t[n..] + rest)
  }

  /** A number of the grammar is read whole, from in front of any byte that is not part of a number,
      exactly if it has at most 63 bytes; else the parser stops inside it. */
  lemma NumberParses(libc: Libc, form: NumberForm, rest: Text, nested: nat)
    requires ToleratedNumber(form) && Terminated(rest) && !IsNumberByte(rest[0])
    ensures var t := NumberWritten(form);
      if |t| <= LONGEST_NUMBER then ParseValue(libc, t + rest, nested) == Ok(Number(libc.strtod(t)), rest)
      else
        && ParseValue(libc, t + rest, nested) == FrontOfNumber(libc, t, rest)
        && FrontOfNumber(libc, t, rest).rest != rest && IsNumberByte(FrontOfNumber(libc, t, rest).rest[0])
  {
    hide ParseValue, Taken, NumberRun, NumberWritten;
    var t := NumberWritten(form);
    var s := t + rest;
    NumberTaken(form);
    NumberBytes(form);
    NumberStep(libc, s, nested);
    NumberCopied(t, rest);
    if |t| <= LONGEST_NUMBER {
      assert s[..|t|] == t && t[..|t|] == t && s[|t|..] == rest;
    } else {
      FrontIsTaken(form);
      FrontIsFound(libc, t, rest);
    }
  }

  lemma FrontIsFound(libc: Libc, t: Text, rest: Text)
    requires |t| > LONGEST_NUMBER && Terminated(rest) && forall i :: 0 <= i < |t| ==> IsNumberByte(t[i])
    requires NumberRun(t + rest, LONGEST_NUMBER) == LONGEST_NUMBER && Taken(t[..LONGEST_NUMBER]) > 0
    ensures var r := FrontOfNumber(libc, t, rest);
      ParseNumber(libc, t + rest) == r && r.rest != rest && IsNumberByte(r.rest[0])
  {
    hide Taken, NumberRun, IsNumberByte;
    var s := t + rest;
    var front := t[..LONGEST_NUMBER];
    var n := Taken(front);
    assert s[..LONGEST_NUMBER] == front && s[n..] == t[n..] + rest && front[..n] == t[..n];
    assert (t[n..] + rest)[0] == t[n];
  }

  lemma FrontIsTaken(form: NumberForm)
    requires ToleratedNumber(form) && |NumberWritten(form)| > LONGEST_NUMBER
    ensures Taken(NumberWritten(form)[..LONGEST_NUMBER]) > 0
  {
    var t := NumberWritten(form)[..LONGEST_NUMBER];
    if form.minus {
      assert t[0] == 45;
      if form.whole != [] {
        assert t[1] == form.whole[0] && t[1..][0] == t[1];
      } else {
        assert t[1] == 46 && t[2] == form.fraction.value[0];
        assert t[1..][0] == 46 && t[1..][1..][0] == t[2];
        assert Fraction(t[1..]) >= 2;
      }
    } else {
      assert t[0] == form.whole[0] && t[0..] == t;
    }
  }

  lemma WordText(x: Syntax)
    requires x.NumberWord?
    ensures TextOf(x) == NumberWritten(x.form) && Depth(x) == 0
    ensures Readable(x) <==> |TextOf(x)| <= LONGEST_NUMBER
  {
  }

  lemma WordIsFlat(x: Syntax)
    ensures x.NumberWord? ==> Depth(x) == 0
  {
  }

  lemma NumberCopied(t: Text, rest: Text)
    requires forall i :: 0 <= i < |t| ==> IsNumberByte(t[i])
    requires rest != [] && !IsNumberByte(rest[0])
    ensures NumberRun(t + rest, 63) == if |t| <= LONGEST_NUMBER then |t| else LONGEST_NUMBER
  {
    var s := t + rest;
    assert forall i :: 0 <= i < |t| ==> s[i] == t[i];
    assert s[|t|] == rest[0];
  }

  /** Every value of the grammar parses to the tree it denotes, up to a NUL in its strings, in front
      of whatever follows, if it is readable and does not nest too deep. Otherwise it does not parse,
      but for a long number, of which the front is read. */
  lemma {:induction false} ValueParses(libc: Libc, x: Syntax, rest: Text, nested: nat)
    requires Tolerable(x) && Terminated(rest) && nested <= NESTING_LIMIT
    requires x.NumberWord? ==> !IsNumberByte(rest[0])
    ensures ParseValue(libc, TextOf(x) + rest, nested) ==
      if nested + Depth(x) <= NESTING_LIMIT && Readable(x) then Ok(Cut(Meaning(libc, x)), rest)
      else if x.NumberWord? then FrontOfNumber(libc, TextOf(x), rest)
      else Fail
    decreases x, 0
  {
    hide ParseValue, ParseString, NumberWritten;
    match x
    case NullWord => WordStep(libc, Null, NULL_TEXT, rest, nested);
    case FalseWord => WordStep(libc, False, FALSE_TEXT, rest, nested);
    case TrueWord => WordStep(libc, True, TRUE_TEXT, rest, nested);
    case NumberWord(form) => NumberParses(libc, form, rest, nested);
    case StringWord(pieces) =>
      StringParses(pieces, rest);
      StringStep(libc, LiteralText(pieces) + rest, nested);
    case ArrayForm(_, _) => ArrayParses(libc, x, rest, nested);
    case ObjectForm(_, _) => ObjectParses(libc, x, rest, nested);
  }

  lemma ArrayParts(libc: Libc, x: Syntax)
    requires x.ArrayForm?
    ensures Cut(Meaning(libc, x)) == Array(CutItems(Items(libc, x.elements)))
    ensures Depth(x) == 1 + ElementsDepth(x.elements) && Readable(x) == ReadableElements(x.elements)
    ensures x.elements == [] ==>
      CutItems(Items(libc, x.elements)) == [] && ElementsDepth(x.elements) == 0 && ReadableElements(x.elements)
  {
  }

  lemma ObjectParts(libc: Libc, x: Syntax)
    requires x.ObjectForm?
    ensures Cut(Meaning(libc, x)) == Object(CutMembers(Members(libc, x.fields)))
    ensures Depth(x) == 1 + FieldsDepth(x.fields) && Readable(x) == ReadableFields(x.fields)
    ensures x.fields == [] ==>
      CutMembers(Members(libc, x.fields)) == [] && FieldsDepth(x.fields) == 0 && ReadableFields(x.fields)
  {
  }

  lemma ArrayLayout(x: Syntax, rest: Text)
    requires x.ArrayForm?
    ensures TextOf(x) + rest
      == [OPEN_ARRAY] + ((if x.elements == [] then x.blank else ElementsText(x.elements)) + ([CLOSE_ARRAY] + rest))
  {
    var body := if x.elements == [] then x.blank else ElementsText(x.elements);
    Regroup([OPEN_ARRAY], body + [CLOSE_ARRAY], rest);
    Regroup(body, [CLOSE_ARRAY], rest);
  }

  lemma EmptyArrayParses(libc: Libc, x: Syntax, rest: Text, nested: nat)
    requires x.ArrayForm? && x.elements == [] && Tolerable(x) && Terminated(rest)
    ensures ParseValue(libc, TextOf(x) + rest, nested) == if nested < NESTING_LIMIT then Ok(Array([]), rest) else Fail
  {
    hide ParseValue, ParseItems, SkipWhitespace, TextOf;
    var close := [CLOSE_ARRAY] + rest;
    var s := [OPEN_ARRAY] + (x.blank + close);
    ArrayLayout(x, rest);
    assert s[1..] == x.blank + close;
    SkipBlank(x.blank, close);
    ArrayStep(libc, s, close, nested);
    assert close[1..] == rest;
  }

  lemma {:induction false} ArrayParses(libc: Libc, x: Syntax, rest: Text, nested: nat)
    requires x.ArrayForm? && Tolerable(x) && Terminated(rest) && nested <= NESTING_LIMIT
    ensures ParseValue(libc, TextOf(x) + rest, nested) ==
      if nested + Depth(x) <= NESTING_LIMIT && Readable(x) then Ok(Cut(Meaning(libc, x)), rest) else Fail
    decreases x, 0, 1
  {
    hide *;
    ArrayParts(libc, x);
    if x.elements == [] {
      EmptyArrayParses(libc, x, rest, nested);
    } else {
      FilledArrayParses(libc, x, rest, nested);
    }
  }

  lemma {:induction false} FilledArrayParses(libc: Libc, x: Syntax, rest: Text, nested: nat)
    requires x.ArrayForm? && x.elements != [] && Tolerable(x) && Terminated(rest) && nested <= NESTING_LIMIT
    ensures ParseValue(libc, TextOf(x) + rest, nested) ==
      if nested + 1 + ElementsDepth(x.elements) <= NESTING_LIMIT && ReadableElements(x.elements)
      then Ok(Array(CutItems(Items(libc, x.elements))), rest) else Fail
    decreases x, 0, 0
  {
    hide ParseValue, ParseItems, SkipWhitespace, ElementsText, TextOf, Items, CutItems, ElementsDepth, ReadableElements;
    var body := ElementsText(x.elements) + ([CLOSE_ARRAY] + rest);
    var s := [OPEN_ARRAY] + body;
    ArrayLayout(x, rest);
    ElementsStart(x.elements, [CLOSE_ARRAY] + rest);
    assert s[1..] == body;
    ArrayStep(libc, s, SkipWhitespace(body), nested);
    if nested < NESTING_LIMIT {
      ItemsAfterBlank(libc, body, nested + 1);
      ElementsParse(libc, x.elements, rest, nested + 1);
    }
  }

  lemma OneElement(libc: Libc, e: Element)
    ensures CutItems(Items(libc, [e])) == [Cut(Meaning(libc, e.value))]
    ensures ElementsDepth([e]) == Depth(e.value) && ReadableElements([e]) == Readable(e.value)
  {
    assert [e][1..] == [];
    hide Meaning, Cut, Depth, Readable;
  }

  /** Whether an element is read, and what it is then read as. */
  ghost predicate ElementFits(e: Element, nested: nat) {
    nested + Depth(e.value) <= NESTING_LIMIT && Readable(e.value)
  }

  lemma {:induction false} ElementParses(libc: Libc, e: Element, t: Text, nested: nat)
    requires TolerableElement(e) && Terminated(t) && !IsNumberByte(t[0]) && nested <= NESTING_LIMIT
    ensures var r := ParseValue(libc, SkipWhitespace(e.before + (TextOf(e.value) + t)), nested);
      if ElementFits(e, nested) then r == Ok(Cut(Meaning(libc, e.value)), t) else r.Fail? || IsNumberByte(r.rest[0])
    decreases e, 0
  {
    hide ParseValue, SkipWhitespace, Meaning, Cut;
    TextStart(e.value);
    SkipBlank(e.before, TextOf(e.value) + t);
    ValueParses(libc, e.value, t, nested);
    if e.value.NumberWord? {
      NumberParses(libc, e.value.form, t, nested);
    }
  }

  lemma ElementsStart(es: seq<Element>, end: Text)
    requires es != [] && TolerableElement(es[0]) && Terminated(end)
    ensures Terminated(ElementsText(es) + end) && SkipWhitespace(ElementsText(es) + end)[0] != CLOSE_ARRAY
  {
    var more := es[0].after + (if |es| > 1 then [COMMA] + ElementsText(es[1..]) else []);
    TextStart(es[0].value);
    Regroup(es[0].before, TextOf(es[0].value) + more, end);
    Regroup(TextOf(es[0].value), more, end);
    hide TextOf, ElementsText, SkipWhitespace;
    SkipBlank(es[0].before, TextOf(es[0].value) + (more + end));
  }

  /** The text of several elements: the first, and behind the comma the others. */
  lemma FirstElementText(es: seq<Element>, end: Text)
    requires |es| > 1
    ensures ElementsText(es) + end
      == es[0].before + (TextOf(es[0].value) + (es[0].after + ([COMMA] + (ElementsText(es[1..]) + end))))
  {
    var e, back := es[0], ElementsText(es[1..]);
    Regroup(e.before, TextOf(e.value) + (e.after + ([COMMA] + back)), end);
    Regroup(TextOf(e.value), e.after + ([COMMA] + back), end);
    Regroup(e.after, [COMMA] + back, end);
    Regroup([COMMA], back, end);
  }

  lemma LastElementText(e: Element, end: Text)
    ensures ElementsText([e]) + end == e.before + (TextOf(e.value) + (e.after + end))
  {
    assert e.after + [] == e.after;
    Regroup(e.before, TextOf(e.value) + e.after, end);
    Regroup(TextOf(e.value), e.after, end);
  }

  lemma {:induction false} ElementsParse(libc: Libc, es: seq<Element>, rest: Text, nested: nat)
    requires es != [] && (forall i :: 0 <= i < |es| ==> TolerableElement(es[i]))
    requires Terminated(rest) && nested <= NESTING_LIMIT
    ensures ParseItems(libc, ElementsText(es) + ([CLOSE_ARRAY] + rest), nested)
      == if nested + ElementsDepth(es) <= NESTING_LIMIT && ReadableElements(es)
        then Ok(CutItems(Items(libc, es)), rest) else Fail
    decreases es, 0
  {
    hide ParseItems, ParseValue, SkipWhitespace, TextOf, ElementsText, Meaning, Cut, CutItems, Depth, Readable;
    var end := [CLOSE_ARRAY] + rest;
    if |es| == 1 {
      assert es == [es[0]];
      OneElement(libc, es[0]);
      LastElementText(es[0], end);
      LastElementParses(libc, es[0], rest, nested);
    } else {
      FirstElementText(es, end);
      ElementsParse(libc, es[1..], rest, nested);
      FirstElementParses(libc, es[0], ElementsText(es[1..]) + end, nested);
      CutInFront(Meaning(libc, es[0].value), Items(libc, es[1..]));
    }
  }

  lemma {:induction false} LastElementParses(libc: Libc, e: Element, rest: Text, nested: nat)
    requires TolerableElement(e) && Terminated(rest) && nested <= NESTING_LIMIT
    ensures ParseItems(libc, e.before + (TextOf(e.value) + (e.after + ([CLOSE_ARRAY] + rest))), nested)
      == if ElementFits(e, nested) then Ok([Cut(Meaning(libc, e.value))], rest) else Fail
    decreases e, 1
  {
    hide ParseItems, ParseValue, SkipWhitespace, TextOf, Meaning, Cut, ElementFits;
    var t := e.after + ([CLOSE_ARRAY] + rest);
    var s := e.before + (TextOf(e.value) + t);
    ElementParses(libc, e, t, nested);
    NoItem(libc, s, nested);
    if ElementFits(e, nested) {
      ParsesLastItem(libc, s, Cut(Meaning(libc, e.value)), e.after, rest, nested);
    }
  }

  lemma {:induction false} FirstElementParses(libc: Libc, e: Element, more: Text, nested: nat)
    requires TolerableElement(e) && Terminated(more) && nested <= NESTING_LIMIT
    ensures ParseItems(libc, e.before + (TextOf(e.value) + (e.after + ([COMMA] + more))), nested) ==
      if !ElementFits(e, nested) then Fail
      else match ParseItems(libc, more, nested)
        case Fail => Fail
        case Ok(items, end) => Ok([Cut(Meaning(libc, e.value))] + items, end)
    decreases e, 1
  {
    hide ParseItems, ParseValue, SkipWhitespace, TextOf, Meaning, Cut, ElementFits;
    var t := e.after + ([COMMA] + more);
    var s := e.before + (TextOf(e.value) + t);
    ElementParses(libc, e, t, nested);
    NoItem(libc, s, nested);
    if ElementFits(e, nested) {
      ParsesNextItem(libc, s, Cut(Meaning(libc, e.value)), e.after, more, nested);
    }
  }

  // ----- Objects

  lemma ObjectLayout(x: Syntax, rest: Text)
    requires x.ObjectForm?
    ensures TextOf(x) + rest
      == [OPEN_OBJECT] + ((if x.fields == [] then x.blank else FieldsText(x.fields)) + ([CLOSE_OBJECT] + rest))
  {
    var body := if x.fields == [] then x.blank else FieldsText(x.fields);
    Regroup([OPEN_OBJECT], body + [CLOSE_OBJECT], rest);
    Regroup(body, [CLOSE_OBJECT], rest);
  }

  lemma EmptyObjectParses(libc: Libc, x: Syntax, rest: Text, nested: nat)
    requires x.ObjectForm? && x.fields == [] && Tolerable(x) && Terminated(rest)
    ensures ParseValue(libc, TextOf(x) + rest, nested) == if nested < NESTING_LIMIT then Ok(Object([]), rest) else Fail
  {
    hide ParseValue, ParseMembers, SkipWhitespace, TextOf;
    var close := [CLOSE_OBJECT] + rest;
    var s := [OPEN_OBJECT] + (x.blank + close);
    ObjectLayout(x, rest);
    assert s[1..] == x.blank + close;
    SkipBlank(x.blank, close);
    ObjectStep(libc, s, close, nested);
    assert close[1..] == rest;
  }

  lemma {:induction false} ObjectParses(libc: Libc, x: Syntax, rest: Text, nested: nat)
    requires x.ObjectForm? && Tolerable(x) && Terminated(rest) && nested <= NESTING_LIMIT
    ensures ParseValue(libc, TextOf(x) + rest, nested) ==
      if nested + Depth(x) <= NESTING_LIMIT && Readable(x) then Ok(Cut(Meaning(libc, x)), rest) else Fail
    decreases x, 0, 1
  {
    hide *;
    ObjectParts(libc, x);
    if x.fields == [] {
      EmptyObjectParses(libc, x, rest, nested);
    } else {
      FilledObjectParses(libc, x, rest, nested);
    }
  }

  lemma {:induction false} FilledObjectParses(libc: Libc, x: Syntax, rest: Text, nested: nat)
    requires x.ObjectForm? && x.fields != [] && Tolerable(x) && Terminated(rest) && nested <= NESTING_LIMIT
    ensures ParseValue(libc, TextOf(x) + rest, nested) ==
      if nested + 1 + FieldsDepth(x.fields) <= NESTING_LIMIT && ReadableFields(x.fields)
      then Ok(Object(CutMembers(Members(libc, x.fields))), rest) else Fail
    decreases x, 0, 0
  {
    hide ParseValue, ParseMembers, SkipWhitespace, FieldsText, TextOf, Members, CutMembers, FieldsDepth, ReadableFields;
    var body := FieldsText(x.fields) + ([CLOSE_OBJECT] + rest);
    var s := [OPEN_OBJECT] + body;
    ObjectLayout(x, rest);
    FieldsStart(x.fields, [CLOSE_OBJECT] + rest);
    assert s[1..] == body;
    ObjectStep(libc, s, SkipWhitespace(body), nested);
    if nested < NESTING_LIMIT {
      MembersAfterBlank(libc, body, nested + 1);
      FieldsParse(libc, x.fields, rest, nested + 1);
    }
  }

  lemma OneField(libc: Libc, f: FieldForm)
    ensures CutMembers(Members(libc, [f])) == [CutMember(MemberOf(libc, f))]
    ensures FieldsDepth([f]) == Depth(f.value) && ReadableFields([f]) == ReadableField(f)
  {
    assert [f][1..] == [];
    hide MemberOf, CutMember, ReadableField, Depth;
  }

  ghost predicate FieldFits(f: FieldForm, nested: nat) {
    nested + Depth(f.value) <= NESTING_LIMIT && ReadableField(f)
  }

  lemma FieldsStart(fs: seq<FieldForm>, end: Text)
    requires fs != [] && TolerableField(fs[0]) && Terminated(end)
    ensures Terminated(FieldsText(fs) + end) && SkipWhitespace(FieldsText(fs) + end)[0] != CLOSE_OBJECT
  {
    var more := fs[0].after + (if |fs| > 1 then [COMMA] + FieldsText(fs[1..]) else []);
    Regroup(fs[0].before, MemberText(fs[0]) + more, end);
    Regroup(MemberText(fs[0]), more, end);
    assert MemberText(fs[0]) != [] && MemberText(fs[0])[0] == QUOTE;
    hide MemberText, FieldsText, SkipWhitespace;
    SkipBlank(fs[0].before, MemberText(fs[0]) + (more + end));
  }

  lemma FirstFieldText(fs: seq<FieldForm>, end: Text)
    requires |fs| > 1
    ensures FieldsText(fs) + end
      == fs[0].before + (MemberText(fs[0]) + (fs[0].after + ([COMMA] + (FieldsText(fs[1..]) + end))))
  {
    var f, back := fs[0], FieldsText(fs[1..]);
    Regroup(f.before, MemberText(f) + (f.after + ([COMMA] + back)), end);
    Regroup(MemberText(f), f.after + ([COMMA] + back), end);
    Regroup(f.after, [COMMA] + back, end);
    Regroup([COMMA], back, end);
  }

  lemma LastFieldText(f: FieldForm, end: Text)
    ensures FieldsText([f]) + end == f.before + (MemberText(f) + (f.after + end))
  {
    assert f.after + [] == f.after;
    Regroup(f.before, MemberText(f) + f.after, end);
    Regroup(MemberText(f), f.after, end);
  }

  lemma {:induction false} FieldsParse(libc: Libc, fs: seq<FieldForm>, rest: Text, nested: nat)
    requires fs != [] && (forall i :: 0 <= i < |fs| ==> TolerableField(fs[i]))
    requires Terminated(rest) && nested <= NESTING_LIMIT
    ensures ParseMembers(libc, FieldsText(fs) + ([CLOSE_OBJECT] + rest), nested)
      == if nested + FieldsDepth(fs) <= NESTING_LIMIT && ReadableFields(fs)
        then Ok(CutMembers(Members(libc, fs)), rest) else Fail
    decreases fs, 0
  {
    hide ParseMembers, ParseMember, ParseValue, SkipWhitespace, MemberText, FieldsText, MemberOf, CutMember, CutMembers,
      Depth, ReadableField;
    var end := [CLOSE_OBJECT] + rest;
    if |fs| == 1 {
      assert fs == [fs[0]];
      OneField(libc, fs[0]);
      LastFieldText(fs[0], end);
      LastFieldParses(libc, fs[0], rest, nested);
    } else {
      FirstFieldText(fs, end);
      FieldsParse(libc, fs[1..], rest, nested);
      FirstFieldParses(libc, fs[0], FieldsText(fs[1..]) + end, nested);
      CutMemberInFront(MemberOf(libc, fs[0]), Members(libc, fs[1..]));
    }
  }

  lemma {:induction false} LastFieldParses(libc: Libc, f: FieldForm, rest: Text, nested: nat)
    requires TolerableField(f) && Terminated(rest) && nested <= NESTING_LIMIT
    ensures ParseMembers(libc, f.before + (MemberText(f) + (f.after + ([CLOSE_OBJECT] + rest))), nested)
      == if FieldFits(f, nested) then Ok([CutMember(MemberOf(libc, f))], rest) else Fail
    decreases f, 1
  {
    hide ParseMembers, ParseMember, ParseValue, SkipWhitespace, MemberText, MemberOf, CutMember, FieldFits;
    var t := f.after + ([CLOSE_OBJECT] + rest);
    var s := f.before + (MemberText(f) + t);
    MemberParses(libc, f, t, nested);
    NoMember(libc, s, nested);
    if FieldFits(f, nested) {
      ParsesLastMember(libc, s, CutMember(MemberOf(libc, f)), f.after, rest, nested);
    }
  }

  lemma {:induction false} FirstFieldParses(libc: Libc, f: FieldForm, more: Text, nested: nat)
    requires TolerableField(f) && Terminated(more) && nested <= NESTING_LIMIT
    ensures ParseMembers(libc, f.before + (MemberText(f) + (f.after + ([COMMA] + more))), nested) ==
      if !FieldFits(f, nested) then Fail
      else match ParseMembers(libc, more, nested)
        case Fail => Fail
        case Ok(members, end) => Ok([CutMember(MemberOf(libc, f))] + members, end)
    decreases f, 1
  {
    hide ParseMembers, ParseMember, ParseValue, SkipWhitespace, MemberText, MemberOf, CutMember, FieldFits;
    var t := f.after + ([COMMA] + more);
    var s := f.before + (MemberText(f) + t);
    MemberParses(libc, f, t, nested);
    NoMember(libc, s, nested);
    if FieldFits(f, nested) {
      ParsesNextMember(libc, s, CutMember(MemberOf(libc, f)), f.after, more, nested);
    }
  }

  lemma MemberLayout(f: FieldForm, t: Text)
    ensures MemberText(f) + t == LiteralText(f.key) + (f.gap + ([COLON] + (f.space + (TextOf(f.value) + t))))
  {
    var v := TextOf(f.value);
    Regroup(LiteralText(f.key), f.gap + ([COLON] + (f.space + v)), t);
    Regroup(f.gap, [COLON] + (f.space + v), t);
    Regroup([COLON], f.space + v, t);
    Regroup(f.space, v, t);
  }

  lemma {:induction false} MemberParses(libc: Libc, f: FieldForm, t: Text, nested: nat)
    requires TolerableField(f) && Terminated(t) && !IsNumberByte(t[0]) && nested <= NESTING_LIMIT
    ensures var r := ParseMember(libc, f.before + (MemberText(f) + t), nested);
      if FieldFits(f, nested) then r == Ok(CutMember(MemberOf(libc, f)), t) else r.Fail? || IsNumberByte(r.rest[0])
    decreases f, 0
  {
    hide ParseMember, ParseValue, ParseString, SkipWhitespace, TextOf, Meaning, Cut, MemberText, Depth, Readable,
      Paired;
    var value := TextOf(f.value) + t;
    var colon := [COLON] + (f.space + value);
    var s := f.before + (MemberText(f) + t);
    MemberLayout(f, t);
    SkipBlank(f.before, LiteralText(f.key) + (f.gap + colon));
    StringParses(f.key, f.gap + colon);
    if Paired(f.key) {
      SkipBlank(f.gap, colon);
      assert colon[1..] == f.space + value;
      TextStart(f.value);
      SkipBlank(f.space, value);
      MemberStep(libc, s, CString(DenotedAll(f.key)), colon, nested);
      ValueParses(libc, f.value, t, nested);
      if f.value.NumberWord? {
        NumberParses(libc, f.value.form, t, nested);
        WordText(f.value);
      }
    } else {
      NoName(libc, s, nested);
    }
  }

  // ----- One more in front

  lemma ElementInFront(libc: Libc, e: Element, es: seq<Element>)
    ensures var all := [e] + es;
      && ReadableElements(all) == (Readable(e.value) && ReadableElements(es))
      && ElementsDepth(all) == Max(Depth(e.value), ElementsDepth(es))
      && Items(libc, all) == [Meaning(libc, e.value)] + Items(libc, es)
      && ElementsText(all)
         == e.before + (TextOf(e.value) + (e.after + (if es == [] then [] else [COMMA] + ElementsText(es))))
  {
    hide Meaning, TextOf, Readable, Depth;
    var all := [e] + es;
    assert all[1..] == es;
  }

  lemma FieldInFront(libc: Libc, f: FieldForm, fs: seq<FieldForm>)
    ensures var all := [f] + fs;
      && ReadableFields(all) == (ReadableField(f) && ReadableFields(fs))
      && FieldsDepth(all) == Max(Depth(f.value), FieldsDepth(fs))
      && Members(libc, all) == [MemberOf(libc, f)] + Members(libc, fs)
      && FieldsText(all) == f.before + (MemberText(f) + (f.after + (if fs == [] then [] else [COMMA] + FieldsText(fs))))
  {
    hide MemberOf, MemberText, ReadableField, Depth;
    var all := [f] + fs;
    assert all[1..] == fs;
  }
}
