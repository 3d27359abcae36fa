/** Printing and parsing undo each other. What the printer writes is one of the texts of the
    grammar; numbers that are not finite become null. */
module JsonRoundTrip {
  import opened Bytes
  import opened JsonStrings
  import opened JsonLiterals
  import opened JsonNumbers
  import opened JsonText
  import opened JsonSteps
  import opened JsonGrammar
  import opened JsonDocuments

  /** The tree with null for every number that is not finite. */
  function Nulled(v: Json): Json {
    match v
    case Number(d) => if d.Finite? then v else Null
    case Array(items) => Array(NulledItems(items))
    case Object(members) => Object(NulledMembers(members))
    case _ => v
  }

  function NulledItems(items: seq<Json>): (r: seq<Json>)
    ensures |r| == |items|
  {
    if items == [] then [] else [Nulled(items[0])] + NulledItems(items[1..])
  }

  function NulledMembers(members: seq<Member>): (r: seq<Member>)
    ensures |r| == |members|
  {
    if members == [] then []
    else [Member(members[0].key, Nulled(members[0].value))] + NulledMembers(members[1..])
  }

  predicate AllFinite(v: Json) {
    match v
    case Number(d) => d.Finite?
    case Array(items) => forall i :: 0 <= i < |items| ==> AllFinite(items[i])
    case Object(members) => forall i :: 0 <= i < |members| ==> AllFinite(members[i].value)
    case _ => true
  }

  lemma {:induction false} NulledIsSame(v: Json)
    ensures Nulled(v) == v <==> AllFinite(v)
    ensures Nesting(Nulled(v)) == Nesting(v)
    decreases v, 0
  {
    match v
    case Array(items) => NulledItemsSame(items);
    case Object(members) => NulledMembersSame(members);
    case _ =>
  }

  lemma {:induction false} NulledItemsSame(items: seq<Json>)
    ensures NulledItems(items) == items <==> forall i :: 0 <= i < |items| ==> AllFinite(items[i])
    ensures NestingItems(NulledItems(items)) == NestingItems(items)
    decreases items, 0
  {
    if items != [] {
      hide Nulled, AllFinite, Nesting;
      NulledIsSame(items[0]);
      NulledItemsSame(items[1..]);
      assert items == [items[0]] + items[1..];
    }
  }

  lemma {:induction false} NulledMembersSame(members: seq<Member>)
    ensures NulledMembers(members) == members <==> forall i :: 0 <= i < |members| ==> AllFinite(members[i].value)
    ensures NestingMembers(NulledMembers(members)) == NestingMembers(members)
    decreases members, 0
  {
    if members != [] {
      hide Nulled, AllFinite, Nesting;
      NulledIsSame(members[0].value);
      NulledMembersSame(members[1..]);
      assert members == [members[0]] + members[1..];
    }
  }

  lemma {:induction false} NulledCStrings(v: Json)
    requires CStrings(v)
    ensures CStrings(Nulled(v))
    decreases v
  {
    match v
    case Array(items) => NulledItemsCStrings(items);
    case Object(members) => NulledMembersCStrings(members);
    case _ =>
  }

  lemma {:induction false} NulledItemsCStrings(items: seq<Json>)
    requires CStrings(Array(items))
    ensures CStrings(Array(NulledItems(items)))
    decreases items
  {
    if items != [] {
      NulledCStrings(items[0]);
      NulledItemsCStrings(items[1..]);
      NulInFront(Nulled(items[0]), NulledItems(items[1..]));
    }
  }

  lemma {:induction false} NulledMembersCStrings(members: seq<Member>)
    requires CStrings(Object(members))
    ensures CStrings(Object(NulledMembers(members)))
    decreases members
  {
    if members != [] {
      NulledCStrings(members[0].value);
      NulledMembersCStrings(members[1..]);
      NulInFirstMember(Member(members[0].key, Nulled(members[0].value)), NulledMembers(members[1..]));
    }
  }

  // ----- The text the printer writes, as a text of the grammar

  ghost function FormOf(t: Text): (n: NumberForm)
    requires IsNumber(t)
    ensures LawfulNumber(n) && NumberWritten(n) == t
  {
    var n :| LawfulNumber(n) && NumberWritten(n) == t;
    n
  }

  ghost function SyntaxOf(libc: Libc, v: Json, depth: nat, format: bool): Syntax
    requires Sound(libc)
    decreases v
  {
    match v
    case Null => NullWord
    case False => FalseWord
    case True => TrueWord
    case Number(d) =>
      if d.Finite? then
        NumberTextReads(libc, d);
        NumberWord(FormOf(NumberText(libc, d)))
      else NullWord
    case String(s) => StringWord(PiecesOf(s))
    case Array(items) => ArrayForm([], ElementsOf(libc, items, depth + 1, format, []))
    case Object(members) =>
      ObjectForm(LineEnd(format) + Indent(depth, format), FieldsOf(libc, members, depth + 1, format))
  }

  /** In the formatted text a space stands in front of every element but the first. */
  ghost function ElementsOf(libc: Libc, items: seq<Json>, depth: nat, format: bool, gap: Text): seq<Element>
    requires Sound(libc)
    decreases items
  {
    if items == [] then []
    else
      [Element(gap, SyntaxOf(libc, items[0], depth, format), [])]
      + ElementsOf(libc, items[1..], depth, format, if format then [SPACE] else [])
  }

  ghost function FieldOf(libc: Libc, m: Member, depth: nat, format: bool, more: bool): FieldForm
    requires Sound(libc) && depth > 0
    decreases m, 1
  {
    FieldForm(LineEnd(format) + Indent(depth, format), PiecesOf(m.key), [], if format then [TAB] else [],
              SyntaxOf(libc, m.value, depth, format), if more then [] else LineEnd(format) + Indent(depth - 1, format))
  }

  /** In the formatted text every member stands on a line of its own. */
  ghost function FieldsOf(libc: Libc, members: seq<Member>, depth: nat, format: bool): seq<FieldForm>
    requires Sound(libc) && depth > 0
    decreases members
  {
    if members == [] then []
    else [FieldOf(libc, members[0], depth, format, |members| > 1)] + FieldsOf(libc, members[1..], depth, format)
  }

  /** The rendering of a tree is a text of the grammar; it denotes the tree with nulls for the
      numbers that are not finite. */
  lemma {:induction false} RenderIsGrammar(libc: Libc, v: Json, depth: nat, format: bool)
    requires Sound(libc) && CStrings(v)
    ensures var x := SyntaxOf(libc, v, depth, format);
      && Lawful(x) && Readable(x)
      && TextOf(x) == Render(libc, v, depth, format) && Meaning(libc, x) == Nulled(v)
    decreases v, 0
  {
    match v
    case Number(d) =>
      if d.Finite? {
        NumberTextReads(libc, d);
      }
    case String(s) => KeyIsGrammar(s);
    case Array(items) => ArrayIsGrammar(libc, items, depth, format);
    case Object(members) => ObjectIsGrammar(libc, members, depth, format);
    case _ =>
  }

  lemma KeyIsGrammar(s: Text)
    requires 0 !in s
    ensures AllWellFormed(PiecesOf(s)) && Paired(PiecesOf(s))
    ensures LiteralText(PiecesOf(s)) == Quoted(s) && DenotedAll(PiecesOf(s)) == s
  {
    PiecesDenote(s);
  }

  lemma {:induction false} ArrayIsGrammar(libc: Libc, items: seq<Json>, depth: nat, format: bool)
    requires Sound(libc) && CStrings(Array(items))
    ensures var x := SyntaxOf(libc, Array(items), depth, format);
      && Lawful(x) && Readable(x)
      && TextOf(x) == Render(libc, Array(items), depth, format) && Meaning(libc, x) == Nulled(Array(items))
    decreases Array(items), 0, 0
  {
    hide ElementsText, ElementsOf, RenderItems, Items, NulledItems;
    ElementsAreGrammar(libc, items, depth + 1, format, []);
    NoElements(libc, depth + 1, format);
  }

  lemma NoElements(libc: Libc, depth: nat, format: bool)
    requires Sound(libc)
    ensures forall gap :: ElementsOf(libc, [], depth, format, gap) == []
    ensures RenderItems(libc, [], depth, format) == [] && ElementsText([]) == []
    ensures Items(libc, []) == [] && NulledItems([]) == []
  {
  }

  lemma {:induction false} ElementsAreGrammar(libc: Libc, items: seq<Json>, depth: nat, format: bool, gap: Text)
    requires Sound(libc) && Blank(gap) && forall i :: 0 <= i < |items| ==> CStrings(items[i])
    ensures var es := ElementsOf(libc, items, depth, format, gap);
      && |es| == |items| && (forall i :: 0 <= i < |es| ==> LawfulElement(es[i])) && ReadableElements(es)
      && ElementsText(es) == (if items == [] then [] else gap) + RenderItems(libc, items, depth, format)
      && Items(libc, es) == NulledItems(items)
    decreases items, 0
  {
    if items != [] {
      var space := if format then [SPACE] else [];
      var back := ElementsOf(libc, items[1..], depth, format, space);
      var e := Element(gap, SyntaxOf(libc, items[0], depth, format), []);
      RenderIsGrammar(libc, items[0], depth, format);
      ElementsAreGrammar(libc, items[1..], depth, format, space);
      assert ElementsOf(libc, items, depth, format, gap) == [e] + back;
      hide ElementsOf, SyntaxOf, Render, TextOf, Meaning, Nulled;
      ElementInFront(libc, e, back);
      ItemsText(libc, items, depth, format, e, back);
    }
  }

  lemma ItemsText(libc: Libc, items: seq<Json>, depth: nat, format: bool, e: Element, es: seq<Element>)
    requires items != [] && (es == [] <==> |items| == 1) && e.after == []
    requires TextOf(e.value) == Render(libc, items[0], depth, format)
    requires es != [] ==>
      ElementsText(es) == (if format then [SPACE] else []) + RenderItems(libc, items[1..], depth, format)
    ensures e.before + (TextOf(e.value) + (e.after + (if es == [] then [] else [COMMA] + ElementsText(es))))
      == e.before + RenderItems(libc, items, depth, format)
  {
    hide Render, TextOf, ElementsText;
    var space, back := if format then [SPACE] else [], RenderItems(libc, items[1..], depth, format);
    var x := if es == [] then [] else [COMMA] + ElementsText(es);
    assert e.after + x == x;
    if |items| > 1 {
      assert ItemEnd(true, format) == [COMMA] + space;
      Regroup([COMMA], space, back);
    } else {
      assert items[1..] == [] && back == [] && [] + back == [];
    }
    assert x == ItemEnd(|items| > 1, format) + back;
    hide ItemEnd;
  }

  lemma {:induction false} ObjectIsGrammar(libc: Libc, members: seq<Member>, depth: nat, format: bool)
    requires Sound(libc) && CStrings(Object(members))
    ensures var x := SyntaxOf(libc, Object(members), depth, format);
      && Lawful(x) && Readable(x) && TextOf(x) == Render(libc, Object(members), depth, format)
      && Meaning(libc, x) == Nulled(Object(members))
    decreases Object(members), 0, 0
  {
    hide FieldsText, FieldsOf, RenderMembers, Members, NulledMembers, ReadableFields, LineEnd, Indent, TextOf, Render;
    LayoutIsBlank(depth, format);
    FieldsAreGrammar(libc, members, depth + 1, format);
    NoFields(libc, depth + 1, format);
    ObjectFormText(libc, members, depth, format, SyntaxOf(libc, Object(members), depth, format));
  }

  lemma ObjectFormText(libc: Libc, members: seq<Member>, depth: nat, format: bool, x: Syntax)
    requires x.ObjectForm? && x.blank == LineEnd(format) + Indent(depth, format) && |x.fields| == |members|
    requires members == [] ==> RenderMembers(libc, members, depth + 1, format) == []
    requires members != [] ==>
      FieldsText(x.fields)
      == LineEnd(format) + (RenderMembers(libc, members, depth + 1, format) + Indent(depth, format))
    ensures TextOf(x) == Render(libc, Object(members), depth, format)
  {
    hide FieldsText, RenderMembers, LineEnd, Indent;
    var line, indent, body := LineEnd(format), Indent(depth, format), RenderMembers(libc, members, depth + 1, format);
    if members == [] {
      assert body + indent == indent;
    }
    Regroup(line, body + indent, [CLOSE_OBJECT]);
    Regroup(body, indent, [CLOSE_OBJECT]);
  }

  lemma NoFields(libc: Libc, depth: nat, format: bool)
    requires Sound(libc) && depth > 0
    ensures FieldsOf(libc, [], depth, format) == [] && RenderMembers(libc, [], depth, format) == []
    ensures FieldsText([]) == [] && Members(libc, []) == [] && NulledMembers([]) == []
  {
  }

  lemma {:induction false} FieldsAreGrammar(libc: Libc, members: seq<Member>, depth: nat, format: bool)
    requires Sound(libc) && depth > 0
    requires forall i :: 0 <= i < |members| ==> 0 !in members[i].key && CStrings(members[i].value)
    ensures var fs := FieldsOf(libc, members, depth, format);
      && |fs| == |members| && (forall i :: 0 <= i < |fs| ==> LawfulField(fs[i])) && ReadableFields(fs)
      && (members != [] ==>
            FieldsText(fs)
            == LineEnd(format) + (RenderMembers(libc, members, depth, format) + Indent(depth - 1, format)))
      && Members(libc, fs) == NulledMembers(members)
    decreases members, 0
  {
    if members != [] {
      var back := FieldsOf(libc, members[1..], depth, format);
      var f := FieldOf(libc, members[0], depth, format, |members| > 1);
      FieldIsGrammar(libc, members[0], depth, format, |members| > 1);
      FieldsAreGrammar(libc, members[1..], depth, format);
      assert FieldsOf(libc, members, depth, format) == [f] + back;
      FieldInFront(libc, f, back);
      hide FieldsOf, SyntaxOf, Field, MemberText, MemberOf, Nulled, Indent;
      MembersText(libc, members, depth, format, f, back);
    }
  }

  /** The lines of an object's members, as the printer lays them out. */
  lemma MembersText(libc: Libc, members: seq<Member>, depth: nat, format: bool, f: FieldForm, fs: seq<FieldForm>)
    requires depth > 0 && members != [] && (fs == [] <==> |members| == 1)
    requires f.before == LineEnd(format) + Indent(depth, format)
    requires MemberText(f) == Field(libc, members[0], depth, format)
    requires f.after == if |members| > 1 then [] else LineEnd(format) + Indent(depth - 1, format)
    requires fs != [] ==>
      FieldsText(fs) == LineEnd(format) + (RenderMembers(libc, members[1..], depth, format) + Indent(depth - 1, format))
    ensures f.before + (MemberText(f) + (f.after + (if fs == [] then [] else [COMMA] + FieldsText(fs))))
      == LineEnd(format) + (RenderMembers(libc, members, depth, format) + Indent(depth - 1, format))
  {
    hide Indent, MemberText, Field;
    var line, inner, outer := LineEnd(format), Indent(depth, format), Indent(depth - 1, format);
    var m, back := MemberText(f), RenderMembers(libc, members[1..], depth, format);
    var comma := if |members| > 1 then [COMMA] else [];
    assert RenderMembers(libc, members, depth, format) == inner + (m + ((comma + line) + back));
    hide RenderMembers, FieldsText, LineEnd;
    Regroup(inner, m + ((comma + line) + back), outer);
    Regroup(m, (comma + line) + back, outer);
    Regroup(comma + line, back, outer);
    Regroup(comma, line, back + outer);
    Regroup(line, inner, m + (comma + (line + (back + outer))));
    if |members| == 1 {
      assert members[1..] == [] && back + outer == outer && comma + (line + outer) == line + outer;
    } else {
      assert [] + ([COMMA] + FieldsText(fs)) == [COMMA] + FieldsText(fs);
    }
    assert f.after + (if fs == [] then [] else [COMMA] + FieldsText(fs)) == comma + (line + (back + outer));
  }

  lemma {:induction false} FieldIsGrammar(libc: Libc, m: Member, depth: nat, format: bool, more: bool)
    requires Sound(libc) && depth > 0 && 0 !in m.key && CStrings(m.value)
    ensures var f := FieldOf(libc, m, depth, format, more);
      && LawfulField(f) && ReadableField(f) && MemberText(f) == Field(libc, m, depth, format)
      && MemberOf(libc, f) == Member(m.key, Nulled(m.value))
    decreases m, 1
  {
    hide SyntaxOf, TextOf, Render, Meaning, Nulled, LiteralText, Quoted, MemberText, Field, DenotedAll, Paired;
    hide Readable;
    var f := FieldOf(libc, m, depth, format, more);
    LayoutIsBlank(depth, format);
    LayoutIsBlank(depth - 1, format);
    RenderIsGrammar(libc, m.value, depth, format);
    KeyIsGrammar(m.key);
    FieldText(libc, m, depth, format, f);
    hide LineEnd, Indent, Lawful, AllWellFormed, PiecesOf;
  }

  lemma LayoutIsBlank(depth: nat, format: bool)
    ensures Blank(LineEnd(format) + Indent(depth, format)) && Blank([]) && Blank([TAB])
  {
  }

  lemma FieldText(libc: Libc, m: Member, depth: nat, format: bool, f: FieldForm)
    requires LiteralText(f.key) == Quoted(m.key) && f.gap == [] && f.space == (if format then [TAB] else [])
    requires TextOf(f.value) == Render(libc, m.value, depth, format)
    ensures MemberText(f) == Field(libc, m, depth, format)
  {
    hide TextOf, Render, LiteralText, Quoted;
    var t := TextOf(f.value);
    assert KeySeparator(format) == [COLON] + f.space;
    Regroup([COLON], f.space, t);
    assert [] + ([COLON] + (f.space + t)) == [COLON] + (f.space + t);
  }

  // ----- Round trips

  /** A printed value, at any depth and in either format, is read back from in front of whatever
      follows, exactly if it does not nest too deep. */
  lemma ValueRoundTrip(libc: Libc, v: Json, depth: nat, format: bool, rest: Text, nested: nat)
    requires Sound(libc) && CStrings(v)
    requires Terminated(rest) && !IsNumberByte(rest[0]) && nested <= NESTING_LIMIT
    ensures ParseValue(libc, Render(libc, v, depth, format) + rest, nested)
      == if nested + Nesting(v) <= NESTING_LIMIT then Ok(Nulled(v), rest) else Fail
  {
    hide ParseValue, Render, TextOf, SyntaxOf, Meaning, Nulled, Cut, CStrings, Readable, Depth;
    var x := SyntaxOf(libc, v, depth, format);
    RenderIsGrammar(libc, v, depth, format);
    DepthIsNesting(libc, x);
    NulledIsSame(v);
    NulledCStrings(v);
    CutIsSame(Nulled(v));
    WordIsFlat(x);
    LawfulIsTolerable(x);
    ValueParses(libc, x, rest, nested);
  }

  /** Parsing what was printed, in either format, gives the tree back with null for each number that
      is not finite: the same tree, exactly if it nests at most 1000 containers and every number is
      finite. */
  lemma DocumentRoundTrip(libc: Libc, v: Json, format: bool, requireEnd: bool)
    requires Sound(libc) && CStrings(v)
    ensures ParseDocument(libc, Render(libc, v, 0, format), requireEnd)
      == if Nesting(v) <= NESTING_LIMIT then Some(Nulled(v)) else None
    ensures ParseDocument(libc, Render(libc, v, 0, format), requireEnd) == Some(v)
      <==> Nesting(v) <= NESTING_LIMIT && AllFinite(v)
  {
    hide ParseDocument, Render, TextOf, SyntaxOf, Meaning, Nulled, Cut, CStrings, Readable, Depth;
    var x := SyntaxOf(libc, v, 0, format);
    RenderIsGrammar(libc, v, 0, format);
    DepthIsNesting(libc, x);
    NulledIsSame(v);
    NulledCStrings(v);
    CutIsSame(Nulled(v));
    WordIsFlat(x);
    LawfulIsTolerable(x);
    DocumentParses(libc, false, [], x, [], requireEnd);
    assert Document(false, [], x, []) == TextOf(x);
  }
}
