/** The printer of src/extern/cJSON.c: it writes into a buffer that grows on demand, and every write
    stays inside what the last request reserved. */
module JsonPrinter {
  import opened Bytes
  import opened JsonStrings
  import opened JsonLiterals
  import opened JsonNumbers
  import opened JsonText

  const INT_MAX: nat := 0x7fff_ffff

  /** Every number text fits the printer's own buffer. */
  predicate NumbersFit(libc: Libc, v: Json) {
    match v
    case Number(d) => |NumberText(libc, d)| <= NUMBER_BUFFER
    case Array(items) => forall i :: 0 <= i < |items| ==> NumbersFit(libc, items[i])
    case Object(members) => forall i :: 0 <= i < |members| ==> NumbersFit(libc, members[i].value)
    case _ => true
  }

  /** A sound C library's number texts always fit. */
  lemma {:induction false} SoundNumbersFit(libc: Libc, v: Json)
    requires Sound(libc)
    ensures NumbersFit(libc, v)
    decreases v
  {
    match v
    case Number(d) =>
      if d.Finite? {
        NumberTextReads(libc, d);
      }
    case Array(items) =>
      forall i | 0 <= i < |items|
        ensures NumbersFit(libc, items[i])
      {
        SoundNumbersFit(libc, items[i]);
      }
    case Object(members) =>
      forall i | 0 <= i < |members|
        ensures NumbersFit(libc, members[i].value)
      {
        SoundNumbersFit(libc, members[i].value);
      }
    case _ =>
  }

  lemma {:induction false} RenderNulFree(libc: Libc, v: Json, depth: nat, format: bool)
    requires CStrings(v)
    ensures 0 !in Render(libc, v, depth, format)
    decreases v, 0
  {
    hide Escaped, RenderItems, RenderMembers;
    match v
    case String(s) => EscapedNulFree(s);
    case Array(items) => ItemsNulFree(libc, items, depth + 1, format);
    case Object(members) => MembersNulFree(libc, members, depth + 1, format);
    case _ =>
  }

  lemma {:induction false} ItemsNulFree(libc: Libc, items: seq<Json>, depth: nat, format: bool)
    requires forall i :: 0 <= i < |items| ==> CStrings(items[i])
    ensures 0 !in RenderItems(libc, items, depth, format)
    decreases items
  {
    if items != [] {
      RenderNulFree(libc, items[0], depth, format);
      ItemsNulFree(libc, items[1..], depth, format);
    }
  }

  lemma {:induction false} MembersNulFree(libc: Libc, members: seq<Member>, depth: nat, format: bool)
    requires forall i :: 0 <= i < |members| ==> 0 !in members[i].key && CStrings(members[i].value)
    ensures 0 !in RenderMembers(libc, members, depth, format)
    decreases members
  {
    if members != [] {
      RenderNulFree(libc, members[0].value, depth, format);
      MembersNulFree(libc, members[1..], depth, format);
      hide Render, Escaped;
      FieldNulFree(libc, members[0], depth, format);
    }
  }

  lemma FieldNulFree(libc: Libc, m: Member, depth: nat, format: bool)
    requires 0 !in m.key && 0 !in Render(libc, m.value, depth, format)
    ensures 0 !in Field(libc, m, depth, format)
  {
    hide Render, Escaped;
    EscapedNulFree(m.key);
  }

  predicate NeedsEscape(c: byte) {
    c <= 31 || c == QUOTE || c == BACKSLASH
  }

  /** The escape of a byte, without the backslash. */
  function EscapeOf(c: byte): (r: Text)
    requires NeedsEscape(c)
    ensures r != []
  {
    Written(PieceOf(c))[1..]
  }

  lemma EscapeIs(c: byte)
    requires NeedsEscape(c)
    ensures EscapeOf(c) ==
      if c == BACKSLASH || c == QUOTE then [c]
      else if c == 8 then [98]
      else if c == 12 then [102]
      else if c == 10 then [110]
      else if c == 13 then [114]
      else if c == 9 then [116]
      else [LOWER_U, 48, 48, HexDigit(c / 16), HexDigit(c % 16)]
  {
    hide WellFormed, Denoted, HighHalf, LowHalf, HexDigit, Written;
    var p := PieceOf(c);
    WrittenIs(p);
  }

  lemma WrittenIs(p: Piece)
    ensures p.Short? ==> Written(p)[1..] == [p.letter]
    ensures p.Unit? ==> Written(p)[1..] == [LOWER_U] + p.hex
  {
  }

  // ----- Growing text

  /** `buf` starts with `t`. */
  ghost predicate Front(buf: seq<byte>, t: Text) {
    |t| <= |buf| && buf[..|t|] == t
  }

  /** `buf` starts with `t` and a NUL. */
  ghost predicate CFront(buf: seq<byte>, t: Text) {
    |t| < |buf| && buf[..|t|] == t && buf[|t|] == 0
  }

  lemma Extended(buf: seq<byte>, t: Text, bs: Text)
    requires Front(buf, t) && |t| + |bs| <= |buf|
    ensures Front(Splice(buf, |t|, bs), t + bs)
  {
  }

  lemma ExtendedC(buf: seq<byte>, t: Text, bs: Text)
    requires Front(buf, t) && |t| + |bs| < |buf|
    ensures CFront(Splice(buf, |t|, bs + [0]), t + bs)
    ensures Front(Splice(buf, |t|, bs + [0]), t + bs)
  {
  }

  /** `strlen` does not stop before the end of the text. */
  lemma NoNulBefore(buf: seq<byte>, t: Text, offset: nat)
    requires CFront(buf, t) && offset <= |t| && 0 !in t[offset..]
    ensures forall k :: offset <= k < |t| ==> buf[k] != 0
  {
    forall k | offset <= k < |t|
      ensures buf[k] != 0
    {
      assert buf[k] == buf[..|t|][k] == t[offset..][k - offset];
    }
  }

  class PrintBuffer {
    var buffer: array<byte>
    var offset: nat
    var depth: nat
    const noalloc: bool
    const format: bool
    /** Whether the allocator can resize in place. */
    const inPlace: bool
    const libc: Libc
    /** Where the last reservation ends. */
    ghost var limit: nat

    constructor (buffer: array<byte>, noalloc: bool, format: bool, inPlace: bool, libc: Libc)
      ensures this.buffer == buffer && offset == 0 && depth == 0
      ensures this.noalloc == noalloc && this.format == format && this.inPlace == inPlace && this.libc == libc
    {
      this.buffer, this.noalloc, this.format, this.inPlace, this.libc := buffer, noalloc, format, inPlace, libc;
      offset, depth := 0, 0;
    }

    /** How large the buffer can become. */
    ghost function Cap(): nat
      reads this
    {
      if noalloc then buffer.Length else INT_MAX
    }

    /** The text so far is `t`, and the next write goes behind it. */
    ghost predicate Holds(t: Text)
      reads this, buffer
    {
      && offset == |t| && Front(buffer[..], t)
      && buffer.Length <= INT_MAX && (noalloc || offset < buffer.Length)
    }

    /** The text so far is the C string `t`; the offset is somewhere in it. */
    ghost predicate Ends(t: Text)
      reads this, buffer
    {
      && offset <= |t| && CFront(buffer[..], t) && 0 !in t[offset..]
      && buffer.Length <= INT_MAX
    }

    /** Makes room for `needed` more bytes and a NUL, if it can. What was written stays. */
    method Ensure(needed: nat, ghost t: Text) returns (ok: bool)
      requires Holds(t)
      modifies this`buffer, this`limit
      ensures ok <==> |t| + needed < old(Cap())
      ensures Holds(t) && Cap() == old(Cap())
      ensures ok ==> limit == |t| + needed < buffer.Length
      ensures buffer == old(buffer) || (ok && fresh(buffer) && !noalloc)
      ensures buffer != old(buffer) ==>
        buffer.Length == if |t| + needed + 1 > INT_MAX / 2 then INT_MAX else 2 * (|t| + needed + 1)
    {
      if buffer.Length > 0 && offset >= buffer.Length {
        return false;
      }
      if needed > INT_MAX {
        return false;
      }
      var total := needed + offset + 1;
      limit := offset + needed;
      if total <= buffer.Length {
        return true;
      }
      if noalloc {
        return false;
      }
      var newsize;
      if total > INT_MAX / 2 {
        if total <= INT_MAX {
          newsize := INT_MAX;
        } else {
          return false;
        }
      } else {
        newsize := total * 2;
      }
      var newbuffer := new byte[newsize];
      if inPlace {
        Overwrite(newbuffer, 0, buffer[..]);
      } else {
        Overwrite(newbuffer, 0, buffer[..offset + 1]);
      }
      assert newbuffer[..offset] == buffer[..offset];
      buffer := newbuffer;
      ok := true;
    }

    /** Writes behind the text, inside the reservation. */
    method Store(at: nat, bs: Text)
      requires offset <= at && at + |bs| <= limit <= buffer.Length
      modifies buffer
      ensures buffer[..] == Splice(old(buffer[..]), at, bs)
    {
      Overwrite(buffer, at, bs);
    }

    /** Moves the offset to the end of the string behind it. */
    method UpdateOffset(ghost t: Text)
      requires Ends(t)
      modifies this`offset
      ensures Holds(t)
    {
      var length := 0;
      assert buffer[..][|t|] == 0;
      NoNulBefore(buffer[..], t, offset);
      while buffer[offset + length] != 0
        invariant offset + length <= |t|
        decreases |t| - length
      {
        length := length + 1;
      }
      offset := offset + length;
    }

    /** `strcpy` of a literal behind the text. */
    method PrintLiteral(literal: Text, ghost t: Text) returns (ok: bool)
      requires Holds(t) && 0 !in literal
      modifies this`buffer, this`limit, buffer
      ensures ok <==> |t| + |literal| + 2 <= old(Cap())
      ensures ok ==> Ends(t + literal)
      ensures Cap() == old(Cap()) && (buffer == old(buffer) || (fresh(buffer) && !noalloc))
    {
      ok := Ensure(|literal| + 1, t);
      if !ok {
        return;
      }
      ExtendedC(buffer[..], t, literal);
      Store(offset, literal + [0]);
      assert (t + literal)[offset..] == literal;
    }

    /** The text of a number: `null` if it is not finite, 15 digits if they read back as an equal
        number, else 17; then a NUL, and the offset behind the text. */
    method PrintNumber(d: double, ghost t: Text) returns (ok: bool)
      requires Holds(t)
      modifies this`buffer, this`limit, this`offset, buffer
      ensures ok <==> |NumberText(libc, d)| <= NUMBER_BUFFER && |t| + |NumberText(libc, d)| + 2 <= old(Cap())
      ensures ok ==> Ends(t + NumberText(libc, d))
      ensures Cap() == old(Cap()) && (buffer == old(buffer) || (fresh(buffer) && !noalloc))
    {
      var text: Text := NULL_TEXT;
      if d.Finite? {
        text := libc.g15(d);
        if Taken(text) == 0 || !Equal(Scan(libc, text), d) {
          text := libc.g17(d);
        }
      }
      assert text == NumberText(libc, d);
      if |text| > NUMBER_BUFFER {
        return false;
      }
      ok := Ensure(|text| + 1, t);
      if !ok {
        return;
      }
      ExtendedC(buffer[..], t, text);
      Store(offset, text + [0]);
      offset := offset + |text|;
    }

    /** One byte of a string, as itself or escaped; `o` moves behind it. */
    method PrintByte(c: byte, o: nat, ghost t: Text) returns (o': nat)
      requires c != 0 && offset <= |t| == o && Front(buffer[..], t)
      requires o + |Written(PieceOf(c))| < limit <= buffer.Length
      modifies buffer
      ensures o' == o + |Written(PieceOf(c))| && Front(buffer[..], t + Written(PieceOf(c)))
    {
      if c > 31 && c != QUOTE && c != BACKSLASH {
        Extended(buffer[..], t, [c]);
        Store(o, [c]);
        o' := o + 1;
      } else {
        Extended(buffer[..], t, [BACKSLASH]);
        Store(o, [BACKSLASH]);
        o' := PrintEscape(c, o + 1, t + [BACKSLASH]);
        Regroup(t, [BACKSLASH], EscapeOf(c));
        assert [BACKSLASH] + EscapeOf(c) == Written(PieceOf(c));
      }
    }

    /** What follows the backslash; `sprintf` leaves a NUL behind a \u escape. */
    method PrintEscape(c: byte, o: nat, ghost t: Text) returns (o': nat)
      requires NeedsEscape(c) && offset <= |t| == o && Front(buffer[..], t)
      requires o + |EscapeOf(c)| < limit <= buffer.Length
      modifies buffer
      ensures o' == o + |EscapeOf(c)| && Front(buffer[..], t + EscapeOf(c))
    {
      ghost var before := buffer[..];
      EscapeIs(c);
      hide EscapeOf, HexDigit;
      o' := o;
      if c == BACKSLASH {
        Store(o', [BACKSLASH]);
      } else if c == QUOTE {
        Store(o', [QUOTE]);
      } else if c == 8 {
        Store(o', [98]);
      } else if c == 12 {
        Store(o', [102]);
      } else if c == 10 {
        Store(o', [110]);
      } else if c == 13 {
        Store(o', [114]);
      } else if c == 9 {
        Store(o', [116]);
      } else {
        var text: Text := [LOWER_U, 48, 48, HexDigit(c / 16), HexDigit(c % 16)];
        ExtendedC(before, t, text);
        Store(o', text + [0]);
        o' := o' + 4;
      }
      o' := o' + 1;
      if |EscapeOf(c)| == 1 {
        Extended(before, t, EscapeOf(c));
      }
    }

    /** How many bytes escaping adds. */
    method CountEscapes(s: Text) returns (escapes: nat)
      requires 0 !in s
      ensures |s| + escapes == |Escaped(s)|
      ensures escapes == 0 ==> Escaped(s) == s
    {
      escapes := 0;
      for i := 0 to |s|
        invariant i + escapes + |Escaped(s[i..])| == |Escaped(s)|
        invariant escapes == 0 ==> s[..i] + Escaped(s[i..]) == Escaped(s)
      {
        var c := s[i];
        EscapedStep(s, i);
        if c == QUOTE || c == BACKSLASH || c == 8 || c == 12 || c == 10 || c == 13 || c == 9 {
          escapes := escapes + 1;
        } else if c < 32 {
          escapes := escapes + 5;
        } else {
          PlainStep(s, i);
        }
      }
    }

    /** A string with its quotes: room is reserved for the exact length, then the bytes are copied or
        escaped one by one. */
    method PrintString(s: Text, ghost t: Text) returns (ok: bool)
      requires Holds(t) && 0 !in s
      modifies this`buffer, this`limit, buffer
      ensures ok <==> |t| + |Quoted(s)| + 2 <= old(Cap())
      ensures ok ==> Ends(t + Quoted(s))
      ensures Cap() == old(Cap()) && (buffer == old(buffer) || (fresh(buffer) && !noalloc))
    {
      var escapes := CountEscapes(s);
      var outputLength := |s| + escapes;
      ok := Ensure(outputLength + 3, t);
      if !ok {
        return;
      }
      if escapes == 0 {
        ExtendedC(buffer[..], t, Quoted(s));
        Store(offset, [QUOTE] + s + [QUOTE] + [0]);
      } else {
        EscapeInto(s, outputLength, t);
      }
      EscapedNulFree(s);
      assert (t + Quoted(s))[offset..] == Quoted(s);
    }

    method EscapeInto(s: Text, outputLength: nat, ghost t: Text)
      requires 0 !in s && outputLength == |Escaped(s)|
      requires Holds(t) && limit == offset + outputLength + 3 < buffer.Length
      modifies buffer
      ensures CFront(buffer[..], t + Quoted(s))
    {
      hide Escaped, PieceOf, Written;
      ghost var front, e := t + [QUOTE], [];
      EscapedEnds(s);
      Extended(buffer[..], t, [QUOTE]);
      Store(offset, [QUOTE]);
      var o := offset + 1;
      for i := 0 to |s|
        invariant o == |front + e| && Front(buffer[..], front + e)
        invariant e + Escaped(s[i..]) == Escaped(s)
      {
        ghost var w := Written(PieceOf(s[i]));
        EscapedFront(s, i, front, e, w);
        o := PrintByte(s[i], o, front + e);
        e := e + w;
      }
      assert e == Escaped(s) && Quoted(s) == [QUOTE] + e + [QUOTE];
      CloseString(offset + outputLength + 1, t, e);
    }

    method CloseString(o: nat, ghost t: Text, ghost e: Text)
      requires offset <= |t| && o == |t + [QUOTE] + e| && Front(buffer[..], t + [QUOTE] + e)
      requires o + 2 <= limit <= buffer.Length
      modifies buffer
      ensures CFront(buffer[..], t + ([QUOTE] + e + [QUOTE]))
    {
      ExtendedC(buffer[..], t + [QUOTE] + e, [QUOTE]);
      Store(o, [QUOTE]);
      Store(o + 1, [0]);
      TwoStores(t, e);
    }

    /** Prints one value behind the text: it succeeds exactly if all numbers are short enough and the
        text with two more bytes fits, and then the buffer holds the old text and the rendering. */
    method PrintValue(v: Json, ghost t: Text) returns (ok: bool)
      requires Holds(t) && CStrings(v)
      modifies this, buffer
      ensures ok <==> NumbersFit(libc, v) && |t| + |Render(libc, v, old(depth), format)| + 2 <= old(Cap())
      ensures ok ==> Ends(t + Render(libc, v, depth, format)) && depth == old(depth)
      ensures Cap() == old(Cap()) && (buffer == old(buffer) || (fresh(buffer) && !noalloc))
      decreases v, 1
    {
      match v
      case Null => ok := PrintLiteral(NULL_TEXT, t);
      case False => ok := PrintLiteral(FALSE_TEXT, t);
      case True => ok := PrintLiteral(TRUE_TEXT, t);
      case Number(d) => ok := PrintNumber(d, t);
      case String(s) => ok := PrintString(s, t);
      case Array(items) => ok := PrintArray(v, t);
      case Object(members) => ok := PrintObject(v, t);
    }

    method PrintArray(v: Json, ghost t: Text) returns (ok: bool)
      requires Holds(t) && CStrings(v) && v.Array?
      modifies this, buffer
      ensures ok <==> NumbersFit(libc, v) && |t| + |Render(libc, v, old(depth), format)| + 2 <= old(Cap())
      ensures ok ==> Ends(t + Render(libc, v, depth, format)) && depth == old(depth)
      ensures Cap() == old(Cap()) && (buffer == old(buffer) || (fresh(buffer) && !noalloc))
      decreases v, 0
    {
      hide Render, RenderItems, NumbersFit, CStrings, Splice, Front, CFront;
      ghost var body := RenderItems(libc, v.items, depth + 1, format);
      ArrayText(libc, v.items, depth, format, t);
      assert v == Array(v.items);
      ok := Ensure(1, t);
      if !ok {
        return;
      }
      Extended(buffer[..], t, [OPEN_ARRAY]);
      Store(offset, [OPEN_ARRAY]);
      offset := offset + 1;
      depth := depth + 1;
      ghost var p := (t + [OPEN_ARRAY]) + body;
      ok := PrintItems(v, t + [OPEN_ARRAY]);
      if !ok {
        return;
      }
      ok := Ensure(2, p);
      if !ok {
        return;
      }
      ExtendedC(buffer[..], p, [CLOSE_ARRAY]);
      Store(offset, [CLOSE_ARRAY] + [0]);
      assert (p + [CLOSE_ARRAY])[offset..] == [CLOSE_ARRAY];
      depth := depth - 1;
    }

    /** The elements, up to the closing bracket. */
    method PrintItems(v: Json, ghost t: Text) returns (ok: bool)
      requires Holds(t) && CStrings(v) && v.Array?
      modifies this, buffer
      ensures ok ==> NumbersFit(libc, v) && depth == old(depth) && Holds(t + RenderItems(libc, v.items, depth, format))
      ensures !ok ==> !NumbersFit(libc, v) || |t| + |RenderItems(libc, v.items, old(depth), format)| + 2 > old(Cap())
      ensures Cap() == old(Cap()) && (buffer == old(buffer) || (fresh(buffer) && !noalloc))
      decreases v, 0, 0
    {
      hide RenderItems, Render, Front, CFront;
      var items := v.items;
      ghost var whole := t + RenderItems(libc, items, depth, format);
      ghost var p := t;
      for i := 0 to |items|
        invariant Holds(p) && depth == old(depth)
        invariant p + RenderItems(libc, items[i..], depth, format) == whole
        invariant forall j :: 0 <= j < i ==> NumbersFit(libc, items[j])
        invariant Cap() == old(Cap()) && (buffer == old(buffer) || (fresh(buffer) && !noalloc))
      {
        ItemStep(libc, p, items, i, depth, format);
        ghost var next := (p + Render(libc, items[i], depth, format)) + ItemEnd(i + 1 < |items|, format);
        ok := PrintItem(items, i, p);
        if !ok {
          return;
        }
        p := next;
      }
      NoItemsLeft(libc, p, items, depth, format);
      ok := true;
    }

    /** One element, and the separator if another follows. */
    method PrintItem(items: seq<Json>, i: nat, ghost p: Text) returns (ok: bool)
      requires Holds(p) && i < |items| && CStrings(items[i])
      modifies this, buffer
      ensures var r := Render(libc, items[i], old(depth), format) + ItemEnd(i + 1 < |items|, format);
        ok <==> NumbersFit(libc, items[i]) && |p| + |r| + 2 <= old(Cap())
      ensures ok ==> Holds((p + Render(libc, items[i], depth, format)) + ItemEnd(i + 1 < |items|, format))
      ensures ok ==> depth == old(depth)
      ensures Cap() == old(Cap()) && (buffer == old(buffer) || (fresh(buffer) && !noalloc))
      decreases items[i], 2
    {
      hide Render, CStrings, NumbersFit, Splice, Front, CFront;
      ghost var q := p + Render(libc, items[i], depth, format);
      ok := PrintValue(items[i], p);
      if !ok {
        return;
      }
      UpdateOffset(q);
      if i + 1 < |items| {
        var length := if format then 2 else 1;
        ok := Ensure(length + 1, q);
        if !ok {
          return;
        }
        ExtendedC(buffer[..], q, ItemEnd(true, format));
        assert ItemEnd(true, format) + [0] == if format then [COMMA, SPACE, 0] else [COMMA, 0];
        Store(offset, if format then [COMMA, SPACE, 0] else [COMMA, 0]);
        offset := offset + length;
      } else {
        assert q + [] == q;
      }
    }

    /** Tabs behind the text; the offset does not move. */
    method PutTabs(n: nat, ghost t: Text)
      requires Holds(t) && offset + n <= limit < buffer.Length
      modifies buffer
      ensures Front(buffer[..], t + Tabs(n))
    {
      ghost var was := buffer[..];
      for i := 0 to n
        invariant buffer[..] == Splice(was, |t|, Tabs(i))
      {
        Store(offset + i, [TAB]);
      }
      Extended(was, t, Tabs(n));
    }

    method PrintObject(v: Json, ghost t: Text) returns (ok: bool)
      requires Holds(t) && CStrings(v) && v.Object?
      modifies this, buffer
      ensures ok <==> NumbersFit(libc, v) && |t| + |Render(libc, v, old(depth), format)| + 2 <= old(Cap())
      ensures ok ==> Ends(t + Render(libc, v, depth, format)) && depth == old(depth)
      ensures Cap() == old(Cap()) && (buffer == old(buffer) || (fresh(buffer) && !noalloc))
      decreases v, 0
    {
      hide Render, RenderMembers, NumbersFit, CStrings, Splice, Front, CFront;
      ghost var open := [OPEN_OBJECT] + LineEnd(format);
      ghost var body := RenderMembers(libc, v.members, depth + 1, format);
      ObjectText(libc, v.members, depth, format, t);
      assert v == Object(v.members);
      var length := if format then 2 else 1;
      ok := Ensure(length + 1, t);
      if !ok {
        return;
      }
      Extended(buffer[..], t, open);
      assert open == if format then [OPEN_OBJECT, NEWLINE] else [OPEN_OBJECT];
      Store(offset, if format then [OPEN_OBJECT, NEWLINE] else [OPEN_OBJECT]);
      depth := depth + 1;
      offset := offset + length;
      ghost var p := (t + open) + body;
      ok := PrintMembers(v, t + open);
      if !ok {
        return;
      }
      ok := CloseObject(p);
    }

    /** The closing brace, indented to the level outside. */
    method CloseObject(ghost p: Text) returns (ok: bool)
      requires Holds(p) && depth > 0
      modifies this, buffer
      ensures ok <==> |p| + |Indent(old(depth) - 1, format)| + 3 <= old(Cap())
      ensures ok ==> depth == old(depth) - 1 && Ends((p + Indent(depth, format)) + [CLOSE_OBJECT])
      ensures Cap() == old(Cap()) && (buffer == old(buffer) || (fresh(buffer) && !noalloc))
    {
      hide Splice, Front, CFront;
      ghost var q := p + Indent(depth - 1, format);
      ok := Ensure(if format then depth + 1 else 2, p);
      if !ok {
        return;
      }
      var at := offset;
      if format {
        PutTabs(depth - 1, p);
        at := at + (depth - 1);
      } else {
        assert q == p;
      }
      ExtendedC(buffer[..], q, [CLOSE_OBJECT]);
      Store(at, [CLOSE_OBJECT] + [0]);
      TabsNulFree(p, depth - 1, format);
      depth := depth - 1;
    }

    /** The members, up to the indentation of the closing brace. */
    method PrintMembers(v: Json, ghost t: Text) returns (ok: bool)
      requires Holds(t) && CStrings(v) && v.Object?
      modifies this, buffer
      ensures ok ==>
        NumbersFit(libc, v) && depth == old(depth) && Holds(t + RenderMembers(libc, v.members, depth, format))
      ensures !ok ==>
        !NumbersFit(libc, v) || |t| + |RenderMembers(libc, v.members, old(depth), format)| + 2 > old(Cap())
      ensures Cap() == old(Cap()) && (buffer == old(buffer) || (fresh(buffer) && !noalloc))
      decreases v, 0, 0
    {
      hide RenderMembers, Render, Field, Front, CFront;
      var members := v.members;
      ghost var whole := t + RenderMembers(libc, members, depth, format);
      ghost var p := t;
      for i := 0 to |members|
        invariant Holds(p) && depth == old(depth)
        invariant p + RenderMembers(libc, members[i..], depth, format) == whole
        invariant forall j :: 0 <= j < i ==> NumbersFit(libc, members[j].value)
        invariant Cap() == old(Cap()) && (buffer == old(buffer) || (fresh(buffer) && !noalloc))
      {
        MemberStep(libc, p, members, i, depth, format);
        ghost var next := ((p + Indent(depth, format)) + Field(libc, members[i], depth, format))
          + FieldEnd(i + 1 < |members|, format);
        ok := PrintMember(members[i], i + 1 < |members|, p);
        if !ok {
          return;
        }
        p := next;
      }
      NoMembersLeft(libc, p, members, depth, format);
      ok := true;
    }

    /** One member: indentation, key, separator, value and what ends the line. */
    method PrintMember(m: Member, more: bool, ghost p: Text) returns (ok: bool)
      requires Holds(p) && 0 !in m.key && CStrings(m.value)
      modifies this, buffer
      ensures var length :=
          |Indent(old(depth), format)| + |Field(libc, m, old(depth), format)| + |FieldEnd(more, format)|;
        ok <==> NumbersFit(libc, m.value) && |p| + length + 2 <= old(Cap())
      ensures ok ==> Holds(((p + Indent(depth, format)) + Field(libc, m, depth, format)) + FieldEnd(more, format))
      ensures ok ==> depth == old(depth)
      ensures Cap() == old(Cap()) && (buffer == old(buffer) || (fresh(buffer) && !noalloc))
      decreases m, 2
    {
      hide Render, CStrings, NumbersFit, Splice, Front, CFront;
      ghost var start := p + Indent(depth, format);
      ghost var q := start + Field(libc, m, depth, format);
      ok := PrintIndent(p);
      if !ok {
        return;
      }
      ok := PrintKey(m.key, start);
      if !ok {
        return;
      }
      FieldText(libc, start, m, depth, format);
      ok := PrintValue(m.value, (start + Quoted(m.key)) + KeySeparator(format));
      if !ok {
        return;
      }
      UpdateOffset(q);
      ok := PrintFieldEnd(more, q);
    }

    /** The comma and the line end behind a member. */
    method PrintFieldEnd(more: bool, ghost q: Text) returns (ok: bool)
      requires Holds(q)
      modifies this, buffer
      ensures ok <==> |q| + |FieldEnd(more, format)| + 2 <= old(Cap())
      ensures ok ==> Holds(q + FieldEnd(more, format)) && depth == old(depth)
      ensures Cap() == old(Cap()) && (buffer == old(buffer) || (fresh(buffer) && !noalloc))
    {
      hide Splice, Front, CFront;
      var length := (if format then 1 else 0) + (if more then 1 else 0);
      ok := Ensure(length + 1, q);
      if !ok {
        return;
      }
      var end: Text := (if more then [COMMA] else []) + (if format then [NEWLINE] else []);
      assert end == FieldEnd(more, format);
      ExtendedC(buffer[..], q, end);
      Store(offset, end + [0]);
      offset := offset + length;
    }

    /** The tabs in front of a key. */
    method PrintIndent(ghost p: Text) returns (ok: bool)
      requires Holds(p)
      modifies this, buffer
      ensures !ok ==> |p| + |Indent(old(depth), format)| + 1 > old(Cap())
      ensures ok ==> Holds(p + Indent(depth, format)) && depth == old(depth)
      ensures Cap() == old(Cap()) && (buffer == old(buffer) || (fresh(buffer) && !noalloc))
    {
      hide Splice, Front, CFront;
      if format {
        ok := Ensure(depth, p);
        if !ok {
          return;
        }
        PutTabs(depth, p);
        offset := offset + depth;
      } else {
        assert p + [] == p;
        ok := true;
      }
    }

    /** The key and the separator behind it. */
    method PrintKey(key: Text, ghost p: Text) returns (ok: bool)
      requires Holds(p) && 0 !in key
      modifies this, buffer
      ensures !ok ==> |p| + |Quoted(key)| + |KeySeparator(format)| + 2 > old(Cap())
      ensures ok ==> Holds((p + Quoted(key)) + KeySeparator(format)) && depth == old(depth)
      ensures Cap() == old(Cap()) && (buffer == old(buffer) || (fresh(buffer) && !noalloc))
    {
      hide Quoted, Splice, Front, CFront;
      ghost var q := p + Quoted(key);
      ok := PrintString(key, p);
      if !ok {
        return;
      }
      UpdateOffset(q);
      var length := if format then 2 else 1;
      ok := Ensure(length, q);
      if !ok {
        return;
      }
      Extended(buffer[..], q, KeySeparator(format));
      Store(offset, if format then [COLON, TAB] else [COLON]);
      offset := offset + length;
    }
  }

  lemma EscapedEnds(s: Text)
    ensures Escaped(s[0..]) == Escaped(s) && Escaped(s[|s|..]) == []
  {
    assert s[0..] == s;
  }

  lemma EscapedStep(s: Text, i: nat)
    requires i < |s|
    ensures Escaped(s[i..]) == Written(PieceOf(s[i])) + Escaped(s[i + 1..])
  {
    assert s[i..][1..] == s[i + 1..];
  }

  lemma EscapedFront(s: Text, i: nat, front: Text, e: Text, w: Text)
    requires i < |s| && w == Written(PieceOf(s[i])) && e + Escaped(s[i..]) == Escaped(s)
    ensures front + (e + w) == (front + e) + w && (e + w) + Escaped(s[i + 1..]) == Escaped(s)
  {
    hide Escaped, Written, PieceOf;
    EscapedStep(s, i);
    Regroup(front, e, w);
    Regroup(e, w, Escaped(s[i + 1..]));
  }

  lemma PlainStep(s: Text, i: nat)
    requires i < |s| && s[i] > 31 && s[i] != QUOTE && s[i] != BACKSLASH
    ensures s[..i] + Escaped(s[i..]) == s[..i + 1] + Escaped(s[i + 1..])
  {
    EscapedStep(s, i);
    assert s[..i + 1] == s[..i] + [s[i]];
    Regroup(s[..i], [s[i]], Escaped(s[i + 1..]));
  }

  lemma TwoStores(t: Text, e: Text)
    ensures ((t + [QUOTE]) + e) + [QUOTE] == t + ([QUOTE] + e + [QUOTE])
  {
    Regroup(t, [QUOTE], e);
    Regroup(t, [QUOTE] + e, [QUOTE]);
  }

  lemma ArrayText(libc: Libc, items: seq<Json>, depth: nat, format: bool, t: Text)
    ensures t + Render(libc, Array(items), depth, format)
      == ((t + [OPEN_ARRAY]) + RenderItems(libc, items, depth + 1, format)) + [CLOSE_ARRAY]
  {
    var body := RenderItems(libc, items, depth + 1, format);
    Regroup(t, [OPEN_ARRAY], body + [CLOSE_ARRAY]);
    Regroup(t + [OPEN_ARRAY], body, [CLOSE_ARRAY]);
  }

  lemma NoItemsLeft(libc: Libc, p: Text, items: seq<Json>, depth: nat, format: bool)
    ensures p + RenderItems(libc, items[|items|..], depth, format) == p
  {
  }

  /** The first of the remaining items, what stands behind it, and the others. */
  lemma ItemStep(libc: Libc, p: Text, items: seq<Json>, i: nat, depth: nat, format: bool)
    requires i < |items|
    ensures p + RenderItems(libc, items[i..], depth, format)
      == ((p + Render(libc, items[i], depth, format)) + ItemEnd(i + 1 < |items|, format))
         + RenderItems(libc, items[i + 1..], depth, format)
  {
    var first, gap := Render(libc, items[i], depth, format), ItemEnd(i + 1 < |items|, format);
    var back := RenderItems(libc, items[i + 1..], depth, format);
    assert items[i..][1..] == items[i + 1..];
    Regroup(p, first, gap + back);
    Regroup(p + first, gap, back);
  }

  lemma ObjectText(libc: Libc, members: seq<Member>, depth: nat, format: bool, t: Text)
    ensures t + Render(libc, Object(members), depth, format)
      == ((((t + ([OPEN_OBJECT] + LineEnd(format))) + RenderMembers(libc, members, depth + 1, format))
          + Indent(depth, format)) + [CLOSE_OBJECT])
  {
    var line, body, indent := LineEnd(format), RenderMembers(libc, members, depth + 1, format), Indent(depth, format);
    Regroup([OPEN_OBJECT], line, body + (indent + [CLOSE_OBJECT]));
    Regroup(t, [OPEN_OBJECT] + line, body + (indent + [CLOSE_OBJECT]));
    Regroup(t + ([OPEN_OBJECT] + line), body, indent + [CLOSE_OBJECT]);
    Regroup((t + ([OPEN_OBJECT] + line)) + body, indent, [CLOSE_OBJECT]);
  }

  lemma NoMembersLeft(libc: Libc, p: Text, members: seq<Member>, depth: nat, format: bool)
    ensures p + RenderMembers(libc, members[|members|..], depth, format) == p
  {
  }

  lemma MemberStep(libc: Libc, p: Text, members: seq<Member>, i: nat, depth: nat, format: bool)
    requires i < |members|
    ensures p + RenderMembers(libc, members[i..], depth, format)
      == (((p + Indent(depth, format)) + Field(libc, members[i], depth, format)) + FieldEnd(i + 1 < |members|, format))
         + RenderMembers(libc, members[i + 1..], depth, format)
  {
    var inner, first := Indent(depth, format), Field(libc, members[i], depth, format);
    var gap := FieldEnd(i + 1 < |members|, format);
    var back := RenderMembers(libc, members[i + 1..], depth, format);
    assert members[i..][1..] == members[i + 1..];
    Regroup(p, inner, first + (gap + back));
    Regroup(p + inner, first, gap + back);
    Regroup((p + inner) + first, gap, back);
  }

  lemma FieldText(libc: Libc, p: Text, m: Member, depth: nat, format: bool)
    ensures p + Field(libc, m, depth, format)
      == ((p + Quoted(m.key)) + KeySeparator(format)) + Render(libc, m.value, depth, format)
  {
    var value := Render(libc, m.value, depth, format);
    Regroup(p, Quoted(m.key), KeySeparator(format) + value);
    Regroup(p + Quoted(m.key), KeySeparator(format), value);
  }

  lemma TabsNulFree(p: Text, n: nat, format: bool)
    ensures 0 !in ((p + Indent(n, format)) + [CLOSE_OBJECT])[|p|..]
  {
    assert ((p + Indent(n, format)) + [CLOSE_OBJECT])[|p|..] == Indent(n, format) + [CLOSE_OBJECT];
  }

  // ----- Entry points

  function Min(a: nat, b: nat): nat { if a < b then a else b }

  /** Prints a value into a new buffer that starts small, and trims it to the text and its NUL. */
  method Print(libc: Libc, v: Json, format: bool, inPlace: bool) returns (r: Option<array<byte>>)
    requires CStrings(v)
    ensures r.Some? <==> NumbersFit(libc, v) && |Render(libc, v, 0, format)| + 2 <= INT_MAX
    ensures r.Some? ==>
      fresh(r.value) && r.value[..] == Render(libc, v, 0, format) + [0] && 0 !in Render(libc, v, 0, format)
    ensures Sound(libc) ==> (r.Some? <==> |Render(libc, v, 0, format)| + 2 <= INT_MAX)
  {
    hide Render, NumbersFit, CStrings;
    var start := new byte[256];
    var p := new PrintBuffer(start, false, format, inPlace, libc);
    var ok := p.PrintValue(v, []);
    assert [] + Render(libc, v, 0, format) == Render(libc, v, 0, format);
    if Sound(libc) {
      SoundNumbersFit(libc, v);
    }
    if !ok {
      return None;
    }
    RenderNulFree(libc, v, 0, format);
    p.UpdateOffset(Render(libc, v, 0, format));
    var printed := Trim(p, Render(libc, v, 0, format));
    r := Some(printed);
  }

  /** The text and its NUL, resized in place or copied to a buffer of the right size. */
  method Trim(p: PrintBuffer, ghost t: Text) returns (printed: array<byte>)
    requires p.offset == |t| && CFront(p.buffer[..], t)
    ensures fresh(printed) && printed[..] == t + [0]
  {
    assert p.buffer[..p.offset + 1] == t + [0];
    printed := new byte[p.offset + 1];
    if p.inPlace {
      Overwrite(printed, 0, p.buffer[..p.offset + 1]);
    } else {
      Overwrite(printed, 0, p.buffer[..Min(p.buffer.Length, p.offset + 1)]);
      printed[p.offset] := 0;
    }
  }

  /** Prints into the caller's buffer: that works exactly if the buffer has a byte to spare behind
      the text and its NUL. */
  method PrintPreallocated(libc: Libc, v: Json, buf: array<byte>, format: bool, inPlace: bool) returns (ok: bool)
    requires CStrings(v) && buf.Length <= INT_MAX
    modifies buf
    ensures ok <==> NumbersFit(libc, v) && |Render(libc, v, 0, format)| + 2 <= buf.Length
    ensures ok ==> buf[..|Render(libc, v, 0, format)| + 1] == Render(libc, v, 0, format) + [0]
  {
    var p := new PrintBuffer(buf, true, format, inPlace, libc);
    ok := p.PrintValue(v, []);
    assert [] + Render(libc, v, 0, format) == Render(libc, v, 0, format);
  }
}
