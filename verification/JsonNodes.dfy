/** Trees of nodes that stand for JSON values, and the walks of src/extern/cJSON.c that compare and
    copy them. */
module JsonNodes {
  import opened Bytes
  import opened JsonNumbers
  import opened JsonText
  import opened JsonLists
  import opened JsonCompare

  /** The nodes of a tree, as they hang together. */
  datatype Shape = Shape(node: Item, kids: seq<Shape>)

  ghost function Roots(shapes: seq<Shape>): (r: seq<Item>)
    ensures |r| == |shapes| && forall i :: 0 <= i < |r| ==> r[i] == shapes[i].node
  {
    seq(|shapes|, i requires 0 <= i < |shapes| => shapes[i].node)
  }

  function Children(v: Json): (r: seq<Json>)
    ensures v.Array? ==> r == v.items
    ensures v.Object? ==> |r| == |v.members| && forall i :: 0 <= i < |r| ==> r[i] == v.members[i].value
    ensures !v.Array? && !v.Object? ==> r == []
    ensures forall i :: 0 <= i < |r| ==> r[i] < v
  {
    match v
    case Array(items) => items
    case Object(members) => seq(|members|, i requires 0 <= i < |members| => members[i].value)
    case _ => []
  }

  /** A node without its children holds what the value is without them. */
  ghost predicate Holds(node: Item, v: Json)
    reads node`kind, node`valuedouble, node`valuestring
  {
    match v
    case Null => node.kind == NullKind
    case False => node.kind == FalseKind
    case True => node.kind == TrueKind
    case Number(d) => node.kind == NumberKind && node.valuedouble == d
    case String(s) => node.kind == StringKind && node.valuestring == s
    case Array(_) => node.kind == ArrayKind
    case Object(_) => node.kind == ObjectKind
  }

  /** The children of an object carry the keys, which are C strings. */
  ghost predicate Keyed(kids: seq<Item>, members: seq<Member>)
    reads kids`key
  {
    |kids| == |members|
    && forall i :: 0 <= i < |kids| ==> kids[i].key == Some(members[i].key) && 0 !in members[i].key
  }

  /** The tree stands for the value; all nodes below its root are among `inner`. */
  ghost predicate Represents(s: Shape, v: Json, inner: set<Item>)
    reads s.node`kind, s.node`valuedouble, s.node`valuestring, s.node`child, inner
    decreases v
  {
    && Holds(s.node, v)
    && (forall i :: 0 <= i < |s.kids| ==> s.kids[i].node in inner)
    && Linked(s.node, Roots(s.kids))
    && |s.kids| == |Children(v)|
    && (forall i :: 0 <= i < |s.kids| ==> Represents(s.kids[i], Children(v)[i], inner))
    && (v.Object? ==> Keyed(Roots(s.kids), v.members))
  }

  lemma Parts(s: Shape, v: Json, inner: set<Item>)
    requires Represents(s, v, inner)
    ensures Holds(s.node, v) && Linked(s.node, Roots(s.kids)) && |s.kids| == |Children(v)|
    ensures v.Object? ==> Keyed(Roots(s.kids), v.members)
  {
  }

  lemma Child(s: Shape, v: Json, inner: set<Item>, i: nat)
    requires Represents(s, v, inner) && i < |s.kids|
    ensures i < |Children(v)| && Represents(s.kids[i], Children(v)[i], inner) && s.kids[i].node in inner
  {
  }

  // ----- Lookup

  function CharAt(s: Text, i: nat): byte {
    if i < |s| then s[i] else 0
  }

  /** Zero exactly for strings that differ in the case of ASCII letters only. */
  method CaseInsensitiveStrcmp(a: Text, b: Text) returns (r: int)
    requires 0 !in a && 0 !in b
    ensures r == 0 <==> Lower(a) == Lower(b)
  {
    var i := 0;
    while LowerByte(CharAt(a, i)) == LowerByte(CharAt(b, i))
      invariant 0 <= i <= |a| && i <= |b|
      invariant forall j :: 0 <= j < i ==> LowerByte(a[j]) == LowerByte(b[j])
      decreases |a| - i
    {
      if CharAt(a, i) == 0 {
        assert i == |a| && i == |b|;
        return 0;
      }
      assert i < |a| && i < |b|;
      i := i + 1;
    }
    r := LowerByte(CharAt(a, i)) as int - LowerByte(CharAt(b, i)) as int;
    CaseDiffers(a, b, i);
  }

  lemma CaseDiffers(a: Text, b: Text, i: nat)
    requires i <= |a| && i <= |b| && LowerByte(CharAt(a, i)) != LowerByte(CharAt(b, i))
    ensures Lower(a) != Lower(b)
  {
    if i < |a| && i < |b| {
      assert Lower(a)[i] != Lower(b)[i];
    }
  }

  /** A step along the list. */
  lemma NextAt(parent: Item, kids: seq<Item>, i: nat)
    requires Linked(parent, kids)
    ensures parent.child == At(kids, 0)
    ensures var r := At(kids, i);
      if r == null then i >= |kids| else i < |kids| && r == kids[i] && r.next == At(kids, i + 1)
  {
  }

  /** The first child with a key, null if there is none. */
  method GetObjectItem(parent: Item, name: Text, caseSensitive: bool, ghost kids: seq<Item>, ghost members: seq<Member>)
    returns (r: Item?)
    requires Linked(parent, kids) && Keyed(kids, members) && 0 !in name
    ensures r == At(kids, Find(members, name, caseSensitive))
  {
    hide At, Linked, Find, Lower;
    ghost var i: nat := 0;
    ghost var k := Find(members, name, caseSensitive);
    r := parent.child;
    NextAt(parent, kids, 0);
    NextAt(parent, kids, k);
    if caseSensitive {
      while r != null && r.key != None && name != r.key.value
        invariant 0 <= i <= k && r == At(kids, i)
        decreases |kids| - i
      {
        NextAt(parent, kids, i);
        r := r.next;
        i := i + 1;
      }
    } else {
      while r != null
        invariant 0 <= i <= k && r == At(kids, i)
        decreases |kids| - i
      {
        NextAt(parent, kids, i);
        var differs := 1;
        if r.key.Some? {
          differs := CaseInsensitiveStrcmp(name, r.key.value);
        }
        if differs == 0 {
          break;
        }
        r := r.next;
        i := i + 1;
      }
    }
    NextAt(parent, kids, i);
    if r == null || r.key == None {
      return null;
    }
  }

  // ----- Comparison

  /** The shape has the children of the value. */
  ghost predicate Fits(s: Shape, v: Json)
    decreases v
  {
    |s.kids| == |Children(v)| && forall i :: 0 <= i < |s.kids| ==> Fits(s.kids[i], Children(v)[i])
  }

  lemma {:induction false} RepresentsFits(s: Shape, v: Json, inner: set<Item>)
    requires Represents(s, v, inner)
    ensures Fits(s, v)
    decreases v
  {
    forall i | 0 <= i < |s.kids|
      ensures Fits(s.kids[i], Children(v)[i])
    {
      RepresentsFits(s.kids[i], Children(v)[i], inner);
    }
  }

  /** The outcome of the comparison of two trees of nodes: a node equals itself, whatever it holds. */
  ghost predicate Equated(sa: Shape, va: Json, sb: Shape, vb: Json, caseSensitive: bool)
    requires Fits(sa, va) && Fits(sb, vb)
    decreases Size(va) + Size(vb), 1
  {
    sa.node == sb.node ||
    match va
    case Array(items) =>
      vb.Array? && |items| == |vb.items| && ElementsEquated(sa, va, sb, vb, caseSensitive)
    case Object(members) =>
      vb.Object? && EachEquated(sa, va, sb, vb, caseSensitive) && EachEquated(sb, vb, sa, va, caseSensitive)
    case _ => Same(va, vb, caseSensitive)
  }

  ghost predicate ElementsEquated(sa: Shape, va: Json, sb: Shape, vb: Json, caseSensitive: bool)
    requires Fits(sa, va) && Fits(sb, vb) && va.Array? && vb.Array? && |va.items| == |vb.items|
    decreases Size(va) + Size(vb), 0
  {
    forall i :: 0 <= i < |va.items| ==> ElementEquated(sa, va, sb, vb, i, caseSensitive)
  }

  ghost predicate ElementEquated(sa: Shape, va: Json, sb: Shape, vb: Json, i: nat, caseSensitive: bool)
    requires Fits(sa, va) && Fits(sb, vb) && va.Array? && vb.Array? && i < |va.items| && i < |vb.items|
    decreases Size(va) + Size(vb), 0, 0
  {
    ItemSize(va.items, i);
    ItemSize(vb.items, i);
    Equated(sa.kids[i], va.items[i], sb.kids[i], vb.items[i], caseSensitive)
  }

  ghost predicate EachEquated(sa: Shape, va: Json, sb: Shape, vb: Json, caseSensitive: bool)
    requires Fits(sa, va) && Fits(sb, vb) && va.Object? && vb.Object?
    decreases Size(va) + Size(vb), 0
  {
    forall i :: 0 <= i < |va.members| ==> MemberEquated(sa, va, i, sb, vb, caseSensitive)
  }

  ghost predicate MemberEquated(sa: Shape, va: Json, i: nat, sb: Shape, vb: Json, caseSensitive: bool)
    requires Fits(sa, va) && Fits(sb, vb) && va.Object? && vb.Object? && i < |va.members|
    decreases Size(va) + Size(vb), 0, 0
  {
    var k := Find(vb.members, va.members[i].key, caseSensitive);
    k < |vb.members| &&
    (MemberSize(va.members, i); MemberSize(vb.members, k);
     Equated(sa.kids[i], va.members[i].value, sb.kids[k], vb.members[k].value, caseSensitive))
  }

  /** What the kinds and values of two different nodes say about the comparison. */
  lemma KindsDecide(sa: Shape, va: Json, sb: Shape, vb: Json, caseSensitive: bool)
    requires Fits(sa, va) && Fits(sb, vb) && Holds(sa.node, va) && Holds(sb.node, vb)
    ensures sa.node == sb.node ==> sa.node.kind == sb.node.kind && Equated(sa, va, sb, vb, caseSensitive)
    ensures sa.node != sb.node ==>
      var a, b, r := sa.node, sb.node, Equated(sa, va, sb, vb, caseSensitive);
      && (a.kind != b.kind ==> !r)
      && (a.kind == b.kind ==>
            match a.kind
            case NumberKind => r == Equal(a.valuedouble, b.valuedouble)
            case StringKind => r == (a.valuestring == b.valuestring)
            case ArrayKind => va.Array? && vb.Array?
              && r == (|va.items| == |vb.items| && ElementsEquated(sa, va, sb, vb, caseSensitive))
            case ObjectKind => va.Object? && vb.Object?
              && r == (EachEquated(sa, va, sb, vb, caseSensitive) && EachEquated(sb, vb, sa, va, caseSensitive))
            case _ => r)
  {
    hide ElementsEquated, EachEquated;
  }

  /** Two nodes compare equal if they are one node, or if their kinds, values and children do; nodes
      may be shared between the two trees. */
  method Compare(a: Item?, b: Item?, caseSensitive: bool,
                 ghost sa: Shape, ghost va: Json, ghost na: set<Item>,
                 ghost sb: Shape, ghost vb: Json, ghost nb: set<Item>) returns (r: bool)
    requires a != null ==> a == sa.node && Represents(sa, va, na) && Fits(sa, va)
    requires b != null ==> b == sb.node && Represents(sb, vb, nb) && Fits(sb, vb)
    ensures r == (a != null && b != null && Equated(sa, va, sb, vb, caseSensitive))
    decreases Size(va) + Size(vb), 2
  {
    hide Represents, Equated, ElementsEquated, EachEquated, Holds, Fits;
    if a == null || b == null {
      return false;
    }
    Parts(sa, va, na);
    Parts(sb, vb, nb);
    KindsDecide(sa, va, sb, vb, caseSensitive);
    if a.kind != b.kind {
      return false;
    }
    if a == b {
      return true;
    }
    match a.kind
    case FalseKind => r := true;
    case TrueKind => r := true;
    case NullKind => r := true;
    case NumberKind => r := Equal(a.valuedouble, b.valuedouble);
    case StringKind => r := a.valuestring == b.valuestring;
    case ArrayKind => r := CompareElements(a, b, caseSensitive, sa, va, na, sb, vb, nb);
    case ObjectKind =>
      r := CompareMembers(a, b, caseSensitive, sa, va, na, sb, vb, nb);
      if r {
        r := CompareMembers(b, a, caseSensitive, sb, vb, nb, sa, va, na);
      }
  }

  /** Element by element; then neither array may have more. */
  method CompareElements(a: Item, b: Item, caseSensitive: bool,
                         ghost sa: Shape, ghost va: Json, ghost na: set<Item>,
                         ghost sb: Shape, ghost vb: Json, ghost nb: set<Item>) returns (r: bool)
    requires a == sa.node && b == sb.node && va.Array? && vb.Array?
    requires Represents(sa, va, na) && Fits(sa, va) && Represents(sb, vb, nb) && Fits(sb, vb)
    ensures r == (|va.items| == |vb.items| && ElementsEquated(sa, va, sb, vb, caseSensitive))
    decreases Size(va) + Size(vb), 1
  {
    hide At, Linked, Represents, Holds, ElementEquated, Fits;
    Parts(sa, va, na);
    Parts(sb, vb, nb);
    ghost var i: nat := 0;
    ghost var ka, kb := Roots(sa.kids), Roots(sb.kids);
    NextAt(a, ka, 0);
    NextAt(b, kb, 0);
    var x, y := a.child, b.child;
    while x != null && y != null
      invariant Represents(sa, va, na) && Represents(sb, vb, nb)
      invariant i <= |ka| && i <= |kb| && x == At(ka, i) && y == At(kb, i)
      invariant forall j :: 0 <= j < i ==> ElementEquated(sa, va, sb, vb, j, caseSensitive)
      decreases |ka| - i
    {
      NextAt(a, ka, i);
      NextAt(b, kb, i);
      var same := CompareElement(x, y, caseSensitive, sa, va, na, sb, vb, nb, i);
      if !same {
        return false;
      }
      Parts(sa, va, na);
      Parts(sb, vb, nb);
      NextAt(a, ka, i);
      NextAt(b, kb, i);
      x, y := x.next, y.next;
      i := i + 1;
    }
    Parts(sa, va, na);
    Parts(sb, vb, nb);
    NextAt(a, ka, i);
    NextAt(b, kb, i);
    r := x == y;
  }

  method CompareElement(x: Item, y: Item, caseSensitive: bool,
                        ghost sa: Shape, ghost va: Json, ghost na: set<Item>,
                        ghost sb: Shape, ghost vb: Json, ghost nb: set<Item>, ghost i: nat) returns (r: bool)
    requires va.Array? && vb.Array? && i < |sa.kids| && i < |sb.kids| && x == sa.kids[i].node && y == sb.kids[i].node
    requires Represents(sa, va, na) && Fits(sa, va) && Represents(sb, vb, nb) && Fits(sb, vb)
    ensures i < |va.items| && i < |vb.items| && r == ElementEquated(sa, va, sb, vb, i, caseSensitive)
    decreases Size(va) + Size(vb), 0
  {
    hide Represents, Equated;
    Child(sa, va, na, i);
    Child(sb, vb, nb, i);
    ItemSize(va.items, i);
    ItemSize(vb.items, i);
    r := Compare(x, y, caseSensitive, sa.kids[i], va.items[i], na, sb.kids[i], vb.items[i], nb);
  }

  /** Every member of the first object against the one found under its key in the second. */
  method CompareMembers(a: Item, b: Item, caseSensitive: bool,
                        ghost sa: Shape, ghost va: Json, ghost na: set<Item>,
                        ghost sb: Shape, ghost vb: Json, ghost nb: set<Item>) returns (r: bool)
    requires a == sa.node && b == sb.node && va.Object? && vb.Object?
    requires Represents(sa, va, na) && Fits(sa, va) && Represents(sb, vb, nb) && Fits(sb, vb)
    ensures r == EachEquated(sa, va, sb, vb, caseSensitive)
    decreases Size(va) + Size(vb), 1
  {
    hide At, Linked, Represents, Holds, MemberEquated, Fits, Keyed;
    Parts(sa, va, na);
    ghost var i: nat := 0;
    ghost var ka := Roots(sa.kids);
    NextAt(a, ka, 0);
    var x := a.child;
    while x != null
      invariant Represents(sa, va, na) && Represents(sb, vb, nb)
      invariant i <= |ka| && x == At(ka, i)
      invariant forall j :: 0 <= j < i ==> MemberEquated(sa, va, j, sb, vb, caseSensitive)
      decreases |ka| - i
    {
      NextAt(a, ka, i);
      Parts(sa, va, na);
      var same := CompareMember(x, b, caseSensitive, sa, va, na, i, sb, vb, nb);
      if !same {
        return false;
      }
      x := x.next;
      i := i + 1;
    }
    NextAt(a, ka, i);
    r := true;
  }

  lemma KeyedAt(kids: seq<Item>, members: seq<Member>, i: nat)
    requires Keyed(kids, members) && i < |kids|
    ensures i < |members| && kids[i].key == Some(members[i].key) && 0 !in members[i].key
  {
  }

  method CompareMember(x: Item, b: Item, caseSensitive: bool,
                       ghost sa: Shape, ghost va: Json, ghost na: set<Item>, ghost i: nat,
                       ghost sb: Shape, ghost vb: Json, ghost nb: set<Item>) returns (r: bool)
    requires b == sb.node && va.Object? && vb.Object? && i < |sa.kids| && x == sa.kids[i].node
    requires Represents(sa, va, na) && Fits(sa, va) && Represents(sb, vb, nb) && Fits(sb, vb)
    ensures i < |va.members| && r == MemberEquated(sa, va, i, sb, vb, caseSensitive)
    decreases Size(va) + Size(vb), 0
  {
    hide At, Linked, Represents, Holds, Find, Keyed, Equated;
    Parts(sa, va, na);
    Parts(sb, vb, nb);
    KeyedAt(Roots(sa.kids), va.members, i);
    ghost var kb := Roots(sb.kids);
    ghost var k := Find(vb.members, va.members[i].key, caseSensitive);
    NextAt(b, kb, k);
    var y := GetObjectItem(b, x.key.value, caseSensitive, kb, vb.members);
    if y == null {
      return false;
    }
    Child(sa, va, na, i);
    Child(sb, vb, nb, k);
    MemberSize(va.members, i);
    MemberSize(vb.members, k);
    r := Compare(x, y, caseSensitive, sa.kids[i], va.members[i].value, na, sb.kids[k], vb.members[k].value, nb);
  }

  // ----- The comparison of nodes and that of values

  /** A node stands for one value. */
  lemma {:induction false} SameNodeSameValue(s: Shape, v: Json, inner: set<Item>,
                                             s': Shape, v': Json, inner': set<Item>)
    requires Represents(s, v, inner) && Represents(s', v', inner') && s.node == s'.node
    ensures v == v'
    decreases v
  {
    ChildrenUnique(s.node, Roots(s.kids), Roots(s'.kids));
    var c, c' := Children(v), Children(v');
    assert |c| == |c'|;
    forall i | 0 <= i < |c|
      ensures c[i] == c'[i]
    {
      assert Roots(s.kids)[i] == s.kids[i].node && Roots(s'.kids)[i] == s'.kids[i].node;
      SameNodeSameValue(s.kids[i], c[i], inner, s'.kids[i], c'[i], inner');
    }
    if v.Object? {
      forall i | 0 <= i < |c|
        ensures v.members[i] == v'.members[i]
      {
        assert Roots(s.kids)[i].key == Some(v.members[i].key) && Roots(s'.kids)[i].key == Some(v'.members[i].key);
        assert c[i] == v.members[i].value && c'[i] == v'.members[i].value;
      }
    }
  }

  /** Two trees agree on every shared node only if it compares equal to itself: either they share
      none, or the values are consistent. */
  ghost predicate Reliable(sa: Shape, va: Json, na: set<Item>, sb: Shape, nb: set<Item>, caseSensitive: bool) {
    {sa.node} + na !! {sb.node} + nb || Consistent(va, caseSensitive)
  }

  lemma ReliableBelow(sa: Shape, va: Json, na: set<Item>, i: nat, sb: Shape, nb: set<Item>, below: Shape,
                      caseSensitive: bool)
    requires Represents(sa, va, na) && i < |sa.kids| && i < |Children(va)| && below.node in nb
    requires Reliable(sa, va, na, sb, nb, caseSensitive)
    ensures Reliable(sa.kids[i], Children(va)[i], na, below, nb, caseSensitive)
  {
    hide CanonOf;
  }

  /** For trees that share no node, and for consistent values whatever nodes they share, nodes
      compare as their values do. */
  lemma {:induction false} EquatedIsSame(sa: Shape, va: Json, na: set<Item>, sb: Shape, vb: Json, nb: set<Item>,
                                         caseSensitive: bool)
    requires Represents(sa, va, na) && Represents(sb, vb, nb) && Fits(sa, va) && Fits(sb, vb)
    requires Reliable(sa, va, na, sb, nb, caseSensitive) && Reliable(sb, vb, nb, sa, na, caseSensitive)
    ensures Equated(sa, va, sb, vb, caseSensitive) == Same(va, vb, caseSensitive)
    decreases Size(va) + Size(vb), 1
  {
    hide Consistent, CanonOf;
    if sa.node == sb.node {
      SameNodeSameValue(sa, va, na, sb, vb, nb);
      CompareReflexive(va, caseSensitive);
    } else if va.Array? && vb.Array? {
      if |va.items| == |vb.items| {
        ElementsSame(sa, va, na, sb, vb, nb, caseSensitive);
      }
    } else if va.Object? && vb.Object? {
      EachSame(sa, va, na, sb, vb, nb, caseSensitive);
      EachSame(sb, vb, nb, sa, va, na, caseSensitive);
    }
  }

  lemma {:induction false} ElementsSame(sa: Shape, va: Json, na: set<Item>, sb: Shape, vb: Json, nb: set<Item>,
                                        caseSensitive: bool)
    requires Represents(sa, va, na) && Represents(sb, vb, nb) && Fits(sa, va) && Fits(sb, vb)
    requires Reliable(sa, va, na, sb, nb, caseSensitive) && Reliable(sb, vb, nb, sa, na, caseSensitive)
    requires va.Array? && vb.Array? && |va.items| == |vb.items|
    ensures ElementsEquated(sa, va, sb, vb, caseSensitive) == Same(va, vb, caseSensitive)
    decreases Size(va) + Size(vb), 0
  {
    hide Represents, Reliable, Consistent, CanonOf;
    forall i | 0 <= i < |va.items|
      ensures ElementEquated(sa, va, sb, vb, i, caseSensitive) == Same(va.items[i], vb.items[i], caseSensitive)
    {
      Child(sa, va, na, i);
      Child(sb, vb, nb, i);
      ItemSize(va.items, i);
      ItemSize(vb.items, i);
      ReliableBelow(sa, va, na, i, sb, nb, sb.kids[i], caseSensitive);
      ReliableBelow(sb, vb, nb, i, sa, na, sa.kids[i], caseSensitive);
      EquatedIsSame(sa.kids[i], va.items[i], na, sb.kids[i], vb.items[i], nb, caseSensitive);
    }
  }

  lemma {:induction false} EachSame(sa: Shape, va: Json, na: set<Item>, sb: Shape, vb: Json, nb: set<Item>,
                                    caseSensitive: bool)
    requires Represents(sa, va, na) && Represents(sb, vb, nb) && Fits(sa, va) && Fits(sb, vb)
    requires Reliable(sa, va, na, sb, nb, caseSensitive) && Reliable(sb, vb, nb, sa, na, caseSensitive)
    requires va.Object? && vb.Object?
    ensures EachEquated(sa, va, sb, vb, caseSensitive) == Covered(va.members, vb.members, caseSensitive)
    decreases Size(va) + Size(vb), 0
  {
    hide Represents, Reliable, Consistent, CanonOf;
    forall i | 0 <= i < |va.members|
      ensures MemberEquated(sa, va, i, sb, vb, caseSensitive)
        == var k := Find(vb.members, va.members[i].key, caseSensitive);
           k < |vb.members| && Same(va.members[i].value, vb.members[k].value, caseSensitive)
    {
      var k := Find(vb.members, va.members[i].key, caseSensitive);
      if k < |vb.members| {
        Child(sa, va, na, i);
        Child(sb, vb, nb, k);
        MemberSize(va.members, i);
        MemberSize(vb.members, k);
        ReliableBelow(sa, va, na, i, sb, nb, sb.kids[k], caseSensitive);
        ReliableBelow(sb, vb, nb, k, sa, na, sa.kids[i], caseSensitive);
        EquatedIsSame(sa.kids[i], va.members[i].value, na, sb.kids[k], vb.members[k].value, nb, caseSensitive);
      }
    }
  }

  // ----- Copies

  /** The value without the children. */
  function Shallow(v: Json): Json {
    match v
    case Array(_) => Array([])
    case Object(_) => Object([])
    case _ => v
  }

  lemma {:induction false} Wider(s: Shape, v: Json, inner: set<Item>, more: set<Item>)
    requires Represents(s, v, inner) && inner <= more
    ensures Represents(s, v, more)
    decreases v
  {
    forall i | 0 <= i < |s.kids|
      ensures Represents(s.kids[i], Children(v)[i], more)
    {
      Wider(s.kids[i], Children(v)[i], inner, more);
    }
  }

  /** A copy of a child: it stands for the same value and has the same key. */
  ghost predicate IsCopy(s: Shape, original: Shape, v: Json, inner: set<Item>)
    reads s.node`kind, s.node`valuedouble, s.node`valuestring, s.node`child, s.node`key, original.node`key, inner
  {
    s.node !in inner && Represents(s, v, inner) && s.node.key == original.node.key
  }

  /** `kids` are copies of the first of `originals`. */
  ghost predicate Copies(kids: seq<Shape>, originals: seq<Shape>, vs: seq<Json>, inner: set<Item>)
    requires |kids| <= |originals| == |vs|
    reads Roots(kids)`kind, Roots(kids)`valuedouble, Roots(kids)`valuestring, Roots(kids)`child, Roots(kids)`key
    reads Roots(originals)`key, inner
  {
    forall j :: 0 <= j < |kids| ==>
      && Roots(kids)[j] == kids[j].node && Roots(originals)[j] == originals[j].node
      && IsCopy(kids[j], originals[j], vs[j], inner)
  }

  lemma NoCopyYet(copy: Item, originals: seq<Shape>, vs: seq<Json>)
    requires copy.child == null && |originals| == |vs|
    ensures Roots([]) == [] && Linked(copy, []) && At([], -1) == null && Copies([], originals, vs, {})
  {
  }

  lemma OneMoreCopy(kids: seq<Shape>, originals: seq<Shape>, vs: seq<Json>, inner: set<Item>, s: Shape, more: set<Item>)
    requires |kids| < |originals| == |vs| && Copies(kids, originals, vs, inner)
    requires IsCopy(s, originals[|kids|], vs[|kids|], more)
    requires s.node !in inner && forall j :: 0 <= j < |kids| ==> kids[j].node !in more
    ensures Copies(kids + [s], originals, vs, inner + more)
    ensures Roots(kids + [s]) == Roots(kids) + [s.node] && At(Roots(kids + [s]), |kids|) == s.node
  {
    hide Represents;
    var all := kids + [s];
    forall j | 0 <= j < |all|
      ensures IsCopy(all[j], originals[j], vs[j], inner + more)
    {
      if j < |kids| {
        Wider(kids[j], vs[j], inner, inner + more);
      } else {
        Wider(s, vs[j], more, inner + more);
      }
    }
  }

  ghost function AllOf(kids: seq<Item>): set<Item> {
    set x | x in kids
  }

  /** The copied children make the copy stand for the whole value. */
  lemma WholeCopy(copy: Item, kids: seq<Shape>, s: Shape, v: Json, inner: set<Item>, inner': set<Item>)
    requires Represents(s, v, inner) && Holds(copy, v) && Linked(copy, Roots(kids))
    requires |kids| == |s.kids| == |Children(v)| && Copies(kids, s.kids, Children(v), inner')
    ensures Represents(Shape(copy, kids), v, inner' + AllOf(Roots(kids)))
  {
    var all := inner' + AllOf(Roots(kids));
    forall j | 0 <= j < |kids|
      ensures Represents(kids[j], Children(v)[j], all) && kids[j].node in all
    {
      Wider(kids[j], Children(v)[j], inner', all);
      assert Roots(kids)[j] == kids[j].node;
    }
    if v.Object? {
      forall j | 0 <= j < |kids|
        ensures Roots(kids)[j].key == Some(v.members[j].key)
      {
        assert Roots(s.kids)[j].key == Some(v.members[j].key);
      }
    }
  }

  lemma ShallowCopy(copy: Item, v: Json)
    requires Holds(copy, v) && copy.child == null
    ensures Represents(Shape(copy, []), Shallow(v), {})
  {
  }

  /** Puts a new node behind the last of a list. */
  method Attach(parent: Item, last: Item?, item: Item, ghost kids: seq<Item>)
    requires Linked(parent, kids) && last == At(kids, |kids| - 1)
    requires Detached(item) && item !in kids && item != parent
    modifies parent`child, Only(last)`next, item`prev
    ensures Linked(parent, kids + [item])
  {
    if last != null {
      last.next := item;
      item.prev := last;
    } else {
      parent.child := item;
    }
  }

  /** A copy of fresh nodes, with the children or without; the original keeps every field. */
  method Duplicate(item: Item?, recurse: bool, ghost s: Shape, ghost v: Json, ghost inner: set<Item>)
    returns (r: Item?, ghost s': Shape, ghost inner': set<Item>)
    requires item != null ==> item == s.node && Represents(s, v, inner)
    ensures r == null <==> item == null
    ensures r != null ==> r == s'.node && fresh({r} + inner') && r !in inner' && Detached(r) && r.key == item.key
    ensures r != null ==> Represents(s', if recurse then v else Shallow(v), inner')
    decreases v
  {
    hide Represents, Copies, Linked;
    if item == null {
      return null, s, {};
    }
    var copy := new Item(item.kind);
    copy.valuedouble := item.valuedouble;
    copy.valuestring := item.valuestring;
    copy.key := item.key;
    r := copy;
    Parts(s, v, inner);
    assert Holds(copy, v);
    if !recurse {
      ShallowCopy(copy, v);
      s', inner' := Shape(copy, []), {};
      return;
    }
    ghost var kids, nodes;
    kids, nodes := CopyChildren(item, copy, s, v, inner);
    WholeCopy(copy, kids, s, v, inner, nodes);
    s', inner' := Shape(copy, kids), nodes + AllOf(Roots(kids));
  }

  method CopyChildren(item: Item, copy: Item, ghost s: Shape, ghost v: Json, ghost inner: set<Item>)
    returns (ghost kids: seq<Shape>, ghost inner': set<Item>)
    requires item == s.node && Represents(s, v, inner) && copy.child == null && copy !in {item} + inner
    modifies copy`child
    ensures fresh(inner') && (forall j :: 0 <= j < |kids| ==> fresh(kids[j].node)) && copy !in inner'
    ensures Linked(copy, Roots(kids)) && copy !in Roots(kids) && |kids| == |s.kids| == |Children(v)|
    ensures Copies(kids, s.kids, Children(v), inner')
    decreases v, 0
  {
    hide Represents, Copies, Linked, At, Holds, Keyed;
    Parts(s, v, inner);
    ghost var originals, vs := Roots(s.kids), Children(v);
    var child, next: Item? := item.child, null;
    NextAt(item, originals, 0);
    NoCopyYet(copy, s.kids, vs);
    kids, inner' := [], {};
    while child != null
      invariant Represents(s, v, inner) && |s.kids| == |vs|
      invariant |kids| <= |s.kids| && child == At(originals, |kids|) && next == At(Roots(kids), |kids| - 1)
      invariant fresh(inner') && (forall j :: 0 <= j < |kids| ==> fresh(kids[j].node)) && copy !in inner'
      invariant (next != null ==> fresh(next) && next !in inner') && copy !in Roots(kids)
      invariant Linked(copy, Roots(kids)) && Copies(kids, s.kids, vs, inner')
      decreases |s.kids| - |kids|
    {
      Parts(s, v, inner);
      NextAt(item, originals, |kids|);
      Child(s, v, inner, |kids|);
      var newchild;
      ghost var sc, nc;
      newchild, sc, nc := Duplicate(child, true, s.kids[|kids|], vs[|kids|], inner);
      assert Copies(kids, s.kids, vs, inner');
      Attach(copy, next, newchild, Roots(kids));
      assert Copies(kids, s.kids, vs, inner');
      next := newchild;
      OneMoreCopy(kids, s.kids, vs, inner', sc, nc);
      kids, inner' := kids + [sc], inner' + nc;
      child := child.next;
    }
    Parts(s, v, inner);
    NextAt(item, originals, |kids|);
  }

  /** A recursive copy compares equal to its original exactly if the value is consistent. */
  method CompareWithCopy(item: Item, caseSensitive: bool, ghost s: Shape, ghost v: Json, ghost inner: set<Item>)
    returns (r: bool)
    requires item == s.node && Represents(s, v, inner)
    ensures r == Consistent(v, caseSensitive)
  {
    hide Represents, Equated, Fits, Consistent, CanonOf, Same;
    RepresentsFits(s, v, inner);
    var copy;
    ghost var s', inner';
    copy, s', inner' := Duplicate(item, true, s, v, inner);
    RepresentsFits(s', v, inner');
    r := Compare(item, copy, caseSensitive, s, v, inner, s', v, inner');
    EquatedIsSame(s, v, inner, s', v, inner', caseSensitive);
    CompareReflexive(v, caseSensitive);
  }
}
