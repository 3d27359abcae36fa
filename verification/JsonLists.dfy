/** The nodes of src/extern/cJSON.c and the edits of their doubly linked child lists. The list of a
    node's children is a sequence; each edit is the matching operation on sequences. */
module JsonLists {
  import opened Bytes
  import opened JsonNumbers

  datatype Kind = NullKind | FalseKind | TrueKind | NumberKind | StringKind | ArrayKind | ObjectKind

  const ZERO: double := Finite(false, 0, -1074)

  class Item {
    var kind: Kind
    var valuedouble: double
    var valuestring: Text
    /** The key, for a member of an object. */
    var key: Option<Text>
    var next: Item?
    var prev: Item?
    var child: Item?

    constructor (kind: Kind)
      ensures this.kind == kind && valuedouble == ZERO && valuestring == [] && key == None
      ensures next == prev == child == null
    {
      this.kind, valuedouble, valuestring, key, next, prev, child := kind, ZERO, [], None, null, null, null;
    }
  }

  ghost function At(kids: seq<Item>, i: int): Item? {
    if 0 <= i < |kids| then kids[i] else null
  }

  ghost predicate DistinctItems(kids: seq<Item>) {
    forall i, j :: 0 <= i < j < |kids| ==> kids[i] != kids[j]
  }

  /** The children of `parent` are `kids`: no node occurs twice, `child` is the head, and `next` and
      `prev` lead to the neighbours, or nowhere at the ends. */
  ghost predicate Linked(parent: Item, kids: seq<Item>)
    reads parent`child, kids`next, kids`prev
  {
    && parent !in kids && DistinctItems(kids)
    && parent.child == At(kids, 0)
    && forall i :: 0 <= i < |kids| ==> kids[i].next == At(kids, i + 1) && kids[i].prev == At(kids, i - 1)
  }

  ghost function Only(item: Item?): set<Item> {
    if item == null then {} else {item}
  }

  ghost predicate Detached(item: Item)
    reads item`next, item`prev
  {
    item.next == null && item.prev == null
  }

  /** The links determine the sequence. */
  lemma ChildrenUnique(parent: Item, kids: seq<Item>, others: seq<Item>)
    requires Linked(parent, kids) && Linked(parent, others)
    ensures kids == others
  {
    forall i: nat
      ensures At(kids, i) == At(others, i)
    {
      SameAt(parent, kids, others, i);
    }
    assert At(kids, |kids|) == At(others, |kids|) && At(kids, |others|) == At(others, |others|);
    assert forall i :: 0 <= i < |kids| ==> At(kids, i) == At(others, i) == kids[i];
  }

  lemma {:induction false} SameAt(parent: Item, kids: seq<Item>, others: seq<Item>, i: nat)
    requires Linked(parent, kids) && Linked(parent, others)
    ensures At(kids, i) == At(others, i)
  {
    if i > 0 {
      SameAt(parent, kids, others, i - 1);
    }
  }

  /** The child at an index, null past the end and for a negative index. */
  method GetArrayItem(list: Item, index: int, ghost kids: seq<Item>) returns (r: Item?)
    requires Linked(list, kids)
    ensures r == At(kids, index)
  {
    if index < 0 {
      return null;
    }
    var i := index;
    r := list.child;
    while r != null && i > 0
      invariant 0 <= i <= index && index - i <= |kids| && r == At(kids, index - i)
    {
      i := i - 1;
      r := r.next;
    }
  }

  /** All links of `kids` with `item` behind them are right, but what lies behind `item`, and before
      it if it is alone. */
  ghost predicate Appended(parent: Item, kids: seq<Item>, item: Item)
    reads parent`child, kids`next, kids`prev, item`prev
  {
    var all := kids + [item];
    && parent !in all && DistinctItems(all) && parent.child == At(all, 0)
    && (forall i :: 0 <= i < |kids| ==> kids[i].next == At(all, i + 1) && kids[i].prev == At(all, i - 1))
    && (kids != [] ==> item.prev == kids[|kids| - 1])
  }

  lemma AppendedIsLinked(parent: Item, kids: seq<Item>, item: Item)
    requires Appended(parent, kids, item)
    ensures Linked(parent, kids + [item]) <==> item.next == null && (kids == [] ==> item.prev == null)
  {
    var all := kids + [item];
    assert all[|kids|] == item && At(all, |kids| + 1) == null;
    forall i | 0 <= i < |kids|
      ensures all[i].next == At(all, i + 1) && all[i].prev == At(all, i - 1)
    {
    }
  }

  /** Appends a node as it is; without one nothing happens. The list is well linked afterwards
      exactly if the node has no links left that show. */
  method AddItemToArray(list: Item, item: Item?, ghost kids: seq<Item>) returns (ok: bool)
    requires Linked(list, kids)
    requires item != null ==> item !in kids && item != list
    modifies list`child, kids`next, Only(item)`prev
    ensures ok == (item != null)
    ensures !ok ==> Linked(list, kids)
    ensures ok ==> Appended(list, kids, item) && (kids == [] ==> item.prev == old(item.prev))
    ensures ok ==>
      (Linked(list, kids + [item]) <==> old(item.next) == null && (kids == [] ==> old(item.prev) == null))
  {
    if item == null {
      return false;
    }
    var child := list.child;
    if child == null {
      list.child := item;
    } else {
      ghost var i := 0;
      while child.next != null
        invariant 0 <= i < |kids| && child == kids[i]
        decreases |kids| - i
      {
        child := child.next;
        i := i + 1;
      }
      assert i == |kids| - 1;
      SuffixObject(child, item);
    }
    AppendedIsLinked(list, kids, item);
    ok := true;
  }

  method SuffixObject(prev: Item, item: Item)
    modifies prev`next, item`prev
    ensures prev.next == item && item.prev == prev
  {
    prev.next := item;
    item.prev := prev;
  }

  /** Takes a child out of the list; without one nothing happens. */
  method DetachItemViaPointer(parent: Item, item: Item?, ghost kids: seq<Item>, ghost i: int) returns (r: Item?)
    requires Linked(parent, kids) && item == At(kids, i)
    modifies parent`child, kids`next, kids`prev
    ensures r == item
    ensures r == null ==> Linked(parent, kids)
    ensures r != null ==> Linked(parent, kids[..i] + kids[i + 1..]) && Detached(r)
  {
    hide *;
    if item == null {
      return null;
    }
    Ends(parent, kids);
    AtIs(kids, i);
    AtIs(kids, 0);
    PassItem(parent, item, kids, i);
    if item == parent.child {
      parent.child := item.next;
    }
    Clear(item, kids, i);
    Unlinked(parent, kids, i);
    r := item;
  }

  lemma Ends(parent: Item, kids: seq<Item>)
    requires Linked(parent, kids)
    ensures parent !in kids && DistinctItems(kids) && parent.child == At(kids, 0)
  {
  }

  /** Only position `k` holds the item at `k`. */
  lemma AtIs(kids: seq<Item>, k: int)
    requires DistinctItems(kids)
    ensures At(kids, k) == null <==> k < 0 || k >= |kids|
    ensures At(kids, k) != null ==> At(kids, k) in kids
    ensures forall j :: 0 <= j < |kids| ==> (kids[j] == At(kids, k) <==> j == k)
  {
  }

  /** The neighbours of a child point past it. */
  method PassItem(ghost parent: Item, item: Item, ghost kids: seq<Item>, ghost i: nat)
    requires Linked(parent, kids) && i < |kids| && item == kids[i]
    modifies kids`next, kids`prev
    ensures LinkedPast(kids, i) && item.next == old(item.next) == At(kids, i + 1)
  {
    hide At, DistinctItems;
    Ends(parent, kids);
    AtIs(kids, i - 1);
    AtIs(kids, i);
    AtIs(kids, i + 1);
    if item.prev != null {
      item.prev.next := item.next;
    }
    if item.next != null {
      item.next.prev := item.prev;
    }
  }

  method Clear(item: Item, ghost kids: seq<Item>, ghost i: nat)
    requires DistinctItems(kids) && i < |kids| && item == kids[i] && LinkedPast(kids, i)
    modifies item`next, item`prev
    ensures Detached(item) && LinkedPast(kids, i)
  {
    item.prev := null;
    item.next := null;
  }

  /** The links around position `i` lead past it. */
  ghost predicate LinkedPast(kids: seq<Item>, i: int)
    requires 0 <= i < |kids|
    reads kids`next, kids`prev
  {
    forall j :: 0 <= j < |kids| && j != i ==>
      && kids[j].next == At(kids, if j == i - 1 then i + 1 else j + 1)
      && kids[j].prev == At(kids, if j == i + 1 then i - 1 else j - 1)
  }

  lemma Unlinked(parent: Item, kids: seq<Item>, i: int)
    requires 0 <= i < |kids| && parent !in kids && DistinctItems(kids)
    requires parent.child == At(kids, if i == 0 then 1 else 0) && LinkedPast(kids, i)
    ensures Linked(parent, kids[..i] + kids[i + 1..])
  {
    var rest := kids[..i] + kids[i + 1..];
    forall j | 0 <= j < |rest|
      ensures rest[j].next == At(rest, j + 1) && rest[j].prev == At(rest, j - 1)
    {
      UnlinkedAt(kids, i, j);
    }
    Without(kids, i, 0);
    WithoutDistinct(kids, i);
  }

  lemma UnlinkedAt(kids: seq<Item>, i: int, j: int)
    requires 0 <= i < |kids| && LinkedPast(kids, i) && 0 <= j < |kids| - 1
    ensures var rest := kids[..i] + kids[i + 1..];
      rest[j].next == At(rest, j + 1) && rest[j].prev == At(rest, j - 1)
  {
    hide At;
    var rest := kids[..i] + kids[i + 1..];
    var k := if j < i then j else j + 1;
    assert rest[j] == kids[k];
    Without(kids, i, j + 1);
    Without(kids, i, j - 1);
  }

  lemma Without(kids: seq<Item>, i: int, j: int)
    requires 0 <= i < |kids|
    ensures At(kids[..i] + kids[i + 1..], j) == At(kids, if j < i then j else j + 1)
  {
  }

  lemma WithoutDistinct(kids: seq<Item>, i: int)
    requires 0 <= i < |kids| && DistinctItems(kids)
    ensures var rest := kids[..i] + kids[i + 1..];
      && DistinctItems(rest)
      && (forall x :: x in rest ==> x in kids)
  {
    var rest := kids[..i] + kids[i + 1..];
    forall a, b | 0 <= a < b < |rest|
      ensures rest[a] != rest[b]
    {
      assert rest[a] == kids[if a < i then a else a + 1] && rest[b] == kids[if b < i then b else b + 1];
    }
  }

  /** Takes the child at an index out, if there is one. */
  method DetachItemFromArray(list: Item, which: int, ghost kids: seq<Item>) returns (r: Item?)
    requires Linked(list, kids)
    modifies list`child, kids`next, kids`prev
    ensures r == At(kids, which)
    ensures r == null ==> Linked(list, kids)
    ensures r != null ==> Linked(list, kids[..which] + kids[which + 1..]) && Detached(r)
  {
    if which < 0 {
      return null;
    }
    var item := GetArrayItem(list, which, kids);
    r := DetachItemViaPointer(list, item, kids, which);
  }

  ghost function Inserted(kids: seq<Item>, which: nat, item: Item): seq<Item> {
    if which < |kids| then kids[..which] + [item] + kids[which..] else kids + [item]
  }

  /** Inserts a node at an index, whatever links it had; past the end it is appended as it is, and a
      negative index does nothing. */
  method InsertItemInArray(list: Item, which: int, newitem: Item, ghost kids: seq<Item>)
    requires Linked(list, kids) && newitem !in kids && newitem != list
    modifies list`child, kids`next, kids`prev, newitem`next, newitem`prev
    ensures which < 0 ==> Linked(list, kids) && newitem.next == old(newitem.next) && newitem.prev == old(newitem.prev)
    ensures 0 <= which < |kids| ==> Linked(list, Inserted(kids, which, newitem))
    ensures which >= |kids| ==>
      && Appended(list, kids, newitem)
      && (Linked(list, Inserted(kids, which, newitem))
          <==> old(newitem.next) == null && (kids == [] ==> old(newitem.prev) == null))
  {
    if which < 0 {
      return;
    }
    var after := GetArrayItem(list, which, kids);
    if after == null {
      var ok := AddItemToArray(list, newitem, kids);
      return;
    }
    newitem.next := after;
    newitem.prev := after.prev;
    after.prev := newitem;
    if after == list.child {
      list.child := newitem;
    } else {
      newitem.prev.next := newitem;
    }
    Interposed(list, kids, which, newitem);
  }

  /** The links around position `i` lead through the new node. */
  lemma Interposed(parent: Item, kids: seq<Item>, i: int, item: Item)
    requires 0 <= i < |kids| && parent !in kids && DistinctItems(kids) && item !in kids && item != parent
    requires parent.child == if i == 0 then item else At(kids, 0)
    requires item.next == kids[i] && item.prev == At(kids, i - 1)
    requires forall j :: 0 <= j < |kids| ==> kids[j].next == if j == i - 1 then item else At(kids, j + 1)
    requires forall j :: 0 <= j < |kids| ==> kids[j].prev == if j == i then item else At(kids, j - 1)
    ensures Linked(parent, kids[..i] + [item] + kids[i..])
  {
    var all := kids[..i] + [item] + kids[i..];
    forall j | 0 <= j < |all|
      ensures all[j].next == At(all, j + 1) && all[j].prev == At(all, j - 1)
    {
      With(kids, i, item, j);
      With(kids, i, item, j + 1);
      With(kids, i, item, j - 1);
    }
    With(kids, i, item, 0);
    WithDistinct(kids, i, item);
  }

  lemma With(kids: seq<Item>, i: int, item: Item, j: int)
    requires 0 <= i < |kids|
    ensures At(kids[..i] + [item] + kids[i..], j) == if j == i then item else At(kids, if j < i then j else j - 1)
  {
  }

  lemma WithDistinct(kids: seq<Item>, i: int, item: Item)
    requires 0 <= i < |kids| && DistinctItems(kids)
    requires item !in kids
    ensures var all := kids[..i] + [item] + kids[i..];
      && DistinctItems(all)
      && (forall x :: x in all ==> x in kids || x == item)
  {
    var all := kids[..i] + [item] + kids[i..];
    forall a, b | 0 <= a < b < |all|
      ensures all[a] != all[b]
    {
      assert a != i ==> all[a] == kids[if a < i then a else a - 1];
      assert b != i ==> all[b] == kids[if b < i then b else b - 1];
    }
  }

  /** Puts another node in a child's place; a node replaced by itself stays. */
  method ReplaceItemViaPointer(parent: Item, item: Item?, replacement: Item?, ghost kids: seq<Item>, ghost i: int)
    returns (ok: bool)
    requires Linked(parent, kids) && item == At(kids, i)
    requires item != null && replacement != null && replacement != item ==>
      replacement !in kids && replacement != parent
    modifies parent`child, kids`next, kids`prev, Only(replacement)`next, Only(replacement)`prev
    ensures ok == (item != null && replacement != null)
    ensures Linked(parent, if ok then kids[i := replacement] else kids)
    ensures ok && replacement != item ==> Detached(item)
  {
    hide At, Linked, LinkedThrough, DistinctItems, Detached;
    if replacement == null || item == null {
      return false;
    }
    Ends(parent, kids);
    AtIs(kids, i);
    AtIs(kids, 0);
    if replacement == item {
      assert kids[i := item] == kids;
      return true;
    }
    TakePlace(parent, item, replacement, kids, i);
    if parent.child == item {
      parent.child := replacement;
    }
    Release(item, replacement, kids, i);
    Substituted(parent, kids, i, replacement);
    ok := true;
  }

  /** The replacement gets the links of the child, and the neighbours of the child point to it. */
  method TakePlace(ghost parent: Item, item: Item, replacement: Item, ghost kids: seq<Item>, ghost i: nat)
    requires Linked(parent, kids) && i < |kids| && item == kids[i] && replacement !in kids
    modifies kids`next, kids`prev, replacement`next, replacement`prev
    ensures LinkedThrough(kids, i, replacement)
  {
    hide At, DistinctItems;
    Ends(parent, kids);
    AtIs(kids, i - 1);
    AtIs(kids, i);
    AtIs(kids, i + 1);
    replacement.next := item.next;
    replacement.prev := item.prev;
    if replacement.next != null {
      replacement.next.prev := replacement;
    }
    if replacement.prev != null {
      replacement.prev.next := replacement;
    }
  }

  method Release(item: Item, ghost replacement: Item, ghost kids: seq<Item>, ghost i: nat)
    requires DistinctItems(kids) && i < |kids| && item == kids[i] && item != replacement
    requires LinkedThrough(kids, i, replacement)
    modifies item`next, item`prev
    ensures Detached(item) && LinkedThrough(kids, i, replacement)
  {
    item.next := null;
    item.prev := null;
  }

  /** The links around position `i` lead through the replacement. */
  ghost predicate LinkedThrough(kids: seq<Item>, i: int, item: Item)
    requires 0 <= i < |kids|
    reads kids`next, kids`prev, item`next, item`prev
  {
    && item.next == At(kids, i + 1) && item.prev == At(kids, i - 1)
    && forall j :: 0 <= j < |kids| && j != i ==>
         && kids[j].next == (if j == i - 1 then item else At(kids, j + 1))
         && kids[j].prev == (if j == i + 1 then item else At(kids, j - 1))
  }

  lemma Substituted(parent: Item, kids: seq<Item>, i: int, item: Item)
    requires 0 <= i < |kids| && parent !in kids && DistinctItems(kids) && item !in kids && item != parent
    requires parent.child == (if i == 0 then item else At(kids, 0)) && LinkedThrough(kids, i, item)
    ensures Linked(parent, kids[i := item])
  {
    hide At;
    var all := kids[i := item];
    forall j
      ensures At(all, j) == if j == i then item else At(kids, j)
    {
      AtSubstituted(kids, i, item, j);
    }
    assert parent !in all && DistinctItems(all);
    hide DistinctItems;
  }

  lemma AtSubstituted(kids: seq<Item>, i: int, item: Item, j: int)
    requires 0 <= i < |kids|
    ensures At(kids[i := item], j) == if j == i then item else At(kids, j)
  {
  }

  /** Replaces the child at an index, if there is one. */
  method ReplaceItemInArray(list: Item, which: int, newitem: Item, ghost kids: seq<Item>)
    requires Linked(list, kids)
    requires At(kids, which) == newitem || (newitem !in kids && newitem != list)
    modifies list`child, kids`next, kids`prev, newitem`next, newitem`prev
    ensures Linked(list, if 0 <= which < |kids| then kids[which := newitem] else kids)
  {
    if which < 0 {
      return;
    }
    var item := GetArrayItem(list, which, kids);
    var ok := ReplaceItemViaPointer(list, item, newitem, kids, which);
  }
}
