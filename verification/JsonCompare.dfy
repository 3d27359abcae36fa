/** When two trees compare equal (src/extern/cJSON.c, `cJSON_Compare`): arrays element by element,
    objects member by member, each member looked up by key in the other object, where the first
    member with that key is found. */
module JsonCompare {
  import opened Bytes
  import opened JsonNumbers
  import opened JsonText

  function LowerByte(b: byte): byte {
    if 65 <= b <= 90 then b + 32 else b
  }

  /** As `tolower` in the C locale. */
  lemma LowerByteLowers(b: byte)
    ensures SmallLetter(b as char, LowerByte(b) as char)
  {
    SmallLetterIs(b as char, LowerByte(b) as char);
  }

  function Lower(s: Text): (r: Text)
    ensures |r| == |s|
  {
    seq(|s|, i requires 0 <= i < |s| => LowerByte(s[i]))
  }

  /** What of a key counts. */
  function KeyOf(key: Text, caseSensitive: bool): Text {
    if caseSensitive then key else Lower(key)
  }

  /** The position of the first member with a key, or their number. */
  function Find(members: seq<Member>, key: Text, caseSensitive: bool): (r: nat)
    ensures r <= |members|
    ensures r < |members| ==> KeyOf(members[r].key, caseSensitive) == KeyOf(key, caseSensitive)
    ensures forall i :: 0 <= i < r ==> KeyOf(members[i].key, caseSensitive) != KeyOf(key, caseSensitive)
  {
    if members == [] then 0
    else if KeyOf(members[0].key, caseSensitive) == KeyOf(key, caseSensitive) then 0
    else 1 + Find(members[1..], key, caseSensitive)
  }

  function Size(v: Json): (r: nat)
    ensures r > 0
  {
    match v
    case Array(items) => 1 + ItemsSize(items)
    case Object(members) => 1 + MembersSize(members)
    case _ => 1
  }

  function ItemsSize(items: seq<Json>): nat {
    if items == [] then 0 else Size(items[0]) + ItemsSize(items[1..])
  }

  function MembersSize(members: seq<Member>): nat {
    if members == [] then 0 else Size(members[0].value) + MembersSize(members[1..])
  }

  lemma {:induction false} ItemSize(items: seq<Json>, i: nat)
    requires i < |items|
    ensures Size(items[i]) <= ItemsSize(items)
  {
    if i > 0 {
      ItemSize(items[1..], i - 1);
    }
  }

  lemma {:induction false} MemberSize(members: seq<Member>, i: nat)
    requires i < |members|
    ensures Size(members[i].value) <= MembersSize(members)
  {
    if i > 0 {
      MemberSize(members[1..], i - 1);
    }
  }

  /** The outcome of the comparison of two trees that share no node. */
  predicate Same(a: Json, b: Json, caseSensitive: bool)
    decreases Size(a) + Size(b), 1
  {
    match a
    case Number(d) => b.Number? && Equal(d, b.value)
    case String(s) => b.String? && s == b.s
    case Array(items) =>
      && b.Array? && |items| == |b.items|
      && forall i :: 0 <= i < |items| ==>
           (ItemSize(items, i); ItemSize(b.items, i); Same(items[i], b.items[i], caseSensitive))
    case Object(members) =>
      b.Object? && Covered(members, b.members, caseSensitive) && Covered(b.members, members, caseSensitive)
    case _ => a == b
  }

  /** Every member of the first object compares equal to the one found under its key in the second. */
  predicate Covered(ms: seq<Member>, others: seq<Member>, caseSensitive: bool)
    decreases MembersSize(ms) + MembersSize(others) + 2, 0
  {
    forall i :: 0 <= i < |ms| ==>
      var k := Find(others, ms[i].key, caseSensitive);
      k < |others| && (MemberSize(ms, i); MemberSize(others, k); Same(ms[i].value, others[k].value, caseSensitive))
  }

  // ----- Trees read as values

  /** A tree with its objects read as unordered maps, and zeros without their signs. */
  datatype Canon =
    | Scalar(v: Json)
    | List(items: seq<Canon>)
    | Map(members: map<Text, Canon>)

  function CanonOf(v: Json, caseSensitive: bool): Canon {
    match v
    case Array(items) => List(seq(|items|, i requires 0 <= i < |items| => CanonOf(items[i], caseSensitive)))
    case Object(members) => Map(CanonMap(members, caseSensitive))
    case Number(d) => Scalar(Number(Unsigned(d)))
    case _ => Scalar(v)
  }

  /** The first member with a key counts. */
  function CanonMap(members: seq<Member>, caseSensitive: bool): map<Text, Canon> {
    if members == [] then map[]
    else
      var key := KeyOf(members[0].key, caseSensitive);
      CanonMap(members[1..], caseSensitive)[key := CanonOf(members[0].value, caseSensitive)]
  }

  /** No number is NaN, and a key that occurs again in an object has an equal value there. */
  predicate Consistent(v: Json, caseSensitive: bool) {
    match v
    case Number(d) => !d.NaN?
    case Array(items) => forall i :: 0 <= i < |items| ==> Consistent(items[i], caseSensitive)
    case Object(members) =>
      forall i :: 0 <= i < |members| ==>
        && Consistent(members[i].value, caseSensitive)
        && var k := Find(members, members[i].key, caseSensitive);
           CanonOf(members[i].value, caseSensitive) == CanonOf(members[k].value, caseSensitive)
    case _ => true
  }

  lemma {:induction false} CanonMapFinds(members: seq<Member>, key: Text, caseSensitive: bool)
    ensures var k, m := Find(members, key, caseSensitive), CanonMap(members, caseSensitive);
      && (KeyOf(key, caseSensitive) in m <==> k < |members|)
      && (k < |members| ==> m[KeyOf(key, caseSensitive)] == CanonOf(members[k].value, caseSensitive))
  {
    if members != [] {
      CanonMapFinds(members[1..], key, caseSensitive);
    }
  }

  lemma {:induction false} CanonMapKey(members: seq<Member>, key: Text, caseSensitive: bool) returns (i: nat)
    requires key in CanonMap(members, caseSensitive)
    ensures i < |members| && KeyOf(members[i].key, caseSensitive) == key
  {
    if KeyOf(members[0].key, caseSensitive) == key {
      i := 0;
    } else {
      i := CanonMapKey(members[1..], key, caseSensitive);
      i := i + 1;
    }
  }

  // ----- The comparison, exactly

  /** For all trees: they compare equal exactly if each is consistent in itself and, objects read as
      unordered maps, they are the same. */
  lemma {:induction false} CompareExactly(a: Json, b: Json, caseSensitive: bool)
    ensures Same(a, b, caseSensitive)
      <==> Consistent(a, caseSensitive) && Consistent(b, caseSensitive)
           && CanonOf(a, caseSensitive) == CanonOf(b, caseSensitive)
    decreases Size(a) + Size(b), 1
  {
    if a.Array? && b.Array? {
      CompareArrays(a.items, b.items, caseSensitive);
    } else if a.Object? && b.Object? {
      CompareObjects(a.members, b.members, caseSensitive);
    }
  }

  lemma {:induction false} CompareArrays(a: seq<Json>, b: seq<Json>, caseSensitive: bool)
    ensures Same(Array(a), Array(b), caseSensitive)
      <==> Consistent(Array(a), caseSensitive) && Consistent(Array(b), caseSensitive)
           && CanonOf(Array(a), caseSensitive) == CanonOf(Array(b), caseSensitive)
    decreases Size(Array(a)) + Size(Array(b)), 0
  {
    var ca, cb := CanonOf(Array(a), caseSensitive).items, CanonOf(Array(b), caseSensitive).items;
    if |a| == |b| {
      forall i | 0 <= i < |a|
        ensures Same(a[i], b[i], caseSensitive)
          <==> Consistent(a[i], caseSensitive) && Consistent(b[i], caseSensitive) && ca[i] == cb[i]
      {
        ItemSize(a, i);
        ItemSize(b, i);
        CompareExactly(a[i], b[i], caseSensitive);
      }
    }
  }

  /** Members of `a` compare with members of `b` as their values do. */
  ghost predicate Decided(a: seq<Member>, b: seq<Member>, caseSensitive: bool) {
    forall i, j :: 0 <= i < |a| && 0 <= j < |b| ==>
      (Same(a[i].value, b[j].value, caseSensitive)
       <==> Consistent(a[i].value, caseSensitive) && Consistent(b[j].value, caseSensitive)
            && CanonOf(a[i].value, caseSensitive) == CanonOf(b[j].value, caseSensitive))
  }

  lemma {:induction false} CompareMembers(a: seq<Member>, b: seq<Member>, caseSensitive: bool)
    ensures Decided(a, b, caseSensitive)
    decreases MembersSize(a) + MembersSize(b) + 1, 2
  {
    forall i, j | 0 <= i < |a| && 0 <= j < |b|
      ensures Same(a[i].value, b[j].value, caseSensitive)
        <==> Consistent(a[i].value, caseSensitive) && Consistent(b[j].value, caseSensitive)
             && CanonOf(a[i].value, caseSensitive) == CanonOf(b[j].value, caseSensitive)
    {
      MemberSize(a, i);
      MemberSize(b, j);
      CompareExactly(a[i].value, b[j].value, caseSensitive);
    }
  }

  lemma {:induction false} CompareObjects(a: seq<Member>, b: seq<Member>, caseSensitive: bool)
    ensures Same(Object(a), Object(b), caseSensitive)
      <==> Consistent(Object(a), caseSensitive) && Consistent(Object(b), caseSensitive)
           && CanonOf(Object(a), caseSensitive) == CanonOf(Object(b), caseSensitive)
    decreases Size(Object(a)) + Size(Object(b)), 0
  {
    CompareMembers(a, b, caseSensitive);
    CompareMembers(b, a, caseSensitive);
    if Same(Object(a), Object(b), caseSensitive) {
      CoveredIsConsistent(a, b, caseSensitive);
      CoveredIsConsistent(b, a, caseSensitive);
      CoveredSameMap(a, b, caseSensitive);
    }
    if Consistent(Object(a), caseSensitive) && Consistent(Object(b), caseSensitive)
       && CanonOf(Object(a), caseSensitive) == CanonOf(Object(b), caseSensitive) {
      SameMapCovers(a, b, caseSensitive);
      SameMapCovers(b, a, caseSensitive);
    }
  }

  lemma CoveredIsConsistent(a: seq<Member>, b: seq<Member>, caseSensitive: bool)
    requires Decided(a, b, caseSensitive) && Covered(a, b, caseSensitive)
    ensures Consistent(Object(a), caseSensitive)
  {
    forall i | 0 <= i < |a|
      ensures Consistent(a[i].value, caseSensitive)
      ensures CanonOf(a[i].value, caseSensitive) == CanonOf(a[Find(a, a[i].key, caseSensitive)].value, caseSensitive)
    {
      var f := Find(a, a[i].key, caseSensitive);
      SameKeyFinds(b, a[i].key, a[f].key, caseSensitive);
    }
  }

  lemma {:induction false} SameKeyFinds(members: seq<Member>, key: Text, key': Text, caseSensitive: bool)
    requires KeyOf(key, caseSensitive) == KeyOf(key', caseSensitive)
    ensures Find(members, key, caseSensitive) == Find(members, key', caseSensitive)
  {
    if members != [] {
      SameKeyFinds(members[1..], key, key', caseSensitive);
    }
  }

  lemma CoveredSameMap(a: seq<Member>, b: seq<Member>, caseSensitive: bool)
    requires Decided(a, b, caseSensitive) && Decided(b, a, caseSensitive)
    requires Covered(a, b, caseSensitive) && Covered(b, a, caseSensitive)
    ensures CanonMap(a, caseSensitive) == CanonMap(b, caseSensitive)
  {
    var ma, mb := CanonMap(a, caseSensitive), CanonMap(b, caseSensitive);
    forall k | k in ma
      ensures k in mb && ma[k] == mb[k]
    {
      CoveredKey(a, b, k, caseSensitive);
    }
    forall k | k in mb
      ensures k in ma
    {
      CoveredKey(b, a, k, caseSensitive);
    }
  }

  lemma CoveredKey(a: seq<Member>, b: seq<Member>, k: Text, caseSensitive: bool)
    requires Decided(a, b, caseSensitive) && Covered(a, b, caseSensitive) && k in CanonMap(a, caseSensitive)
    ensures k in CanonMap(b, caseSensitive) && CanonMap(a, caseSensitive)[k] == CanonMap(b, caseSensitive)[k]
  {
    var i := CanonMapKey(a, k, caseSensitive);
    var key := a[i].key;
    var f := Find(a, key, caseSensitive);
    CanonMapFinds(a, key, caseSensitive);
    CanonMapFinds(b, key, caseSensitive);
    SameKeyFinds(b, key, a[f].key, caseSensitive);
  }

  lemma SameMapCovers(a: seq<Member>, b: seq<Member>, caseSensitive: bool)
    requires Decided(a, b, caseSensitive) && CanonMap(a, caseSensitive) == CanonMap(b, caseSensitive)
    requires Consistent(Object(a), caseSensitive) && Consistent(Object(b), caseSensitive)
    ensures Covered(a, b, caseSensitive)
  {
    forall i | 0 <= i < |a|
      ensures var k := Find(b, a[i].key, caseSensitive);
        k < |b| && Same(a[i].value, b[k].value, caseSensitive)
    {
      CanonMapFinds(a, a[i].key, caseSensitive);
      CanonMapFinds(b, a[i].key, caseSensitive);
    }
  }

  // ----- What follows

  /** The order of the arguments does not matter. */
  lemma CompareSymmetric(a: Json, b: Json, caseSensitive: bool)
    ensures Same(a, b, caseSensitive) <==> Same(b, a, caseSensitive)
  {
    CompareExactly(a, b, caseSensitive);
    CompareExactly(b, a, caseSensitive);
  }

  lemma CompareTransitive(a: Json, b: Json, c: Json, caseSensitive: bool)
    requires Same(a, b, caseSensitive) && Same(b, c, caseSensitive)
    ensures Same(a, c, caseSensitive)
  {
    CompareExactly(a, b, caseSensitive);
    CompareExactly(b, c, caseSensitive);
    CompareExactly(a, c, caseSensitive);
  }

  /** A copy compares equal to its original exactly if the tree is consistent. */
  lemma CompareReflexive(v: Json, caseSensitive: bool)
    ensures Same(v, v, caseSensitive) <==> Consistent(v, caseSensitive)
  {
    CompareExactly(v, v, caseSensitive);
  }

  /** No object has two members with the same key. */
  predicate DistinctKeys(v: Json, caseSensitive: bool) {
    match v
    case Array(items) => forall i :: 0 <= i < |items| ==> DistinctKeys(items[i], caseSensitive)
    case Object(members) =>
      && (forall i :: 0 <= i < |members| ==> DistinctKeys(members[i].value, caseSensitive))
      && forall i, j :: 0 <= i < j < |members| ==>
           KeyOf(members[i].key, caseSensitive) != KeyOf(members[j].key, caseSensitive)
    case _ => true
  }

  /** No number is NaN. */
  predicate NoNaN(v: Json) {
    match v
    case Number(d) => !d.NaN?
    case Array(items) => forall i :: 0 <= i < |items| ==> NoNaN(items[i])
    case Object(members) => forall i :: 0 <= i < |members| ==> NoNaN(members[i].value)
    case _ => true
  }

  lemma {:induction false} DistinctConsistent(v: Json, caseSensitive: bool)
    requires DistinctKeys(v, caseSensitive)
    ensures Consistent(v, caseSensitive) <==> NoNaN(v)
  {
    match v
    case Array(items) =>
      forall i | 0 <= i < |items|
        ensures Consistent(items[i], caseSensitive) <==> NoNaN(items[i])
      {
        DistinctConsistent(items[i], caseSensitive);
      }
    case Object(members) =>
      forall i | 0 <= i < |members|
        ensures Consistent(members[i].value, caseSensitive) <==> NoNaN(members[i].value)
        ensures Find(members, members[i].key, caseSensitive) == i
      {
        DistinctConsistent(members[i].value, caseSensitive);
      }
    case _ =>
  }

  /** With distinct keys, trees compare equal exactly if they are the same as values and no number
      is NaN. */
  lemma CompareDistinct(a: Json, b: Json, caseSensitive: bool)
    requires DistinctKeys(a, caseSensitive) && DistinctKeys(b, caseSensitive)
    ensures Same(a, b, caseSensitive)
      <==> NoNaN(a) && NoNaN(b) && CanonOf(a, caseSensitive) == CanonOf(b, caseSensitive)
  {
    DistinctConsistent(a, caseSensitive);
    DistinctConsistent(b, caseSensitive);
    CompareExactly(a, b, caseSensitive);
  }

  /** {"a": null, "a": true} does not compare equal to a copy of itself. */
  lemma CopyNotEqual()
    ensures var v := Object([Member([97], Null), Member([97], True)]); !Same(v, v, true)
  {
    var v := Object([Member([97], Null), Member([97], True)]);
    CompareReflexive(v, true);
    hide Same;
    assert Find(v.members, v.members[1].key, true) == 0;
    assert !Consistent(v, true);
  }

  lemma LowerA()
    ensures Lower([65]) == Lower([97])
  {
    assert Lower([65])[0] == Lower([97])[0];
  }

  /** Ignoring case, neither does {"a": null, "A": true}. */
  lemma CopyNotEqualIgnoringCase()
    ensures var v := Object([Member([97], Null), Member([65], True)]); !Same(v, v, false)
  {
    var v := Object([Member([97], Null), Member([65], True)]);
    hide Same, Lower;
    CompareReflexive(v, false);
    LowerA();
    assert Find(v.members, v.members[1].key, false) == 0;
    assert !Consistent(v, false);
  }
}
