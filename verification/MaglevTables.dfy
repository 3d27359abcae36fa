/** The lookup table object of src/mgmt/common/maglev_table.py: elements are added and removed, the
    table is rebuilt lazily, and a rebuild records which elements were replaced by which. */
module MaglevTables {
  import opened Bytes
  import opened Arithmetic
  import opened Permutations
  import opened Maglev
  import opened Names

  /** Python's `sorted` on the names. */
  method SortNames(s: set<string>) returns (r: seq<string>)
    ensures r == Sorted(s)
    ensures (forall x :: x in r <==> x in s) && |r| == |s|
    ensures forall i, j :: 0 <= i < j < |r| ==> Precedes(r[i], r[j])
  {
    SortedIsSorted(s);
    SortedByCharacters(s);
    hide Precedes, Leq, Sorted;
    r := [];
    var rest := s;
    while rest != {}
      invariant r + Sorted(rest) == Sorted(s)
      decreases |rest|
    {
      LeastExists(rest);
      var x :| x in rest && forall y :: y in rest ==> Leq(x, y);
      NextSorted(rest, x, r);
      r := r + [x];
      rest := rest - {x};
    }
  }

  lemma NextSorted(rest: set<string>, x: string, r: seq<string>)
    requires x in rest && forall y :: y in rest ==> Leq(x, y)
    ensures r + Sorted(rest) == (r + [x]) + Sorted(rest - {x})
  {
    assert IsLeast(x, rest);
    LeastUnique(x, Least(rest), rest);
    assert Sorted(rest) == [x] + Sorted(rest - {x});
    Regroup(r, [x], Sorted(rest - {x}));
  }

  /** The names in a full table. */
  function Entries(t: Slots): (r: seq<string>)
    requires forall s :: 0 <= s < |t| ==> t[s].Some?
    ensures |r| == |t| && forall s :: 0 <= s < |t| ==> t[s] == Some(r[s])
  {
    seq(|t|, s requires 0 <= s < |t| => t[s].value)
  }

  lemma {:induction false} SameCount(t: Slots, r: seq<string>, x: string)
    requires |t| == |r| && forall s :: 0 <= s < |t| ==> t[s] == Some(r[s])
    ensures multiset(r)[x] == multiset(t)[Some(x)]
  {
    if |t| > 0 {
      var last := |t| - 1;
      SameCount(t[..last], r[..last], x);
      assert t == t[..last] + [t[last]] && r == r[..last] + [r[last]];
    }
  }

  /** The pairs (now, before) of the slots that changed hands. */
  ghost function Replacements(prev: seq<string>, curr: seq<string>): (r: set<(string, string)>)
    requires |prev| == |curr|
    ensures forall c, p :: (c, p) in r <==> p != c && exists i :: 0 <= i < |curr| && curr[i] == c && prev[i] == p
  {
    set i | 0 <= i < |curr| && prev[i] != curr[i] :: (curr[i], prev[i])
  }

  ghost predicate NoDuplicates(ps: seq<string>) {
    forall i, j :: 0 <= i < j < |ps| ==> ps[i] != ps[j]
  }

  /** `d` lists under each new owner exactly the owners it replaced, each once. */
  ghost predicate Lists(d: map<string, seq<string>>, pairs: set<(string, string)>) {
    && (forall c, p :: c in d && p in d[c] <==> (c, p) in pairs)
    && (forall c :: c in d ==> NoDuplicates(d[c]))
  }

  /** The pairs listed under one owner. */
  ghost function Under(c: string, ps: seq<string>): (r: set<(string, string)>)
    requires NoDuplicates(ps)
    ensures |r| == |ps| && forall q :: q in r <==> q.0 == c && q.1 in ps
  {
    if ps == [] then {} else Under(c, ps[..|ps| - 1]) + {(c, ps[|ps| - 1])}
  }

  datatype AddOutcome = Added | Exists | NotAscii

  predicate Ascii(s: string) {
    forall i :: 0 <= i < |s| ==> s[i] as int < 128
  }

  class MaglevTable {
    const tableSize: nat
    const crc32: string -> nat
    const adler32: string -> nat

    var permutations: map<string, seq<nat>>
    var table: seq<string>
    var prevTable: seq<string>
    var prevElementsMap: map<string, seq<string>>
    var elementsReplaced: nat
    var elementsReplacing: nat
    var altered: bool

    constructor (tableSize: nat, crc32: string -> nat, adler32: string -> nat)
      requires IsPrime(tableSize)
      ensures this.tableSize == tableSize && this.crc32 == crc32 && this.adler32 == adler32
      ensures Valid() && Elements() == {} && table == [] && !altered
    {
      this.tableSize, this.crc32, this.adler32 := tableSize, crc32, adler32;
      permutations, table, prevTable, prevElementsMap := map[], [], [], map[];
      elementsReplaced, elementsReplacing, altered := 0, 0, false;
    }

    function Offset(element: string): nat
      requires tableSize > 0
    {
      crc32(element) % 0x1_0000_0000 % tableSize
    }

    function Skip(element: string): (r: nat)
      requires tableSize > 1
      ensures 1 <= r < tableSize
    {
      adler32(element) % 0x1_0000_0000 % (tableSize - 1) + 1
    }

    ghost function PermutationOf(element: string): (p: seq<nat>)
      requires IsPrime(tableSize)
      ensures |p| == tableSize
    {
      Permutation(tableSize, Offset(element), Skip(element))
    }

    /** A list of slots that starts where the CRC-32 says and goes on in steps the Adler-32 says. */
    ghost predicate Steps(p: seq<nat>, crc: nat, adler: nat)
      requires tableSize > 1
    {
      && |p| == tableSize && p[0] == crc % 0x1_0000_0000 % tableSize
      && forall i :: 0 < i < tableSize ==>
           p[i] == (p[i - 1] + adler % 0x1_0000_0000 % (tableSize - 1) + 1) % tableSize
    }

    lemma PermutationSteps(element: string)
      requires IsPrime(tableSize)
      ensures Steps(PermutationOf(element), crc32(element), adler32(element))
    {
      hide Permutation;
      StepsOfPermutation(tableSize, Offset(element), Skip(element));
    }

    ghost function Ballots(names: seq<string>): (r: seq<seq<nat>>)
      requires IsPrime(tableSize)
      ensures |r| == |names| && forall i :: 0 <= i < |names| ==> r[i] == PermutationOf(names[i])
    {
      seq(|names|, i requires 0 <= i < |names| => PermutationOf(names[i]))
    }

    lemma BallotOf(elements: set<string>)
      requires IsPrime(tableSize) && elements != {} && "" !in elements
      ensures Ballot(Sorted(elements), Ballots(Sorted(elements)), tableSize)
    {
      var names := Sorted(elements);
      SortedIsSorted(elements);
      forall i | 0 <= i < |names|
        ensures IsPermutation(Ballots(names)[i], tableSize)
      {
        PrimeStepsPermute(tableSize, Offset(names[i]), Skip(names[i]));
      }
    }

    /** The table that belongs to a set of elements, whatever the history. */
    ghost function TableOf(elements: set<string>): (r: seq<string>)
      requires IsPrime(tableSize) && elements != {} && "" !in elements
      ensures |r| == tableSize
    {
      var names := Sorted(elements);
      BallotOf(elements);
      Loads(names, Ballots(names), tableSize);
      Entries(Fill(names, Ballots(names), tableSize, tableSize))
    }

    /** Only the elements own slots. Every load is even to within one slot, and the slots left over
        go to the first elements in the order of their names. */
    lemma TableLoads(elements: set<string>)
      requires IsPrime(tableSize) && elements != {} && "" !in elements
      ensures var r, n := TableOf(elements), |elements|;
        && (forall s :: 0 <= s < tableSize ==> r[s] in elements)
        && forall e :: e in elements ==>
             multiset(r)[e] == tableSize / n + if Preceding(e, elements) < tableSize % n then 1 else 0
    {
      SortedIsSorted(elements);
      SortedByCharacters(elements);
      hide Precedes, Preceding, TableOf, Sorted;
      LoadsInOrder(elements);
      forall e | e in elements
        ensures multiset(TableOf(elements))[e]
          == tableSize / |elements| + if Preceding(e, elements) < tableSize % |elements| then 1 else 0
      {
        var i :| 0 <= i < |Sorted(elements)| && Sorted(elements)[i] == e;
      }
    }

    lemma LoadsInOrder(elements: set<string>)
      requires IsPrime(tableSize) && elements != {} && "" !in elements
      ensures var r, n := TableOf(elements), |elements|;
        && (forall s :: 0 <= s < tableSize ==> r[s] in elements)
        && forall i :: 0 <= i < n ==>
             multiset(r)[Sorted(elements)[i]] == tableSize / n + if i < tableSize % n then 1 else 0
    {
      var names := Sorted(elements);
      BallotOf(elements);
      SortedIsSorted(elements);
      var t := Fill(names, Ballots(names), tableSize, tableSize);
      Loads(names, Ballots(names), tableSize);
      forall i | 0 <= i < |names|
        ensures multiset(TableOf(elements))[names[i]] == multiset(t)[Some(names[i])]
      {
        SameCount(t, Entries(t), names[i]);
      }
    }

    /** Only elements own slots, each its even share, the first in the order of names one more. */
    ghost predicate EvenLoads(t: seq<string>, elements: set<string>)
      requires elements != {}
    {
      && |t| == tableSize && (forall s :: 0 <= s < |t| ==> t[s] in elements)
      && forall e :: e in elements ==>
           multiset(t)[e]
           == tableSize / |elements| + if Preceding(e, elements) < tableSize % |elements| then 1 else 0
    }

    ghost function Elements(): set<string>
      reads this
    {
      permutations.Keys
    }

    /** Every element has its own permutation, and unless a change is pending the table is the one
        of the current elements. */
    ghost predicate Valid()
      reads this
    {
      && IsPrime(tableSize)
      && (forall e :: e in permutations ==> permutations[e] == PermutationOf(e))
      && (table != [] ==> |table| == tableSize)
      && (!altered ==> "" !in Elements() && table == if Elements() == {} then [] else TableOf(Elements()))
    }

    /** None when the name is not ASCII: encoding it raises. */
    method ComputePermutations(element: string) returns (p: Option<seq<nat>>)
      requires IsPrime(tableSize)
      ensures p == if Ascii(element) then Some(PermutationOf(element)) else None
      ensures p.Some? ==> Steps(p.value, crc32(element), adler32(element))
    {
      if !Ascii(element) {
        return None;
      }
      var permutation := new nat[tableSize];
      for i := 0 to tableSize
        invariant forall j :: 0 <= j < i ==> permutation[j] == Slot(tableSize, Offset(element), Skip(element), j)
      {
        var offset := Offset(element);
        var skip := Skip(element);
        var index := (offset + i * skip) % tableSize;
        permutation[i] := index;
      }
      p := Some(permutation[..]);
      assert p.value == Permutation(tableSize, Offset(element), Skip(element));
      PermutationSteps(element);
    }

    /** An element is added unless it exists or its name is not ASCII; then nothing changes. */
    method Add(element: string) returns (r: AddOutcome)
      requires Valid()
      modifies this
      ensures Valid()
      ensures r == if element in old(Elements()) then Exists else if Ascii(element) then Added else NotAscii
      ensures Elements() == if r == Added then old(Elements()) + {element} else old(Elements())
      ensures altered == (old(altered) || r == Added)
      ensures table == old(table) && prevTable == old(prevTable) && prevElementsMap == old(prevElementsMap)
      ensures elementsReplaced == old(elementsReplaced) && elementsReplacing == old(elementsReplacing)
    {
      if element in permutations {
        return Exists;
      }
      var permutation := ComputePermutations(element);
      if permutation == None {
        return NotAscii;
      }
      permutations := permutations[element := permutation.value];
      altered := true;
      r := Added;
    }

    /** False when there is no such element, and then nothing changes. */
    method Remove(element: string) returns (ok: bool)
      requires Valid()
      modifies this
      ensures Valid() && ok == (element in old(Elements()))
      ensures Elements() == old(Elements()) - {element}
      ensures altered == (old(altered) || ok)
      ensures table == old(table) && prevTable == old(prevTable) && prevElementsMap == old(prevElementsMap)
      ensures elementsReplaced == old(elementsReplaced) && elementsReplacing == old(elementsReplacing)
    {
      if element !in permutations {
        return false;
      }
      permutations := permutations - {element};
      altered := true;
      ok := true;
    }

    /** The lookup table, rebuilt first if an element was added or removed; None when the table is
        empty. A rebuild needs an element: without one the source never returns. It also needs the
        elements to have names, because a slot counts as taken if its entry is true. */
    method GetTable() returns (r: Option<seq<string>>)
      requires Valid() && (altered ==> Elements() != {} && "" !in Elements())
      modifies this
      ensures Valid() && !altered && Elements() == old(Elements())
      ensures r == if Elements() == {} then None else Some(TableOf(Elements()))
      ensures r.Some? ==> table == r.value
      ensures r.Some? ==> EvenLoads(r.value, Elements())
      ensures old(altered) ==> prevTable == old(table)
      ensures old(altered) && old(table) != [] ==>
        var pairs := Replacements(old(table), table);
        && Lists(prevElementsMap, pairs) && (forall c :: c in prevElementsMap ==> prevElementsMap[c] != [])
        && elementsReplaced == |pairs| && elementsReplacing == |prevElementsMap|
      ensures !old(altered) || old(table) == [] ==>
        prevElementsMap == old(prevElementsMap) && elementsReplaced == old(elementsReplaced)
        && elementsReplacing == old(elementsReplacing)
    {
      hide TableOf, PermutationOf, Ballots, Lists, Replacements, Preceding;
      if altered {
        prevTable := table;
        PopulateTable();
        if prevTable != [] {
          GeneratePrevElementsMap();
        }
      }
      if table == [] {
        r := None;
        return;
      }
      TableLoads(Elements());
      altered := false;
      r := Some(table);
    }

    /** Rebuilds the table of the current elements. */
    method PopulateTable()
      requires Valid() && Elements() != {} && "" !in Elements()
      modifies this`table
      ensures table == TableOf(Elements())
    {
      hide Fill, PermutationOf;
      var names := SortNames(permutations.Keys);
      BallotOf(Elements());
      SortedIsSorted(Elements());
      var t := RunTurns(names, Ballots(names));
      Loads(names, Ballots(names), tableSize);
      table := Entries(t);
    }

    /** Fills a table round by round, each element resuming its list where it last stopped. */
    method RunTurns(names: seq<string>, ghost perms: seq<seq<nat>>) returns (r: Slots)
      requires Ballot(names, perms, tableSize)
      requires forall i :: 0 <= i < |names| ==> names[i] in permutations && permutations[names[i]] == perms[i]
      ensures r == Fill(names, perms, tableSize, tableSize)
    {
      var nextInd := new nat[|names|](_ => 0);
      var t := new Option<string>[tableSize](_ => None);
      var n := 0;
      assert t[..] == Fill(names, perms, tableSize, 0);
      while true
        invariant n < tableSize && n % |names| == 0
        invariant t[..] == Fill(names, perms, tableSize, n)
        invariant Skipped(nextInd[..], perms, t[..])
        decreases tableSize - n
      {
        n := Round(names, perms, nextInd, t, n);
        if n == tableSize {
          return t[..];
        }
      }
    }

    /** One turn for each name in order, stopping when the table is full. */
    method Round(names: seq<string>, ghost perms: seq<seq<nat>>, nextInd: array<nat>, t: array<Option<string>>, n0: nat)
      returns (n: nat)
      requires Ballot(names, perms, tableSize) && t.Length == tableSize
      requires forall i :: 0 <= i < |names| ==> names[i] in permutations && permutations[names[i]] == perms[i]
      requires n0 < tableSize && n0 % |names| == 0
      requires t[..] == Fill(names, perms, tableSize, n0) && Skipped(nextInd[..], perms, t[..])
      modifies nextInd, t
      ensures n0 < n <= tableSize && (n < tableSize ==> n % |names| == 0)
      ensures t[..] == Fill(names, perms, tableSize, n) && Skipped(nextInd[..], perms, t[..])
    {
      hide Fill, Skipped, PermutationOf;
      n := n0;
      var i := 0;
      while i < |names|
        invariant 0 <= i <= |names| && n == n0 + i < tableSize
        invariant t[..] == Fill(names, perms, tableSize, n)
        invariant Skipped(nextInd[..], perms, t[..])
      {
        var element := names[i];
        RoundIndex(n0, |names|, i);
        TakeTurn(names, perms, n, i, element, permutations[element], nextInd, t);
        n := n + 1;
        if n == tableSize {
          return;
        }
        i := i + 1;
      }
      RoundIndex(n0, |names|, |names|);
    }

    /** Collects, per new owner, the owners it replaced, then drops the empty lists. */
    method GeneratePrevElementsMap()
      requires |prevTable| == |table| == tableSize
      modifies this`prevElementsMap, this`elementsReplaced, this`elementsReplacing
      ensures var pairs := Replacements(prevTable, table);
        && Lists(prevElementsMap, pairs) && (forall c :: c in prevElementsMap ==> prevElementsMap[c] != [])
        && elementsReplaced == |pairs| && elementsReplacing == |prevElementsMap|
    {
      var d: map<string, seq<string>> := map[];
      for i := 0 to tableSize
        invariant Lists(d, Replacements(prevTable[..i], table[..i]))
      {
        var prev := prevTable[i];
        var curr := table[i];
        ghost var d0 := d;
        if curr !in d {
          d := d[curr := []];
        }
        if curr != prev && prev !in d[curr] {
          d := d[curr := d[curr] + [prev]];
        }
        ListStep(d0, d, prevTable, table, i);
      }
      assert prevTable[..tableSize] == prevTable && table[..tableSize] == table;
      var replaced: nat;
      d, replaced := DropEmpty(d, Replacements(prevTable, table));
      prevElementsMap := d;
      elementsReplaced := replaced;
      elementsReplacing := |d.Keys|;
    }
  }

  /** Counts the listed replacements and drops the owners that replaced nobody. */
  method DropEmpty(all: map<string, seq<string>>, ghost pairs: set<(string, string)>)
    returns (d: map<string, seq<string>>, replaced: nat)
    requires Lists(all, pairs)
    ensures Lists(d, pairs) && forall c :: c in d ==> d[c] != []
    ensures replaced == |pairs|
  {
    d, replaced := all, 0;
    var keys := d.Keys;
    ghost var counted: set<(string, string)> := {};
    while keys != {}
      invariant Lists(d, pairs) && keys <= d.Keys
      invariant forall c :: c in d && c !in keys ==> d[c] != []
      invariant forall q :: q in counted <==> q in pairs && q.0 !in keys
      invariant replaced == |counted|
      decreases |keys|
    {
      var ele :| ele in keys;
      ghost var here := Under(ele, d[ele]);
      assert counted !! here;
      replaced := replaced + |d[ele]|;
      counted := counted + here;
      keys := keys - {ele};
      if d[ele] == [] {
        d := d - {ele};
      }
    }
    assert counted == pairs;
  }

  /** Each element's resume point is behind taken slots only. */
  ghost predicate Skipped(nextInd: seq<nat>, perms: seq<seq<nat>>, t: Slots) {
    |nextInd| == |perms| && forall i :: 0 <= i < |perms| ==> TakenUpTo(nextInd[i], perms[i], t)
  }

  ghost predicate TakenUpTo(n: nat, p: seq<nat>, t: Slots) {
    n <= |p| && forall j :: 0 <= j < n ==> p[j] < |t| && Taken(t[p[j]])
  }

  /** The resume point moves on over the slots taken meanwhile; nothing before it is free. */
  method NextFree(p: seq<nat>, i: nat, nextInd: array<nat>, t: array<Option<string>>)
    requires i < nextInd.Length && forall j :: 0 <= j < |p| ==> p[j] < t.Length
    requires nextInd[i] <= |p| && forall j :: 0 <= j < nextInd[i] ==> Taken(t[p[j]])
    requires FirstFree(p, t[..]) < |p|
    modifies nextInd
    ensures nextInd[..] == old(nextInd[..])[i := FirstFree(p, t[..])]
  {
    ghost var k := FirstFree(p, t[..]);
    assert t[..][p[k]] == t[p[k]];
    var cand := p[nextInd[i]];
    while Taken(t[cand])
      invariant nextInd[i] <= k && cand == p[nextInd[i]]
      invariant nextInd[..] == old(nextInd[..])[i := nextInd[i]]
      invariant forall j :: 0 <= j < nextInd[i] ==> Taken(t[p[j]])
      decreases k - nextInd[i]
    {
      nextInd[i] := nextInd[i] + 1;
      cand := p[nextInd[i]];
    }
  }

  /** One turn: the element takes the next slot of its list that is free. */
  method TakeTurn(names: seq<string>, ghost perms: seq<seq<nat>>, ghost n: nat, i: nat, element: string,
                  p: seq<nat>, nextInd: array<nat>, t: array<Option<string>>)
    requires Ballot(names, perms, t.Length) && n < t.Length && i == n % |names|
    requires element == names[i] && p == perms[i]
    requires t[..] == Fill(names, perms, t.Length, n) && Skipped(nextInd[..], perms, t[..])
    modifies nextInd, t
    ensures t[..] == Fill(names, perms, t.Length, n + 1) && Skipped(nextInd[..], perms, t[..])
  {
    hide Fill, FirstFree;
    ghost var t0, was := t[..], nextInd[..];
    ghost var k := FirstFree(p, t0);
    assert k < |p| && t[p[k]] == None && t0[p[k] := Some(element)] == Fill(names, perms, t.Length, n + 1) by {
      Progress(names, perms, t.Length, n);
      var s := Turn(names, perms, t.Length, n);
    }
    assert nextInd[i] == was[i];
    NextFree(p, i, nextInd, t);
    var cand := p[nextInd[i]];
    t[cand] := Some(element);
    nextInd[i] := nextInd[i] + 1;
    assert t[..] == t0[p[k] := Some(element)];
    assert nextInd[..] == was[i := k + 1];
    SkippedAfter(was, perms, t0, i, k, element);
  }

  lemma FreeAhead(p: seq<nat>, t: Slots, k: nat)
    requires forall j :: 0 <= j < |p| ==> p[j] < |t|
    requires k == FirstFree(p, t)
    ensures TakenUpTo(k, p, t)
  {
  }

  /** Filling a slot with a name keeps what is taken; it may be the last one listed. */
  lemma StillTaken(n: nat, p: seq<nat>, t: Slots, slot: nat, element: string)
    requires slot < |t| && element != "" && n <= |p|
    requires TakenUpTo(n, p, t) || (n > 0 && TakenUpTo(n - 1, p, t) && p[n - 1] == slot)
    ensures TakenUpTo(n, p, t[slot := Some(element)])
  {
  }

  lemma SkippedAfter(was: seq<nat>, perms: seq<seq<nat>>, t: Slots, i: nat, k: nat, element: string)
    requires Skipped(was, perms, t) && i < |perms| && k < |perms[i]| && element != ""
    requires forall j :: 0 <= j < |perms[i]| ==> perms[i][j] < |t|
    requires k == FirstFree(perms[i], t)
    ensures Skipped(was[i := k + 1], perms, t[perms[i][k] := Some(element)])
  {
    var now, t' := was[i := k + 1], t[perms[i][k] := Some(element)];
    forall h | 0 <= h < |perms|
      ensures TakenUpTo(now[h], perms[h], t')
    {
      assert TakenUpTo(was[h], perms[h], t);
      if h == i {
        FreeAhead(perms[i], t, k);
      }
      StillTaken(now[h], perms[h], t, perms[i][k], element);
    }
  }

  lemma ListStep(d0: map<string, seq<string>>, d: map<string, seq<string>>, prev: seq<string>,
                 curr: seq<string>, i: nat)
    requires i < |prev| == |curr| && Lists(d0, Replacements(prev[..i], curr[..i]))
    requires var d1 := if curr[i] in d0 then d0 else d0[curr[i] := []];
      d == if curr[i] != prev[i] && prev[i] !in d1[curr[i]] then d1[curr[i] := d1[curr[i]] + [prev[i]]] else d1
    ensures Lists(d, Replacements(prev[..i + 1], curr[..i + 1]))
  {
    var r, r' := Replacements(prev[..i], curr[..i]), Replacements(prev[..i + 1], curr[..i + 1]);
    assert r' == if prev[i] != curr[i] then r + {(curr[i], prev[i])} else r by {
      assert prev[..i + 1] == prev[..i] + [prev[i]] && curr[..i + 1] == curr[..i] + [curr[i]];
    }
  }
}
