/** Sets of names in Python's `sorted` order. */
module Names {
  /** Lexicographic order of strings. */
  predicate Leq(a: string, b: string) {
    a == "" || (b != "" && (a[0] < b[0] || (a[0] == b[0] && Leq(a[1..], b[1..]))))
  }

  /** `a` is a proper front of `b`, or has the lower character at the first place where they differ. */
  ghost predicate Precedes(a: string, b: string) {
    exists k :: 0 <= k <= |a| && DiffersAt(a, b, k)
  }

  ghost predicate DiffersAt(a: string, b: string, k: nat) {
    k <= |a| && k < |b| && a[..k] == b[..k] && (k < |a| ==> a[k] < b[k])
  }

  /** The order is that of the first difference. */
  lemma {:induction false} LeqIsPrecedes(a: string, b: string)
    ensures Leq(a, b) && a != b <==> Precedes(a, b)
  {
    PrecedesHead(a, b);
    if a == "" {
      assert b != "" ==> DiffersAt(a, b, 0);
    } else if b != "" && a[0] == b[0] {
      LeqIsPrecedes(a[1..], b[1..]);
      assert a == [a[0]] + a[1..] && b == [b[0]] + b[1..];
      if Precedes(a[1..], b[1..]) {
        var k: nat :| k <= |a[1..]| && DiffersAt(a[1..], b[1..], k);
        assert a[..k + 1] == [a[0]] + a[1..][..k] && b[..k + 1] == [b[0]] + b[1..][..k];
        assert DiffersAt(a, b, k + 1);
      }
      if Precedes(a, b) {
        var k: nat :| k <= |a| && DiffersAt(a, b, k);
        assert a[1..][..k - 1] == a[..k][1..] == b[..k][1..] == b[1..][..k - 1];
        assert DiffersAt(a[1..], b[1..], k - 1);
      }
    } else if b != "" {
      if a[0] < b[0] {
        assert DiffersAt(a, b, 0);
      }
    }
  }

  lemma PrecedesHead(a: string, b: string)
    ensures Precedes(a, b) && a != "" ==> b != "" && a[0] <= b[0]
  {
    if Precedes(a, b) && a != "" {
      var k: nat :| k <= |a| && DiffersAt(a, b, k);
      if k > 0 {
        assert a[..k][0] == b[..k][0];
      }
    }
  }

  lemma LeqAntisymmetric(a: string, b: string)
    requires Leq(a, b) && Leq(b, a)
    ensures a == b
  {
    if a != "" && b != "" {
      LeqAntisymmetric(a[1..], b[1..]);
      assert a == [a[0]] + a[1..] && b == [b[0]] + b[1..];
    }
  }

  lemma LeqTransitive(a: string, b: string, c: string)
    requires Leq(a, b) && Leq(b, c)
    ensures Leq(a, c)
  {
    if a != "" && a[0] == b[0] && b[0] == c[0] {
      LeqTransitive(a[1..], b[1..], c[1..]);
    }
  }

  lemma LeqTotal(a: string, b: string)
    ensures Leq(a, b) || Leq(b, a)
  {
  }

  ghost predicate IsLeast(x: string, s: set<string>) {
    x in s && forall y :: y in s ==> Leq(x, y)
  }

  lemma LeastExists(s: set<string>)
    requires s != {}
    ensures exists x :: IsLeast(x, s)
  {
    var a :| a in s;
    var rest := s - {a};
    LeqTotal(a, a);
    if rest == {} {
      assert s == {a};
      assert IsLeast(a, s);
    } else {
      LeastExists(rest);
      var x :| IsLeast(x, rest);
      LeqTotal(a, x);
      if Leq(a, x) {
        forall y | y in rest
          ensures Leq(a, y)
        {
          LeqTransitive(a, x, y);
        }
        assert IsLeast(a, s);
      } else {
        assert IsLeast(x, s);
      }
    }
  }

  lemma LeastUnique(x: string, y: string, s: set<string>)
    requires IsLeast(x, s) && IsLeast(y, s)
    ensures x == y
  {
    LeqAntisymmetric(x, y);
  }

  ghost function Least(s: set<string>): (x: string)
    requires s != {}
    ensures IsLeast(x, s)
  {
    LeastExists(s);
    var x :| IsLeast(x, s);
    x
  }

  /** The elements in ascending order. */
  ghost function Sorted(s: set<string>): (r: seq<string>)
    ensures |r| == |s|
    decreases |s|
  {
    if s == {} then []
    else
      var x := Least(s);
      [x] + Sorted(s - {x})
  }

  /** Each element occurs, once, and the order is ascending. */
  lemma {:induction false} SortedIsSorted(s: set<string>)
    ensures var r := Sorted(s);
      && (forall x :: x in r <==> x in s)
      && (forall i, j :: 0 <= i < j < |r| ==> Leq(r[i], r[j]) && r[i] != r[j])
    decreases |s|
  {
    hide Leq;
    if s != {} {
      var x := Least(s);
      SortedIsSorted(s - {x});
      PutFirst(x, Sorted(s - {x}));
    }
  }

  lemma PutFirst(x: string, r: seq<string>)
    requires forall y :: y in r ==> Leq(x, y) && x != y
    requires forall i, j :: 0 <= i < j < |r| ==> Leq(r[i], r[j]) && r[i] != r[j]
    ensures var all := [x] + r; forall i, j :: 0 <= i < j < |all| ==> Leq(all[i], all[j]) && all[i] != all[j]
  {
    hide Leq;
    var all := [x] + r;
    forall i, j | 0 <= i < j < |all|
      ensures Leq(all[i], all[j]) && all[i] != all[j]
    {
      assert all[j] == r[j - 1];
      assert i > 0 ==> all[i] == r[i - 1];
    }
  }

  /** The order of `Sorted` by the characters alone, and how many elements precede each. */
  lemma SortedByCharacters(s: set<string>)
    ensures var r := Sorted(s);
      && (forall i, j :: 0 <= i < j < |r| ==> Precedes(r[i], r[j]))
      && (forall i :: 0 <= i < |r| ==> Preceding(r[i], s) == i)
  {
    var r := Sorted(s);
    SortedIsSorted(s);
    hide Leq, Precedes;
    forall i, j | 0 <= i < |r| && 0 <= j < |r|
      ensures Precedes(r[i], r[j]) <==> i < j
    {
      LeqIsPrecedes(r[i], r[j]);
      LeqIsPrecedes(r[j], r[i]);
      LeqTotal(r[i], r[j]);
      if Leq(r[i], r[j]) && Leq(r[j], r[i]) {
        LeqAntisymmetric(r[i], r[j]);
      }
    }
    forall i | 0 <= i < |r|
      ensures Preceding(r[i], s) == i
    {
      FrontCounts(r[..i]);
      assert (set y | y in s && Precedes(y, r[i])) == Members(r[..i]);
    }
  }

  /** How many elements of `s` precede `x`. */
  ghost function Preceding(x: string, s: set<string>): nat {
    |set y | y in s && Precedes(y, x)|
  }

  ghost function Members(r: seq<string>): set<string> {
    set x | x in r
  }

  lemma {:induction false} FrontCounts(r: seq<string>)
    requires forall i, j :: 0 <= i < j < |r| ==> r[i] != r[j]
    ensures |Members(r)| == |r|
  {
    if r != [] {
      var last := |r| - 1;
      FrontCounts(r[..last]);
      assert Members(r) == Members(r[..last]) + {r[last]};
    }
  }
}
