/** Stepping through the residues of a prime visits each exactly once: the arithmetic under the
    per-element slot permutations of src/mgmt/common/maglev_table.py. */
module Permutations {
  import opened Arithmetic

  ghost predicate IsPrime(m: nat) {
    m >= 2 && forall d :: 1 < d < m ==> m % d != 0
  }

  /** Euclid's lemma for a prime modulus: a product of two residues is not a multiple of it. */
  lemma {:induction false} NoZeroDivisors(m: nat, a: nat, b: nat, k: nat)
    requires IsPrime(m) && 0 < a < m && 0 < b < m
    requires a * b == m * k
    ensures false
    decreases a
  {
    if a == 1 {
      MultipleBounds(m, k);
    } else {
      Reduce(m, a, b, k);
      var r, k' := m % a, b - (m / a) * k;
      MulMonotone(r, 1, b);
      if k' < 0 {
        MulMonotone(m, k', -1);
      }
      NoZeroDivisors(m, r, b, k');
    }
  }

  lemma MultipleBounds(m: nat, k: int)
    ensures k >= 1 ==> m * k >= m
    ensures k <= 0 ==> m * k <= 0
  {
    if k >= 1 {
      MulMonotone(m, 1, k);
    } else {
      MulMonotone(m, k, 0);
    }
  }

  /** One step of Euclid's algorithm on the first factor. */
  lemma Reduce(m: nat, a: nat, b: nat, k: nat)
    requires 0 < a && a * b == m * k
    ensures (m % a) * b == m * (b - (m / a) * k)
  {
    var q := m / a;
    calc {
      (m % a) * b;
      { assert m % a == m - a * q; }
      (m - a * q) * b;
      m * b - (a * q) * b;
      { Rearrange(a, q, b); }
      m * b - q * (a * b);
      m * b - q * (m * k);
      { Rearrange(m, q, k); }
      m * b - m * q * k;
      { assert m * q * k == m * (q * k); }
      m * b - m * (q * k);
      { Distribute(m, b, q * k); }
      m * (b - q * k);
    }
  }

  /** The `i`-th slot an element prefers. */
  function Slot(m: nat, offset: nat, skip: nat, i: nat): (r: nat)
    requires m > 0
    ensures r < m
  {
    (offset + i * skip) % m
  }

  /** Each slot is the one before plus the skip. */
  lemma NextSlot(m: nat, offset: nat, skip: nat, i: nat)
    requires m > 0 && i > 0
    ensures Slot(m, offset, skip, i) == (Slot(m, offset, skip, i - 1) + skip) % m
  {
    OneStepMore(skip, i);
    var x, z := offset + (i - 1) * skip, offset + i * skip;
    StepModulo(m, x, skip, z);
    assert Slot(m, offset, skip, i) == z % m && Slot(m, offset, skip, i - 1) == x % m;
    hide *;
  }

  lemma FirstSlot(m: nat, offset: nat, skip: nat)
    requires offset < m
    ensures Slot(m, offset, skip, 0) == offset
  {
    DivModUnique(offset, m, 0, offset);
  }

  lemma OneStepMore(skip: nat, i: nat)
    requires i > 0
    ensures i * skip == (i - 1) * skip + skip
  {
  }

  lemma StepModulo(m: nat, x: nat, y: nat, z: nat)
    requires m > 0 && z == x + y
    ensures z % m == (x % m + y) % m
  {
    AddModulo(m, x, y);
  }

  lemma AddModulo(m: nat, x: nat, y: nat)
    requires m > 0
    ensures (x + y) % m == (x % m + y) % m
  {
    var z := x % m + y;
    var q, q' := x / m, z / m;
    assert x == m * q + x % m && z == m * q' + z % m;
    Distribute(m, q + q', q');
    DivModUnique(x + y, m, q + q', z % m);
  }

  lemma SlotsDistinct(m: nat, offset: nat, skip: nat, i: nat, j: nat)
    requires IsPrime(m) && 1 <= skip < m && i < j < m
    ensures Slot(m, offset, skip, i) != Slot(m, offset, skip, j)
  {
    var x, y := offset + i * skip, offset + j * skip;
    if x % m == y % m {
      SameResidue(m, x, y);
      var k := y / m - x / m;
      assert y - x == (j - i) * skip;
      MulMonotone(skip, 1, j - i);
      if k < 0 {
        MulMonotone(m, k, -1);
      }
      NoZeroDivisors(m, j - i, skip, k);
    }
  }

  lemma SameResidue(m: nat, x: nat, y: nat)
    requires m > 0 && x % m == y % m
    ensures y - x == m * (y / m - x / m)
  {
    assert x == m * (x / m) + x % m && y == m * (y / m) + y % m;
    Distribute(m, y / m, x / m);
  }

  /** A preference list over `m` slots: every slot occurs, and no slot twice. */
  ghost predicate IsPermutation(p: seq<nat>, m: nat) {
    && |p| == m
    && (forall i :: 0 <= i < m ==> p[i] < m)
    && (forall i, j :: 0 <= i < j < m ==> p[i] != p[j])
    && (forall s :: 0 <= s < m ==> s in p)
  }

  /** Pigeonhole: `m` distinct slots below `m` are all the slots. */
  lemma InjectiveIsPermutation(p: seq<nat>, m: nat)
    requires |p| == m
    requires forall i :: 0 <= i < m ==> p[i] < m
    requires forall i, j :: 0 <= i < j < m ==> p[i] != p[j]
    ensures IsPermutation(p, m)
  {
    var all, hit := Below(m), Elements(p);
    Distinct(p);
    hide Below, Elements;
    assert forall i :: 0 <= i < m ==> p[i] in all;
    assert hit <= all;
    Exhausted(hit, all);
    forall s | 0 <= s < m
      ensures s in p
    {
      assert s in all;
    }
  }

  /** A subset of the same size is the whole set. */
  lemma Exhausted(hit: set<nat>, all: set<nat>)
    requires hit <= all && |hit| == |all|
    ensures hit == all
  {
    assert all == hit + (all - hit);
    assert |all - hit| == 0;
  }

  ghost function Elements(p: seq<nat>): (r: set<nat>)
    ensures forall s: nat :: s in r <==> s in p
  {
    if p == [] then {} else Elements(p[..|p| - 1]) + {p[|p| - 1]}
  }

  lemma {:induction false} Distinct(p: seq<nat>)
    requires forall i, j :: 0 <= i < j < |p| ==> p[i] != p[j]
    ensures |Elements(p)| == |p|
    decreases |p|
  {
    if |p| > 0 {
      Distinct(p[..|p| - 1]);
    }
  }

  /** The set of all slots. */
  ghost function Below(m: nat): (r: set<nat>)
    ensures |r| == m && forall s: nat :: s in r <==> s < m
  {
    if m == 0 then {} else Below(m - 1) + {m - 1}
  }

  /** The preference list with this offset and skip. */
  function Permutation(m: nat, offset: nat, skip: nat): (p: seq<nat>)
    requires m > 0
    ensures |p| == m && forall i :: 0 <= i < m ==> p[i] == Slot(m, offset, skip, i)
  {
    seq(m, i requires 0 <= i < m => Slot(m, offset, skip, i))
  }

  /** The list starts at the offset and goes on in steps of the skip. */
  lemma StepsOfPermutation(m: nat, offset: nat, skip: nat)
    requires offset < m
    ensures var p := Permutation(m, offset, skip);
      p[0] == offset && forall i :: 0 < i < m ==> p[i] == (p[i - 1] + skip) % m
  {
    var p := Permutation(m, offset, skip);
    FirstSlot(m, offset, skip);
    hide *;
    forall i | 0 < i < m
      ensures p[i] == (p[i - 1] + skip) % m
    {
      NextSlot(m, offset, skip, i);
    }
  }

  /** For a prime table size, every offset and every skip give a permutation of the slots. */
  lemma PrimeStepsPermute(m: nat, offset: nat, skip: nat)
    requires IsPrime(m) && 1 <= skip < m
    ensures IsPermutation(Permutation(m, offset, skip), m)
  {
    var p := Permutation(m, offset, skip);
    forall i, j | 0 <= i < j < m
      ensures p[i] != p[j]
    {
      SlotsDistinct(m, offset, skip, i, j);
    }
    InjectiveIsPermutation(p, m);
  }
}
