/** Small facts about products and quotients of integers. */
module Arithmetic {
  lemma MulMonotone(a: nat, x: int, y: int)
    requires x <= y
    ensures a * x <= a * y
  {
  }

  lemma Rearrange(a: int, q: int, b: int)
    ensures a * q * b == q * (a * b)
  {
  }

  lemma Distribute(m: int, x: int, y: int)
    ensures m * (x - y) == m * x - m * y
  {
  }

  lemma DivModUnique(x: nat, d: nat, q: nat, r: nat)
    requires 0 <= r < d && x == d * q + r
    ensures x / d == q && x % d == r
  {
    var q', r' := x / d, x % d;
    assert x == d * q' + r';
    Distribute(d, q, q');
    if q' < q {
      MulMonotone(d, 1, q - q');
    } else if q < q' {
      MulMonotone(d, 1, q' - q);
    }
  }

  /** How many of `n` round-robin turns come to the `i`-th of `size` takers. */
  function Share(n: nat, size: nat, i: nat): nat
    requires size > 0
  {
    n / size + if i < n % size then 1 else 0
  }

  lemma TurnOrder(n: nat, size: nat)
    requires size > 0
    ensures (n + 1) % size == if n % size + 1 == size then 0 else n % size + 1
    ensures (n + 1) / size == if n % size + 1 == size then n / size + 1 else n / size
  {
    var q, r := n / size, n % size;
    assert n == size * q + r;
    if r + 1 == size {
      assert n + 1 == size * (q + 1);
      DivModUnique(n + 1, size, q + 1, 0);
    } else {
      DivModUnique(n + 1, size, q, r + 1);
    }
  }

  /** Turn numbers within one round, and at its end. */
  lemma RoundIndex(start: nat, size: nat, i: nat)
    requires size > 0 && start % size == 0 && i <= size
    ensures (start + i) % size == if i == size then 0 else i
  {
    var q := start / size;
    assert start == size * q;
    if i == size {
      assert start + i == size * (q + 1);
      DivModUnique(start + i, size, q + 1, 0);
    } else {
      DivModUnique(start + i, size, q, i);
    }
  }

  lemma ShareStep(n: nat, size: nat, i: nat)
    requires size > 0 && i < size
    ensures Share(n + 1, size, i) == Share(n, size, i) + if n % size == i then 1 else 0
  {
    TurnOrder(n, size);
  }
}
