/** Byte strings, and overwriting a stretch of one in place. */
module Bytes {
  type byte = x: int | 0 <= x < 256

  type Text = seq<byte>

  const CAPITALS := "ABCDEFGHIJKLMNOPQRSTUVWXYZ"
  const SMALL_LETTERS := "abcdefghijklmnopqrstuvwxyz"

  /** `d` is `c` with the capital letters of ASCII replaced by small ones. */
  ghost predicate SmallLetter(c: char, d: char) {
    || (exists k :: 0 <= k < 26 && c == CAPITALS[k] && d == SMALL_LETTERS[k])
    || (c !in CAPITALS && d == c)
  }

  lemma SmallLetterIs(c: char, d: char)
    requires if 'A' <= c <= 'Z' then d as int == c as int + 32 else d == c
    ensures SmallLetter(c, d)
  {
    forall k | 0 <= k < 26
      ensures CAPITALS[k] as int == 'A' as int + k && SMALL_LETTERS[k] as int == 'a' as int + k
    {
    }
    if 'A' <= c <= 'Z' {
      var k := c as int - 'A' as int;
      assert c == CAPITALS[k] && d == SMALL_LETTERS[k];
    }
  }

  datatype Option<+T> = None | Some(value: T)

  /** `s` with the bytes from `at` on replaced by `bs`. */
  function Splice(s: seq<byte>, at: nat, bs: seq<byte>): (r: seq<byte>)
    requires at + |bs| <= |s|
    ensures |r| == |s|
  {
    s[..at] + bs + s[at + |bs|..]
  }

  lemma SpliceAt(s: seq<byte>, at: nat, bs: seq<byte>)
    requires at + |bs| <= |s|
    ensures forall i :: 0 <= i < |s| ==>
      Splice(s, at, bs)[i] == if at <= i < at + |bs| then bs[i - at] else s[i]
  {
  }

  /** Writes to disjoint stretches commute. */
  lemma SpliceCommutes(s: seq<byte>, i: nat, x: seq<byte>, j: nat, y: seq<byte>)
    requires i + |x| <= j && j + |y| <= |s|
    ensures Splice(Splice(s, i, x), j, y) == Splice(Splice(s, j, y), i, x)
  {
  }

  /** A later write that covers an earlier one hides it. */
  lemma SpliceCovers(s: seq<byte>, i: nat, x: seq<byte>, j: nat, y: seq<byte>)
    requires j <= i && i + |x| <= j + |y| <= |s|
    ensures Splice(Splice(s, i, x), j, y) == Splice(s, j, y)
  {
  }

  lemma SpliceReads(s: seq<byte>, at: nat, bs: seq<byte>)
    requires at + |bs| <= |s|
    ensures Splice(s, at, bs)[at..at + |bs|] == bs
    ensures Splice(s, at, bs)[..at] == s[..at]
    ensures Splice(s, at, bs)[at + |bs|..] == s[at + |bs|..]
  {
  }

  lemma Regroup<T>(a: seq<T>, b: seq<T>, c: seq<T>)
    ensures (a + b) + c == a + (b + c)
  {
  }

  /** The first `n` elements, cut at `k`. */
  lemma CutFront<T>(t: seq<T>, k: nat, n: nat)
    requires k <= n <= |t|
    ensures t[..n] == t[..k] + t[k..][..n - k]
  {
  }

  /** Copies `bs` over the bytes of `a` that start at `at`. */
  method Overwrite(a: array<byte>, at: nat, bs: seq<byte>)
    requires at + |bs| <= a.Length
    modifies a
    ensures a[..] == Splice(old(a[..]), at, bs)
  {
    var was := a[..];
    for i := 0 to |bs|
      invariant a[..] == Splice(was, at, bs[..i])
    {
      a[at + i] := bs[i];
    }
    assert bs[..|bs|] == bs;
  }
}
