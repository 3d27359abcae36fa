/** The one's-complement checksum arithmetic of src/xdp/trn_kern.h, over 16-bit words loaded in
    host (little-endian) order.

    `OnesFold` is the reference: the end-around-carry sum of RFC 1071, section 1, which is the
    residue modulo 0xffff that keeps the two zeros apart. */
module Checksum {
  import opened Bytes

  const TWO_TO_THE_64: int := 0x1_0000_0000_0000_0000

  /** The 16-bit one's-complement value of a plain sum. */
  function OnesFold(x: nat): (r: nat)
    ensures r <= 0xffff
    ensures r == 0 <==> x == 0
    ensures r % 0xffff == x % 0xffff
  {
    if x == 0 then 0 else (x - 1) % 0xffff + 1
  }

  /** `OnesFold` is the only 16-bit value with its three properties. */
  lemma OnesFoldUnique(x: nat, r: nat)
    requires r <= 0xffff
    requires r == 0 <==> x == 0
    requires r % 0xffff == x % 0xffff
    ensures r == OnesFold(x)
  {
  }

  lemma OnesFoldCongruent(x: nat, y: nat)
    requires x % 0xffff == y % 0xffff
    requires x == 0 <==> y == 0
    ensures OnesFold(x) == OnesFold(y)
  {
    OnesFoldUnique(x, OnesFold(y));
  }

  /** One conditional fold keeps the residue modulo 0xffff and the distinction from zero. */
  lemma FoldStep(x: nat)
    ensures (x % 0x10000 + x / 0x10000) % 0xffff == x % 0xffff
    ensures x % 0x10000 + x / 0x10000 == 0 <==> x == 0
  {
    var q := x / 0x10000;
    assert x == x % 0x10000 + q + q * 0xffff;
  }

  /** Four conditional folds suffice for every 64-bit accumulator. */
  method FoldHelper(csum: nat) returns (r: nat)
    requires csum < TWO_TO_THE_64
    ensures r == 0xffff - OnesFold(csum)
  {
    var c: nat := csum;
    for i := 0 to 4
      invariant c % 0xffff == csum % 0xffff
      invariant c == 0 <==> csum == 0
      invariant i == 0 ==> c < TWO_TO_THE_64
      invariant i == 1 ==> c <= 0x1_0000_0000_fffe
      invariant i == 2 ==> c <= 0x1_0000_fffe
      invariant i == 3 ==> c <= 0x1_fffe
      invariant i == 4 ==> c <= 0xffff
    {
      if c / 0x10000 != 0 {
        FoldStep(c);
        c := c % 0x10000 + c / 0x10000;
      }
    }
    OnesFoldUnique(csum, c);
    r := (TWO_TO_THE_64 - 1 - c) % 0x10000;
  }

  /** The word the host loads from two adjacent bytes. */
  function Word(lo: byte, hi: byte): (w: nat)
    ensures w <= 0xffff
  {
    lo + 256 * hi
  }

  /** The two bytes the host stores for a word. */
  function WordBytes(w: nat): (bs: seq<byte>)
    requires w <= 0xffff
    ensures |bs| == 2 && Word(bs[0], bs[1]) == w
  {
    [w % 256, w / 256]
  }

  /** The sum of the words of a byte string; an odd last byte is padded with zero. */
  function WordSum(s: seq<byte>): (r: nat)
    ensures r <= 0xffff * |s|
  {
    if |s| == 0 then 0
    else if |s| == 1 then s[0]
    else Word(s[0], s[1]) + WordSum(s[2..])
  }

  /** The same sum with every word read in network (big-endian) order. */
  function NetworkSum(s: seq<byte>): nat {
    if |s| == 0 then 0
    else if |s| == 1 then 256 * s[0]
    else Word(s[1], s[0]) + NetworkSum(s[2..])
  }

  lemma {:induction false} WordSumConcat(s: seq<byte>, t: seq<byte>)
    requires |s| % 2 == 0
    ensures WordSum(s + t) == WordSum(s) + WordSum(t)
    decreases |s|
  {
    if |s| == 0 {
      assert s + t == t;
    } else {
      assert (s + t)[2..] == s[2..] + t;
      WordSumConcat(s[2..], t);
    }
  }

  lemma WordSumThree(s: seq<byte>, t: seq<byte>, u: seq<byte>)
    requires |s| % 2 == 0 && |t| % 2 == 0
    ensures WordSum(s + t + u) == WordSum(s) + WordSum(t) + WordSum(u)
  {
    WordSumConcat(s + t, u);
    WordSumConcat(s, t);
  }

  /** Overwriting whole words moves the sum by the difference of the words. */
  lemma WordSumSplice(s: seq<byte>, at: nat, bs: seq<byte>)
    requires at + |bs| <= |s| && at % 2 == 0 && |bs| % 2 == 0
    ensures WordSum(Splice(s, at, bs)) == WordSum(s) - WordSum(s[at..at + |bs|]) + WordSum(bs)
  {
    var end := at + |bs|;
    assert s == s[..at] + s[at..end] + s[end..];
    WordSumThree(s[..at], bs, s[end..]);
    WordSumThree(s[..at], s[at..end], s[end..]);
  }

  lemma AddMultiple(x: int, k: int)
    ensures (x + 0xffff * k) % 0xffff == x % 0xffff
  {
  }

  lemma AddResidues(x: int, y: int, z: int)
    requires x % 0xffff == y % 0xffff
    ensures (z + x) % 0xffff == (z + y) % 0xffff
  {
    AddMultiple(z + y, x / 0xffff - y / 0xffff);
  }

  lemma ByteOrderStep(lo: nat, hi: nat, host: nat, net: nat)
    requires (256 * host) % 0xffff == net % 0xffff
    ensures (256 * (lo + 256 * hi + host)) % 0xffff == (hi + 256 * lo + net) % 0xffff
  {
    AddMultiple(hi + 256 * lo + 256 * host, hi);
    AddResidues(256 * host, net, hi + 256 * lo);
  }

  /** The sum is the same in either byte order, up to the factor 256 (RFC 1071, section 2 (B)). */
  lemma {:induction false} ByteOrderIndependent(s: seq<byte>)
    ensures (256 * WordSum(s)) % 0xffff == NetworkSum(s) % 0xffff
    ensures WordSum(s) == 0 <==> NetworkSum(s) == 0
    decreases |s|
  {
    if |s| >= 2 {
      ByteOrderIndependent(s[2..]);
      ByteOrderStep(s[0], s[1], WordSum(s[2..]), NetworkSum(s[2..]));
    }
  }

  /** A byte string sums to one's-complement minus zero: a receiver accepts it. */
  predicate Verifies(s: seq<byte>) {
    OnesFold(WordSum(s)) == 0xffff
  }

  /** 256 is its own inverse modulo 0xffff, so scaling by it keeps the multiples. */
  lemma MultipleOf256(x: nat)
    ensures x % 0xffff == 0 <==> (256 * x) % 0xffff == 0
  {
    var q, p := x / 0xffff, (256 * x) / 0xffff;
    if x % 0xffff == 0 {
      assert 256 * x == 0xffff * (256 * q);
    }
    if (256 * x) % 0xffff == 0 {
      assert x == 0xffff * (256 * p - x);
    }
  }

  /** What the host accepts, a receiver that adds in network order accepts too. */
  lemma VerifiesInNetworkOrder(s: seq<byte>)
    ensures Verifies(s) <==> OnesFold(NetworkSum(s)) == 0xffff
  {
    hide OnesFold, WordSum, NetworkSum;
    ByteOrderIndependent(s);
    MultipleOf256(WordSum(s));
    AllOnes(WordSum(s));
    AllOnes(NetworkSum(s));
  }

  /** A sum folds to minus zero exactly if it is a positive multiple. */
  lemma AllOnes(x: nat)
    ensures OnesFold(x) == 0xffff <==> x != 0 && x % 0xffff == 0
  {
  }

  lemma WordSumOfWord(bs: seq<byte>)
    requires |bs| == 2
    ensures WordSum(bs) == Word(bs[0], bs[1])
  {
    assert WordSum(bs[2..]) == 0;
  }

  lemma CheckWordAdds(s: seq<byte>, at: nat, bs: seq<byte>)
    requires at + 2 <= |s| && at % 2 == 0 && |bs| == 2
    requires s[at..at + 2] == [0, 0]
    ensures WordSum(Splice(s, at, bs)) == WordSum(s) + Word(bs[0], bs[1])
  {
    WordSumSplice(s, at, bs);
    WordSumOfWord([0, 0]);
    WordSumOfWord(bs);
  }

  lemma Cancels(x: nat, total: nat)
    requires total == x + 0xffff - OnesFold(x)
    ensures OnesFold(total) == 0xffff
  {
    var q := x / 0xffff;
    assert x == 0xffff * q + x % 0xffff;
    var f := OnesFold(x);
    assert f == x % 0xffff || f == 0xffff + x % 0xffff;
  }

  /** The complement of the sum over a string whose check word is zero makes it verify. */
  lemma CheckWordVerifies(s: seq<byte>, at: nat, check: nat)
    requires at + 2 <= |s| && at % 2 == 0
    requires s[at..at + 2] == [0, 0]
    requires check == 0xffff - OnesFold(WordSum(s))
    ensures Verifies(Splice(s, at, WordBytes(check)))
  {
    CheckWordAdds(s, at, WordBytes(check));
    Cancels(WordSum(s), WordSum(Splice(s, at, WordBytes(check))));
  }

  /** The incremental update: complement, subtract the old 32-bit address by adding its
      complement, add the new one, fold. */
  method UpdateL4Csum(csum: nat, oldAddr: nat, newAddr: nat) returns (r: nat)
    requires csum <= 0xffff && oldAddr <= 0xffff_ffff && newAddr <= 0xffff_ffff
    ensures r == UpdatedCsum(csum, oldAddr, newAddr)
  {
    var low := (TWO_TO_THE_64 - 1 - csum) % 0x10000;
    assert low == 0xffff - csum;
    var sum := low + (0xffff_ffff - oldAddr) + newAddr;
    r := FoldHelper(sum);
  }

  /** RFC 1624, section 3, Eqn. 3, with 32-bit operands. */
  function UpdatedCsum(csum: nat, oldAddr: nat, newAddr: nat): (r: nat)
    requires csum <= 0xffff && oldAddr <= 0xffff_ffff && newAddr <= 0xffff_ffff
    ensures r <= 0xffff
  {
    0xffff - OnesFold(0xffff - csum + (0xffff_ffff - oldAddr) + newAddr)
  }

  /** The 32-bit value the host loads from four bytes. */
  function Addr(bs: seq<byte>): (r: nat)
    requires |bs| == 4
    ensures r <= 0xffff_ffff
  {
    (bs[0] as int) + 0x100 * (bs[1] as int) + 0x10000 * (bs[2] as int) + 0x100_0000 * (bs[3] as int)
  }

  /** As a one's-complement quantity a 32-bit address is the sum of its two words. */
  lemma AddrIsItsWords(bs: seq<byte>)
    requires |bs| == 4
    ensures Addr(bs) % 0xffff == WordSum(bs) % 0xffff
    ensures Addr(bs) == 0 <==> WordSum(bs) == 0
  {
    var hi := Word(bs[2], bs[3]);
    assert bs[2..][2..] == [];
    assert WordSum(bs) == Word(bs[0], bs[1]) + hi;
    assert Addr(bs) == Word(bs[0], bs[1]) + hi + 0xffff * hi;
    MultiplesApart(Addr(bs), WordSum(bs), hi);
  }

  /** The checksum of data whose own check word counts as zero. */
  function Complement(sum: nat): (r: nat)
    ensures r <= 0xffff
  {
    0xffff - OnesFold(sum)
  }

  /** Updating the correct checksum of a sum gives the correct checksum of the new sum. */
  lemma UpdateIsRecomputation(sum: nat, oldAddr: seq<byte>, newAddr: seq<byte>, rest: nat)
    requires |oldAddr| == 4 && |newAddr| == 4
    requires sum == WordSum(oldAddr) + rest && rest > 0
    ensures UpdatedCsum(Complement(sum), Addr(oldAddr), Addr(newAddr))
            == Complement(WordSum(newAddr) + rest)
  {
    AddrIsItsWords(oldAddr);
    AddrIsItsWords(newAddr);
    var o, n := Addr(oldAddr), Addr(newAddr);
    var x := OnesFold(sum) + (0xffff_ffff - o) + n;
    var y := WordSum(newAddr) + rest;
    SubtractAndAdd(sum, OnesFold(sum), o, WordSum(oldAddr), n, WordSum(newAddr), rest);
    assert x > 0 && y > 0;
    OnesFoldCongruent(x, y);
  }

  predicate SameResidue(x: nat, y: nat) {
    x % 0xffff == y % 0xffff
  }

  /** The words sum to minus zero with this check word among them. */
  predicate Accepts(sum: nat, check: nat) {
    (sum + check) % 0xffff == 0
  }

  lemma AcceptedSum(sum: nat, check: nat)
    requires sum > 0
    ensures OnesFold(sum + check) == 0xffff <==> Accepts(sum, check)
  {
    AllOnes(sum + check);
  }

  /** Updating any check word that a receiver accepts gives one that it accepts. */
  lemma UpdateIsAccepted(check: nat, sum: nat, oldAddr: seq<byte>, newAddr: seq<byte>, rest: nat, sum': nat)
    requires |oldAddr| == 4 && |newAddr| == 4 && check <= 0xffff
    requires sum == WordSum(oldAddr) + rest && sum' == WordSum(newAddr) + rest && Accepts(sum, check)
    ensures Accepts(sum', UpdatedCsum(check, Addr(oldAddr), Addr(newAddr)))
  {
    AddrIsItsWords(oldAddr);
    AddrIsItsWords(newAddr);
    var o, n := Addr(oldAddr), Addr(newAddr);
    var x := 0xffff - check + (0xffff_ffff - o) + n;
    MultiplesApart(sum, 0xffff - check, (sum + check) / 0xffff - 1);
    SubtractAndAdd(sum, 0xffff - check, o, WordSum(oldAddr), n, WordSum(newAddr), rest);
    Opposite(OnesFold(x), sum');
  }

  lemma Opposite(x: nat, y: nat)
    requires x <= 0xffff && x % 0xffff == y % 0xffff
    ensures (0xffff - x + y) % 0xffff == 0
  {
    var k := y / 0xffff - x / 0xffff;
    assert y - x == 0xffff * k;
    assert 0xffff - x + y == 0xffff * (k + 1);
  }

  /** A complement is zero exactly if the sum is a positive multiple. */
  lemma ZeroComplement(sum: nat)
    ensures Complement(sum) == 0 <==> sum != 0 && sum % 0xffff == 0
  {
  }

  lemma SubtractAndAdd(sum: nat, fold: nat, o: nat, ow: nat, n: nat, nw: nat, rest: nat)
    requires sum == ow + rest && fold % 0xffff == sum % 0xffff
    requires o % 0xffff == ow % 0xffff && n % 0xffff == nw % 0xffff
    requires o <= 0xffff_ffff
    ensures (fold + (0xffff_ffff - o) + n) % 0xffff == (nw + rest) % 0xffff
  {
    var a, b, c := fold / 0xffff - sum / 0xffff, ow / 0xffff - o / 0xffff, n / 0xffff - nw / 0xffff;
    assert fold - sum == 0xffff * a;
    assert ow - o == 0xffff * b;
    assert n - nw == 0xffff * c;
    MultiplesApart(fold + (0xffff_ffff - o) + n, nw + rest, a + b + c + 0x10001);
  }

  lemma MultiplesApart(x: nat, y: nat, k: int)
    requires x == y + 0xffff * k
    ensures x % 0xffff == y % 0xffff
  {
  }
}
