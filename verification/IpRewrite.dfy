/** Rewriting the addresses of an IPv4 header in place, and keeping the header checksum and the
    TCP/UDP checksum behind it right (src/xdp/trn_kern.h). Headers carry no options: they are the
    20 bytes that sizeof(struct iphdr) covers. */
module IpRewrite {
  import opened Bytes
  import opened Checksum

  const PROTO_TCP: byte := 6
  const PROTO_UDP: byte := 17

  /** A header with a new TTL and new addresses, its check word taken as `check`. */
  function HeaderWith(h: seq<byte>, ttl: byte, check: seq<byte>, saddr: seq<byte>, daddr: seq<byte>): (r: seq<byte>)
    requires |h| == 20 && |check| == 2 && |saddr| == 4 && |daddr| == 4
    ensures |r| == 20
  {
    h[..8] + [ttl] + h[9..10] + check + saddr + daddr
  }

  /** The rewritten header: only TTL, addresses and check word differ, and the check word is the
      complement of the sum of the rest. */
  function Readdressed(h: seq<byte>, ttl: byte, saddr: seq<byte>, daddr: seq<byte>): (r: seq<byte>)
    requires |h| == 20 && |saddr| == 4 && |daddr| == 4
    ensures |r| == 20
  {
    var sum := WordSum(HeaderWith(h, ttl, [0, 0], saddr, daddr));
    HeaderWith(h, ttl, WordBytes(Complement(sum)), saddr, daddr)
  }

  /** RFC 791, section 3.1: the ten words of every rewritten header sum to 0xffff, in host order
      and in network order. */
  lemma ReaddressedVerifies(h: seq<byte>, ttl: byte, saddr: seq<byte>, daddr: seq<byte>)
    requires |h| == 20 && |saddr| == 4 && |daddr| == 4
    ensures Verifies(Readdressed(h, ttl, saddr, daddr))
    ensures OnesFold(NetworkSum(Readdressed(h, ttl, saddr, daddr))) == 0xffff
  {
    hide WordSum, NetworkSum, OnesFold, Splice, WordBytes, HeaderWith, Verifies;
    var z := HeaderWith(h, ttl, [0, 0], saddr, daddr);
    var check := Complement(WordSum(z));
    CheckWordOf(h, ttl, [0, 0], saddr, daddr, WordBytes(check));
    CheckWordVerifies(z, 10, check);
    VerifiesInNetworkOrder(Readdressed(h, ttl, saddr, daddr));
  }

  lemma CheckWordOf(h: seq<byte>, ttl: byte, was: seq<byte>, saddr: seq<byte>, daddr: seq<byte>, check: seq<byte>)
    requires |h| == 20 && |was| == |check| == 2 && |saddr| == 4 && |daddr| == 4
    ensures HeaderWith(h, ttl, was, saddr, daddr)[10..12] == was
    ensures Splice(HeaderWith(h, ttl, was, saddr, daddr), 10, check) == HeaderWith(h, ttl, check, saddr, daddr)
  {
  }

  function TtlDown(ttl: byte): byte {
    (ttl + 255) % 256
  }

  /** Adds up the header's words and returns the complement of their folded sum. */
  method Ipv4Csum(a: array<byte>, ip: nat) returns (csum: nat)
    requires ip + 20 <= a.Length
    ensures csum == Complement(WordSum(a[ip..ip + 20]))
  {
    hide WordSum, Word;
    csum := 0;
    NoWords();
    ghost var h := a[ip..ip + 20];
    for i := 0 to 10
      invariant csum == WordSum(h[..2 * i])
    {
      csum := csum + Word(a[ip + 2 * i], a[ip + 2 * i + 1]);
      OneMoreWord(h, 2 * i);
    }
    assert h[..20] == h;
    csum := FoldHelper(csum);
  }

  lemma NoWords()
    ensures WordSum([]) == 0
  {
  }

  lemma OneMoreWord(h: seq<byte>, i: nat)
    requires i + 2 <= |h| && i % 2 == 0
    ensures WordSum(h[..i + 2]) == WordSum(h[..i]) + Word(h[i], h[i + 1])
  {
    assert h[..i + 2] == h[..i] + h[i..i + 2];
    WordSumConcat(h[..i], h[i..i + 2]);
    WordSumOfWord(h[i..i + 2]);
  }

  /** Writing the addresses and the check word one after the other writes the header at once. */
  lemma HeaderSteps(f: seq<byte>, ip: nat, saddr: seq<byte>, daddr: seq<byte>, check: seq<byte>)
    requires ip + 20 <= |f| && |check| == 2 && |saddr| == 4 && |daddr| == 4
    ensures Splice(Splice(Splice(f, ip + 12, saddr), ip + 16, daddr), ip + 10, check)
            == Splice(f, ip, HeaderWith(f[ip..ip + 20], f[ip + 8], check, saddr, daddr))
  {
  }

  lemma CheckStep(f: seq<byte>, ip: nat, h: seq<byte>, ttl: byte, saddr: seq<byte>, daddr: seq<byte>, check: seq<byte>)
    requires ip + 20 <= |f| && |h| == 20 && |check| == 2 && |saddr| == 4 && |daddr| == 4
    ensures var g := Splice(f, ip, HeaderWith(h, ttl, [0, 0], saddr, daddr));
      && g[ip..ip + 20] == HeaderWith(h, ttl, [0, 0], saddr, daddr)
      && Splice(g, ip + 10, check) == Splice(f, ip, HeaderWith(h, ttl, check, saddr, daddr))
  {
  }

  /** With both addresses written, zeroing, summing and storing the check word finishes the job. */
  method FinishHeader(a: array<byte>, ip: nat, ghost g: seq<byte>, saddr: seq<byte>, daddr: seq<byte>)
    requires ip + 20 <= a.Length == |g| && |saddr| == 4 && |daddr| == 4
    requires a[..] == Splice(Splice(g, ip + 12, saddr), ip + 16, daddr)
    modifies a
    ensures a[..] == Splice(g, ip, Readdressed(g[ip..ip + 20], g[ip + 8], saddr, daddr))
  {
    Overwrite(a, ip + 10, [0, 0]);
    HeaderSteps(g, ip, saddr, daddr, [0, 0]);
    CheckStep(g, ip, g[ip..ip + 20], g[ip + 8], saddr, daddr, [0, 0]);
    assert a[ip..ip + 20] == a[..][ip..ip + 20];
    var csum := Ipv4Csum(a, ip);
    Overwrite(a, ip + 10, WordBytes(csum));
    CheckStep(g, ip, g[ip..ip + 20], g[ip + 8], saddr, daddr, WordBytes(csum));
  }

  /** Decrements the TTL, sets both addresses and recomputes the check word. */
  method SetSrcDstIpCsum(a: array<byte>, ip: nat, saddr: seq<byte>, daddr: seq<byte>)
    requires ip + 20 <= a.Length && |saddr| == 4 && |daddr| == 4
    modifies a
    ensures a[..] == Splice(old(a[..]), ip, Readdressed(old(a[ip..ip + 20]), TtlDown(old(a[ip + 8])), saddr, daddr))
  {
    ghost var f := a[..];
    var ttl := TtlDown(a[ip + 8]);
    a[ip + 8] := ttl;
    ghost var g := Splice(f, ip + 8, [ttl]);
    assert a[..] == g;
    Overwrite(a, ip + 12, saddr);
    Overwrite(a, ip + 16, daddr);
    FinishHeader(a, ip, g, saddr, daddr);
    TtlStep(f, ip, ttl, saddr, daddr);
  }

  lemma TtlStep(f: seq<byte>, ip: nat, ttl: byte, saddr: seq<byte>, daddr: seq<byte>)
    requires ip + 20 <= |f| && |saddr| == 4 && |daddr| == 4
    ensures var g := Splice(f, ip + 8, [ttl]);
      Splice(g, ip, Readdressed(g[ip..ip + 20], g[ip + 8], saddr, daddr))
      == Splice(f, ip, Readdressed(f[ip..ip + 20], ttl, saddr, daddr))
  {
    var g := Splice(f, ip + 8, [ttl]);
    var h, h' := g[ip..ip + 20], f[ip..ip + 20];
    SpliceAt(f, ip + 8, [ttl]);
    assert forall i :: 0 <= i < 20 && i != 8 ==> h[i] == h'[i];
    HeaderWithoutTtl(h, h', ttl, saddr, daddr);
    SpliceCovers(f, ip + 8, [ttl], ip, Readdressed(h', ttl, saddr, daddr));
  }

  lemma HeaderWithoutTtl(h: seq<byte>, h': seq<byte>, ttl: byte, saddr: seq<byte>, daddr: seq<byte>)
    requires |h| == |h'| == 20 && |saddr| == 4 && |daddr| == 4
    requires h[..8] == h'[..8] && h[9..] == h'[9..]
    ensures Readdressed(h, ttl, saddr, daddr) == Readdressed(h', ttl, saddr, daddr)
  {
    assert h[9..10] == h[9..][..1] == h'[9..][..1] == h'[9..10];
  }

  /** Where the transport check word of the packet behind the header stands, if the header was
      parsed and lies inside the packet. */
  function CheckField(proto: byte, udp: bool, tcp: bool, ip: nat, length: nat): (r: Option<nat>)
    ensures r.Some? ==> ip + 20 <= r.value && r.value + 2 <= length
  {
    if proto == PROTO_UDP && udp && ip + 28 <= length then Some(ip + 26)
    else if proto == PROTO_TCP && tcp && ip + 40 <= length then Some(ip + 36)
    else None
  }

  /** A check word after one 32-bit address of what it covers was exchanged. */
  function Adjusted(check: seq<byte>, oldAddr: seq<byte>, newAddr: seq<byte>): (r: seq<byte>)
    requires |check| == 2 && |oldAddr| == 4 && |newAddr| == 4
    ensures |r| == 2
  {
    if newAddr == oldAddr then check
    else WordBytes(UpdatedCsum(Word(check[0], check[1]), Addr(oldAddr), Addr(newAddr)))
  }

  /** The packet with the check word at `field` adjusted for one address. */
  function WithCheck(f: seq<byte>, field: Option<nat>, oldAddr: seq<byte>, newAddr: seq<byte>): (r: seq<byte>)
    requires field.Some? ==> field.value + 2 <= |f|
    requires |oldAddr| == 4 && |newAddr| == 4
    ensures |r| == |f|
  {
    match field
    case None => f
    case Some(c) => Splice(f, c, Adjusted(f[c..c + 2], oldAddr, newAddr))
  }

  lemma CheckWritten(f: seq<byte>, field: nat, csum: nat, oldAddr: seq<byte>, newAddr: seq<byte>)
    requires field + 2 <= |f| && |oldAddr| == 4 && |newAddr| == 4 && newAddr != oldAddr
    requires csum == UpdatedCsum(Word(f[field], f[field + 1]), Addr(oldAddr), Addr(newAddr))
    ensures var g := Splice(f, field, WordBytes(csum));
      g == WithCheck(f, Some(field), oldAddr, newAddr) && forall i :: 0 <= i < field ==> g[i] == f[i]
  {
  }

  lemma NothingToAdjust(f: seq<byte>, field: Option<nat>, oldAddr: seq<byte>, newAddr: seq<byte>)
    requires (field.Some? ==> field.value + 2 <= |f|) && |oldAddr| == 4 && |newAddr| == 4
    ensures field == None || newAddr == oldAddr ==> WithCheck(f, field, oldAddr, newAddr) == f
  {
  }

  method InnerL4CsumUpdate(a: array<byte>, ip: nat, udp: bool, tcp: bool, oldAddr: seq<byte>, newAddr: seq<byte>)
    requires ip + 20 <= a.Length && |oldAddr| == 4 && |newAddr| == 4
    modifies a
    ensures a[..] == WithCheck(old(a[..]), CheckField(old(a[ip + 9]), udp, tcp, ip, a.Length), oldAddr, newAddr)
  {
    hide Addr, WordBytes, WithCheck, Splice;
    NothingToAdjust(a[..], CheckField(a[ip + 9], udp, tcp, ip, a.Length), oldAddr, newAddr);
    if newAddr == oldAddr {
      return;
    }
    if a[ip + 9] == PROTO_UDP {
      if !udp {
        return;
      }
      if ip + 28 > a.Length {
        return;
      }
      var cs := UpdateL4Csum(Word(a[ip + 26], a[ip + 27]), Addr(oldAddr), Addr(newAddr));
      CheckWritten(a[..], ip + 26, cs, oldAddr, newAddr);
      Overwrite(a, ip + 26, WordBytes(cs));
      assert a[..][ip + 9] == PROTO_UDP;
    }
    if a[ip + 9] == PROTO_TCP {
      if !tcp {
        return;
      }
      if ip + 40 > a.Length {
        return;
      }
      var cs := UpdateL4Csum(Word(a[ip + 36], a[ip + 37]), Addr(oldAddr), Addr(newAddr));
      CheckWritten(a[..], ip + 36, cs, oldAddr, newAddr);
      Overwrite(a, ip + 36, WordBytes(cs));
    }
  }

  /** The packet with its inner addresses exchanged: the header is rewritten and the transport
      check word is adjusted twice. */
  function InnerReaddressed(f: seq<byte>, ip: nat, field: Option<nat>, saddr: seq<byte>,
                            daddr: seq<byte>): (r: seq<byte>)
    requires ip + 20 <= |f| && |saddr| == 4 && |daddr| == 4
    requires field.Some? ==> ip + 20 <= field.value && field.value + 2 <= |f|
    ensures |r| == |f|
  {
    var g := WithCheck(f, field, f[ip + 12..ip + 16], saddr);
    var g := WithCheck(g, field, f[ip + 16..ip + 20], daddr);
    Splice(g, ip, Readdressed(f[ip..ip + 20], f[ip + 8], saddr, daddr))
  }

  method SetSrcDstInnerIpCsum(a: array<byte>, ip: nat, udp: bool, tcp: bool, saddr: seq<byte>, daddr: seq<byte>)
    requires |saddr| == 4 && |daddr| == 4
    modifies a
    ensures ip + 20 > a.Length ==> a[..] == old(a[..])
    ensures ip + 20 <= a.Length ==>
      a[..] == InnerReaddressed(old(a[..]), ip, CheckField(old(a[ip + 9]), udp, tcp, ip, a.Length), saddr, daddr)
  {
    if ip + 20 > a.Length {
      return;
    }
    ghost var f := a[..];
    ghost var field := CheckField(a[ip + 9], udp, tcp, ip, a.Length);
    var oldSaddr, oldDaddr := a[ip + 12..ip + 16], a[ip + 16..ip + 20];
    Overwrite(a, ip + 12, saddr);
    InnerL4CsumUpdate(a, ip, udp, tcp, oldSaddr, saddr);
    WithCheckCommutes(f, field, ip + 12, saddr, oldSaddr, saddr);
    ghost var g1 := WithCheck(f, field, oldSaddr, saddr);
    WithCheckKeepsHeader(f, field, ip, oldSaddr, saddr);
    Overwrite(a, ip + 16, daddr);
    assert a[ip + 9] == g1[ip..ip + 20][9];
    InnerL4CsumUpdate(a, ip, udp, tcp, oldDaddr, daddr);
    WithCheckCommutes(Splice(g1, ip + 12, saddr), field, ip + 16, daddr, oldDaddr, daddr);
    WithCheckCommutes(g1, field, ip + 12, saddr, oldDaddr, daddr);
    ghost var g2 := WithCheck(g1, field, oldDaddr, daddr);
    WithCheckKeepsHeader(g1, field, ip, oldDaddr, daddr);
    assert g2[ip + 8] == g2[ip..ip + 20][8];
    FinishHeader(a, ip, g2, saddr, daddr);
  }

  lemma WithCheckKeepsHeader(f: seq<byte>, field: Option<nat>, ip: nat, oldAddr: seq<byte>, newAddr: seq<byte>)
    requires ip + 20 <= |f| && |oldAddr| == 4 && |newAddr| == 4
    requires field.Some? ==> ip + 20 <= field.value && field.value + 2 <= |f|
    ensures WithCheck(f, field, oldAddr, newAddr)[ip..ip + 20] == f[ip..ip + 20]
  {
  }

  lemma WithCheckCommutes(f: seq<byte>, field: Option<nat>, at: nat, bs: seq<byte>, oldAddr: seq<byte>,
                          newAddr: seq<byte>)
    requires at + |bs| <= |f| && |oldAddr| == 4 && |newAddr| == 4
    requires field.Some? ==> at + |bs| <= field.value && field.value + 2 <= |f|
    ensures WithCheck(Splice(f, at, bs), field, oldAddr, newAddr)
      == Splice(WithCheck(f, field, oldAddr, newAddr), at, bs)
  {
    if field.Some? {
      var c := field.value;
      assert Splice(f, at, bs)[c..c + 2] == f[c..c + 2];
      SpliceCommutes(f, at, bs, c, Adjusted(f[c..c + 2], oldAddr, newAddr));
    }
  }

  /** The words a transport checksum covers besides the segment (RFC 793, section 3.1, and RFC 768). */
  function PseudoHeader(saddr: seq<byte>, daddr: seq<byte>, proto: byte, length: nat): (r: seq<byte>)
    requires |saddr| == 4 && |daddr| == 4 && length <= 0xffff
    ensures |r| == 12
  {
    saddr + daddr + [0, proto, length / 256, length % 256]
  }

  /** The checksum computed from scratch over pseudo-header and segment, for a check word at `k`. */
  function L4Checksum(saddr: seq<byte>, daddr: seq<byte>, proto: byte, segment: seq<byte>, k: nat): (r: nat)
    requires |saddr| == 4 && |daddr| == 4 && k + 2 <= |segment| <= 0xffff
    ensures r <= 0xffff
  {
    Complement(WordSum(PseudoHeader(saddr, daddr, proto, |segment|) + Splice(segment, k, [0, 0])))
  }

  /** The `length` bytes behind the header at `ip` are a segment of this protocol whose check word,
      at `k`, is the one computed from scratch. */
  predicate L4Correct(f: seq<byte>, ip: nat, proto: byte, length: nat, k: nat)
    requires k + 2 <= length <= 0xffff && ip + 20 + length <= |f|
  {
    Word(f[ip + 20 + k], f[ip + 21 + k])
    == L4Checksum(f[ip + 12..ip + 16], f[ip + 16..ip + 20], proto, f[ip + 20..ip + 20 + length], k)
  }

  /** A TCP segment has its check word in bytes 16 and 17, a UDP datagram in bytes 6 and 7. */
  predicate TcpCorrect(f: seq<byte>, ip: nat, length: nat)
    requires 20 <= length <= 0xffff && ip + 20 + length <= |f|
  {
    L4Correct(f, ip, 6, length, 16)
  }

  predicate UdpCorrect(f: seq<byte>, ip: nat, length: nat)
    requires 8 <= length <= 0xffff && ip + 20 + length <= |f|
  {
    L4Correct(f, ip, 17, length, 6)
  }

  /** The sum under a check word without the addresses. */
  ghost function Rest(proto: byte, segment: seq<byte>, k: nat): (r: nat)
    requires proto > 0 && k + 2 <= |segment| <= 0xffff
    ensures r > 0
  {
    var tail: seq<byte> := [0, proto, |segment| / 256, |segment| % 256];
    WordSum(tail) + WordSum(Splice(segment, k, [0, 0]))
  }

  lemma L4Sum(saddr: seq<byte>, daddr: seq<byte>, proto: byte, segment: seq<byte>, k: nat)
    requires |saddr| == 4 && |daddr| == 4 && proto > 0 && k + 2 <= |segment| <= 0xffff
    ensures L4Checksum(saddr, daddr, proto, segment, k)
      == Complement(WordSum(saddr) + WordSum(daddr) + Rest(proto, segment, k))
  {
    hide Splice;
    var tail: seq<byte> := [0, proto, |segment| / 256, |segment| % 256];
    WordSumConcat(saddr + daddr + tail, Splice(segment, k, [0, 0]));
    WordSumThree(saddr, daddr, tail);
  }

  lemma OneUpdate(check: seq<byte>, oldAddr: seq<byte>, newAddr: seq<byte>, rest: nat, sum: nat, sum': nat)
    requires |check| == 2 && |oldAddr| == |newAddr| == 4 && rest > 0
    requires sum == WordSum(oldAddr) + rest && sum' == WordSum(newAddr) + rest
    requires Word(check[0], check[1]) == Complement(sum)
    ensures var c := Adjusted(check, oldAddr, newAddr);
      Word(c[0], c[1]) == Complement(sum')
  {
    if newAddr != oldAddr {
      UpdateIsRecomputation(sum, oldAddr, newAddr, rest);
    }
  }

  /** Both adjustments together exchange the addresses in the sum under the check word. */
  lemma TwoUpdates(osaddr: seq<byte>, odaddr: seq<byte>, saddr: seq<byte>, daddr: seq<byte>, check: seq<byte>,
                   rest: nat, sum: nat, sum': nat)
    requires |osaddr| == |odaddr| == |saddr| == |daddr| == 4 && |check| == 2 && rest > 0
    requires sum == WordSum(osaddr) + WordSum(odaddr) + rest && sum' == WordSum(saddr) + WordSum(daddr) + rest
    requires Word(check[0], check[1]) == Complement(sum)
    ensures var c := Adjusted(Adjusted(check, osaddr, saddr), odaddr, daddr);
      Word(c[0], c[1]) == Complement(sum')
  {
    hide *;
    var os, od, s, d := WordSum(osaddr), WordSum(odaddr), WordSum(saddr), WordSum(daddr);
    OneUpdate(check, osaddr, saddr, od + rest, sum, s + od + rest);
    OneUpdate(Adjusted(check, osaddr, saddr), odaddr, daddr, s + rest, s + od + rest, sum');
  }

  lemma TwoChecks(f: seq<byte>, c: nat, old1: seq<byte>, new1: seq<byte>, old2: seq<byte>, new2: seq<byte>)
    requires c + 2 <= |f| && |old1| == |new1| == |old2| == |new2| == 4
    ensures WithCheck(WithCheck(f, Some(c), old1, new1), Some(c), old2, new2)
            == Splice(f, c, Adjusted(Adjusted(f[c..c + 2], old1, new1), old2, new2))
  {
    SpliceReads(f, c, Adjusted(f[c..c + 2], old1, new1));
  }

  /** What the rewritten packet holds where, and that it holds nothing else new. */
  lemma FieldsOf(f: seq<byte>, ip: nat, length: nat, k: nat, h: seq<byte>, check: seq<byte>)
    requires k + 2 <= length && ip + 20 + length <= |f| && |h| == 20 && |check| == 2
    ensures var g := Splice(Splice(f, ip + 20 + k, check), ip, h);
      && g[ip..ip + 20] == h
      && g[ip + 12..ip + 16] == h[12..16] && g[ip + 16..ip + 20] == h[16..20]
      && g[ip + 20 + k..ip + 22 + k] == check
      && g[ip + 20..ip + 20 + length][..k] == f[ip + 20..ip + 20 + length][..k]
      && g[ip + 20..ip + 20 + length][k + 2..] == f[ip + 20..ip + 20 + length][k + 2..]
      && (forall i :: 0 <= i < |f| && !(ip <= i < ip + 20) && !(ip + 20 + k <= i < ip + 22 + k) ==> g[i] == f[i])
  {
    var m := Splice(f, ip + 20 + k, check);
    var g := Splice(m, ip, h);
    SpliceAt(f, ip + 20 + k, check);
    SpliceAt(m, ip, h);
    assert g[ip + 20 + k..ip + 22 + k] == [g[ip + 20 + k], g[ip + 21 + k]];
    var s, t := g[ip + 20..ip + 20 + length], f[ip + 20..ip + 20 + length];
    assert forall i :: 0 <= i < length && i != k && i != k + 1 ==> s[i] == t[i];
  }

  lemma HeaderKeeps(f: seq<byte>, ip: nat, saddr: seq<byte>, daddr: seq<byte>)
    requires ip + 20 <= |f| && |saddr| == 4 && |daddr| == 4
    ensures var h := Readdressed(f[ip..ip + 20], f[ip + 8], saddr, daddr);
      && h[12..16] == saddr && h[16..20] == daddr
      && (forall i :: 0 <= i < 10 ==> h[i] == f[ip + i])
  {
  }

  /** The checksum does not depend on the check word the segment holds. */
  lemma SameSegment(s: seq<byte>, t: seq<byte>, k: nat)
    requires k + 2 <= |s| == |t| && s[..k] == t[..k] && s[k + 2..] == t[k + 2..]
    ensures Splice(s, k, [0, 0]) == Splice(t, k, [0, 0])
  {
  }

  lemma InnerShape(f: seq<byte>, ip: nat, k: nat, saddr: seq<byte>, daddr: seq<byte>)
    requires ip + 22 + k <= |f| && |saddr| == 4 && |daddr| == 4
    ensures var c := ip + 20 + k;
      var check := Adjusted(Adjusted(f[c..c + 2], f[ip + 12..ip + 16], saddr), f[ip + 16..ip + 20], daddr);
      InnerReaddressed(f, ip, Some(c), saddr, daddr)
      == Splice(Splice(f, c, check), ip, Readdressed(f[ip..ip + 20], f[ip + 8], saddr, daddr))
  {
    hide Splice, Adjusted, WithCheck, Readdressed;
    TwoChecks(f, ip + 20 + k, f[ip + 12..ip + 16], saddr, f[ip + 16..ip + 20], daddr);
  }

  /** What the rewrite leaves where when the check word stands at `k` behind the header. */
  lemma InnerFields(f: seq<byte>, ip: nat, length: nat, k: nat, saddr: seq<byte>, daddr: seq<byte>)
    requires k + 2 <= length <= 0xffff && ip + 20 + length <= |f| && |saddr| == 4 && |daddr| == 4
    ensures var g := InnerReaddressed(f, ip, Some(ip + 20 + k), saddr, daddr);
      && g[ip..ip + 20] == Readdressed(f[ip..ip + 20], f[ip + 8], saddr, daddr)
      && g[ip + 12..ip + 16] == saddr && g[ip + 16..ip + 20] == daddr
      && g[ip + 20 + k..ip + 22 + k]
         == Adjusted(Adjusted(f[ip + 20 + k..ip + 22 + k], f[ip + 12..ip + 16], saddr), f[ip + 16..ip + 20], daddr)
      && Splice(g[ip + 20..ip + 20 + length], k, [0, 0]) == Splice(f[ip + 20..ip + 20 + length], k, [0, 0])
      && (forall i :: 0 <= i < |f| && !(ip <= i < ip + 20) && !(ip + 20 + k <= i < ip + 22 + k) ==> g[i] == f[i])
  {
    hide *;
    var c := ip + 20 + k;
    var osaddr, odaddr := f[ip + 12..ip + 16], f[ip + 16..ip + 20];
    var h := Readdressed(f[ip..ip + 20], f[ip + 8], saddr, daddr);
    var check' := Adjusted(Adjusted(f[c..c + 2], osaddr, saddr), odaddr, daddr);
    var g := InnerReaddressed(f, ip, Some(c), saddr, daddr);
    InnerShape(f, ip, k, saddr, daddr);
    FieldsOf(f, ip, length, k, h, check');
    HeaderKeeps(f, ip, saddr, daddr);
    SameSegment(g[ip + 20..ip + 20 + length], f[ip + 20..ip + 20 + length], k);
  }

  /** If a transport check word was right, then after any rewrite of the addresses it is again exactly
      the one computed from scratch, the header verifies, and nothing but the addresses and the two
      check words changed. */
  lemma L4StaysCorrect(f: seq<byte>, ip: nat, proto: byte, length: nat, k: nat, saddr: seq<byte>, daddr: seq<byte>)
    requires k + 2 <= length <= 0xffff && ip + 20 + length <= |f| && proto > 0
    requires |saddr| == 4 && |daddr| == 4 && L4Correct(f, ip, proto, length, k)
    ensures var g := InnerReaddressed(f, ip, Some(ip + 20 + k), saddr, daddr);
      && L4Correct(g, ip, proto, length, k)
      && Verifies(g[ip..ip + 20])
      && g[ip + 12..ip + 16] == saddr && g[ip + 16..ip + 20] == daddr
      && (forall i :: 0 <= i < |f| && !(ip + 10 <= i < ip + 20) && !(ip + 20 + k <= i < ip + 22 + k) ==> g[i] == f[i])
  {
    hide WordSum, Splice, Complement, L4Checksum, Adjusted, InnerReaddressed, Readdressed, Verifies, Rest;
    var c := ip + 20 + k;
    var osaddr, odaddr, check := f[ip + 12..ip + 16], f[ip + 16..ip + 20], f[c..c + 2];
    var g := InnerReaddressed(f, ip, Some(c), saddr, daddr);
    InnerFields(f, ip, length, k, saddr, daddr);
    var was, now := f[ip + 20..ip + 20 + length], g[ip + 20..ip + 20 + length];
    RestOfZeroed(proto, was, now, k);
    L4Sum(osaddr, odaddr, proto, was, k);
    L4Sum(saddr, daddr, proto, now, k);
    assert check[0] == f[c] && check[1] == f[c + 1];
    var rest := Rest(proto, was, k);
    TwoUpdates(osaddr, odaddr, saddr, daddr, check, rest, WordSum(osaddr) + WordSum(odaddr) + rest,
               WordSum(saddr) + WordSum(daddr) + rest);
    var check' := g[c..c + 2];
    assert check'[0] == g[c] && check'[1] == g[c + 1];
    ReaddressedVerifies(f[ip..ip + 20], f[ip + 8], saddr, daddr);
    HeaderKeeps(f, ip, saddr, daddr);
    forall i | ip <= i < ip + 10
      ensures g[i] == f[i]
    {
      assert g[i] == g[ip..ip + 20][i - ip];
    }
  }

  /** For a TCP packet that is the check word the program adjusts. */
  lemma TcpStaysCorrect(f: seq<byte>, ip: nat, length: nat, saddr: seq<byte>, daddr: seq<byte>)
    requires 20 <= length <= 0xffff && ip + 20 + length <= |f|
    requires |saddr| == 4 && |daddr| == 4 && f[ip + 9] == 6
    requires TcpCorrect(f, ip, length)
    ensures var g := InnerReaddressed(f, ip, CheckField(f[ip + 9], false, true, ip, |f|), saddr, daddr);
      && TcpCorrect(g, ip, length)
      && Verifies(g[ip..ip + 20])
      && g[ip + 12..ip + 16] == saddr && g[ip + 16..ip + 20] == daddr
      && (forall i :: 0 <= i < |f| && !(ip + 10 <= i < ip + 20) && !(ip + 36 <= i < ip + 38) ==> g[i] == f[i])
  {
    L4StaysCorrect(f, ip, 6, length, 16, saddr, daddr);
  }

  /** The same for UDP, if the sender computed a checksum other than zero. */
  lemma UdpStaysCorrect(f: seq<byte>, ip: nat, length: nat, saddr: seq<byte>, daddr: seq<byte>)
    requires 8 <= length <= 0xffff && ip + 20 + length <= |f|
    requires |saddr| == 4 && |daddr| == 4 && f[ip + 9] == 17
    requires UdpCorrect(f, ip, length)
    ensures var g := InnerReaddressed(f, ip, CheckField(f[ip + 9], true, false, ip, |f|), saddr, daddr);
      && UdpCorrect(g, ip, length)
      && Verifies(g[ip..ip + 20])
      && g[ip + 12..ip + 16] == saddr && g[ip + 16..ip + 20] == daddr
      && (forall i :: 0 <= i < |f| && !(ip + 10 <= i < ip + 20) && !(ip + 26 <= i < ip + 28) ==> g[i] == f[i])
  {
    L4StaysCorrect(f, ip, 17, length, 6, saddr, daddr);
  }

  /** A receiver accepts a segment whose words, with those of the pseudo-header, sum to 0xffff. */
  predicate L4Accepted(f: seq<byte>, ip: nat, proto: byte, length: nat)
    requires length <= 0xffff && ip + 20 + length <= |f|
  {
    Verifies(PseudoHeader(f[ip + 12..ip + 16], f[ip + 16..ip + 20], proto, length) + f[ip + 20..ip + 20 + length])
  }

  /** The sum a receiver computes is that under the check word and the check word. */
  lemma L4Total(saddr: seq<byte>, daddr: seq<byte>, proto: byte, segment: seq<byte>, k: nat, sum: nat, check: nat)
    requires |saddr| == 4 && |daddr| == 4 && proto > 0 && k + 2 <= |segment| <= 0xffff && k % 2 == 0
    requires sum == WordSum(saddr) + WordSum(daddr) + Rest(proto, segment, k)
    requires check == Word(segment[k], segment[k + 1])
    ensures Verifies(PseudoHeader(saddr, daddr, proto, |segment|) + segment) <==> Accepts(sum, check)
  {
    hide *;
    L4Words(saddr, daddr, proto, segment, k);
    AcceptedSum(sum, check);
    VerifiesIs(PseudoHeader(saddr, daddr, proto, |segment|) + segment, sum + check);
  }

  lemma VerifiesIs(s: seq<byte>, sum: nat)
    requires WordSum(s) == sum
    ensures Verifies(s) <==> OnesFold(sum) == 0xffff
  {
  }

  lemma L4Words(saddr: seq<byte>, daddr: seq<byte>, proto: byte, segment: seq<byte>, k: nat)
    requires |saddr| == 4 && |daddr| == 4 && proto > 0 && k + 2 <= |segment| <= 0xffff && k % 2 == 0
    ensures WordSum(PseudoHeader(saddr, daddr, proto, |segment|) + segment)
      == WordSum(saddr) + WordSum(daddr) + Rest(proto, segment, k) + Word(segment[k], segment[k + 1])
  {
    WordSumConcat(PseudoHeader(saddr, daddr, proto, |segment|), segment);
    WordSumThree(saddr, daddr, [0, proto, |segment| / 256, |segment| % 256]);
    CheckWordApart(segment, k);
    hide Splice, WordSum, Word;
  }

  lemma CheckWordApart(segment: seq<byte>, k: nat)
    requires k + 2 <= |segment| && k % 2 == 0
    ensures WordSum(segment) == WordSum(Splice(segment, k, [0, 0])) + Word(segment[k], segment[k + 1])
  {
    hide Splice, WordSum, Word;
    WordSumSplice(segment, k, [0, 0]);
    assert segment[k..k + 2] == [segment[k], segment[k + 1]];
    WordSumOfWord(segment[k..k + 2]);
    WordSumOfWord([0, 0]);
    ZeroWord();
  }

  lemma ZeroWord()
    ensures Word(0, 0) == 0
  {
  }

  /** What a receiver accepts it accepts after any rewrite of the addresses, also if a computed zero
      was sent as 0xffff. */
  lemma L4StaysAccepted(f: seq<byte>, ip: nat, proto: byte, length: nat, k: nat, saddr: seq<byte>, daddr: seq<byte>)
    requires k % 2 == 0 && k + 2 <= length <= 0xffff && ip + 20 + length <= |f| && proto > 0
    requires |saddr| == 4 && |daddr| == 4 && L4Accepted(f, ip, proto, length)
    ensures L4Accepted(InnerReaddressed(f, ip, Some(ip + 20 + k), saddr, daddr), ip, proto, length)
  {
    hide WordSum, Splice, Verifies, Accepts, Adjusted, InnerReaddressed, Readdressed, PseudoHeader, Rest, Word;
    var c := ip + 20 + k;
    var osaddr, odaddr, check := f[ip + 12..ip + 16], f[ip + 16..ip + 20], f[c..c + 2];
    var g := InnerReaddressed(f, ip, Some(c), saddr, daddr);
    var was, now := f[ip + 20..ip + 20 + length], g[ip + 20..ip + 20 + length];
    InnerFields(f, ip, length, k, saddr, daddr);
    RestOfZeroed(proto, was, now, k);
    var rest := Rest(proto, was, k);
    assert check == [was[k], was[k + 1]];
    var sum, sum' := WordSum(osaddr) + WordSum(odaddr) + rest, WordSum(saddr) + WordSum(daddr) + rest;
    L4Total(osaddr, odaddr, proto, was, k, sum, Word(was[k], was[k + 1]));
    TwoAccepted(osaddr, odaddr, saddr, daddr, check, rest, sum, sum');
    assert g[c..c + 2] == [now[k], now[k + 1]];
    L4Total(saddr, daddr, proto, now, k, sum', Word(now[k], now[k + 1]));
  }

  lemma RestOfZeroed(proto: byte, s: seq<byte>, t: seq<byte>, k: nat)
    requires proto > 0 && k + 2 <= |s| == |t| <= 0xffff && Splice(s, k, [0, 0]) == Splice(t, k, [0, 0])
    ensures Rest(proto, s, k) == Rest(proto, t, k)
  {
  }

  lemma OneAccepted(check: seq<byte>, oldAddr: seq<byte>, newAddr: seq<byte>, rest: nat, sum: nat, sum': nat)
    requires |check| == 2 && |oldAddr| == |newAddr| == 4
    requires sum == WordSum(oldAddr) + rest && sum' == WordSum(newAddr) + rest
    requires Accepts(sum, Word(check[0], check[1]))
    ensures var c := Adjusted(check, oldAddr, newAddr);
      Accepts(sum', Word(c[0], c[1]))
  {
    if newAddr != oldAddr {
      UpdateIsAccepted(Word(check[0], check[1]), sum, oldAddr, newAddr, rest, sum');
    }
  }

  lemma TwoAccepted(osaddr: seq<byte>, odaddr: seq<byte>, saddr: seq<byte>, daddr: seq<byte>, check: seq<byte>,
                    rest: nat, sum: nat, sum': nat)
    requires |osaddr| == |odaddr| == |saddr| == |daddr| == 4 && |check| == 2
    requires sum == WordSum(osaddr) + WordSum(odaddr) + rest && sum' == WordSum(saddr) + WordSum(daddr) + rest
    requires Accepts(sum, Word(check[0], check[1]))
    ensures var c := Adjusted(Adjusted(check, osaddr, saddr), odaddr, daddr);
      Accepts(sum', Word(c[0], c[1]))
  {
    hide *;
    var os, od, s, d := WordSum(osaddr), WordSum(odaddr), WordSum(saddr), WordSum(daddr);
    OneAccepted(check, osaddr, saddr, od + rest, sum, s + od + rest);
    OneAccepted(Adjusted(check, osaddr, saddr), odaddr, daddr, s + rest, s + od + rest, sum');
  }

  /** RFC 768: a check word of zero says that the sender computed none. It stays zero exactly if the new
      addresses have the same sum as the old ones, modulo 0xffff. */
  lemma NoChecksumStays(check: seq<byte>, osaddr: seq<byte>, odaddr: seq<byte>, saddr: seq<byte>, daddr: seq<byte>,
                        was: nat, now: nat)
    requires |osaddr| == |odaddr| == |saddr| == |daddr| == 4 && check == [0, 0]
    requires was == WordSum(osaddr) + WordSum(odaddr) && now == WordSum(saddr) + WordSum(daddr)
    ensures Adjusted(Adjusted(check, osaddr, saddr), odaddr, daddr) == [0, 0] <==> SameResidue(now, was)
  {
    hide *;
    var rest, sum, sum' := ZeroSum(was, now);
    ZeroBytes(check);
    TwoUpdates(osaddr, odaddr, saddr, daddr, check, rest, sum, sum');
    ZeroBytes(Adjusted(Adjusted(check, osaddr, saddr), odaddr, daddr));
  }

  lemma ZeroBytes(c: seq<byte>)
    requires |c| == 2
    ensures c == [0, 0] <==> Word(c[0], c[1]) == 0
  {
  }

  lemma ZeroSum(was: nat, now: nat) returns (rest: nat, sum: nat, sum': nat)
    ensures rest > 0 && sum == was + rest && sum' == now + rest
    ensures Complement(sum) == 0
    ensures Complement(sum') == 0 <==> SameResidue(now, was)
  {
    rest := 0xffff * (was + 1) - was;
    sum, sum' := was + rest, now + rest;
    ZeroComplement(sum);
    ZeroComplement(sum');
    var m := now - was;
    AddMultiple(m, was + 1);
    assert sum' == m + 0xffff * (was + 1);
    Difference(now, was);
  }

  lemma Difference(x: nat, y: nat)
    ensures (x - y) % 0xffff == 0 <==> SameResidue(x, y)
  {
    if (x - y) % 0xffff == 0 {
      MultiplesApart(x, y, (x - y) / 0xffff);
    }
    assert x - y == x % 0xffff - y % 0xffff + 0xffff * (x / 0xffff - y / 0xffff);
  }
}
