/** Droplets, the sums of their sizes, and the round-robin loops that move addresses between them
    (src/mgmt/manager/project/api/nodes.py). */
module Droplets {

  /** Each address of the range has a MAC of its own. */
  ghost predicate Pairing(macOf: string -> string, range: set<string>) {
    forall a, b :: a in range && b in range && macOf(a) == macOf(b) ==> a == b
  }

  predicate NoDuplicates(s: seq<string>) {
    forall i, j :: 0 <= i < j < |s| ==> s[i] != s[j]
  }

  /** Python's `list.remove`. */
  function RemoveFirst(s: seq<string>, x: string): seq<string> {
    if s == [] then [] else if s[0] == x then s[1..] else [s[0]] + RemoveFirst(s[1..], x)
  }

  /** `remove` if the value is there, `pop` otherwise. */
  function RemoveOrPop(s: seq<string>, x: string): seq<string>
    requires s != []
  {
    if x in s then RemoveFirst(s, x) else s[..|s| - 1]
  }

  lemma {:induction false} RemoveLast(s: seq<string>, x: string)
    requires s != [] && s[|s| - 1] == x && x !in s[..|s| - 1]
    ensures RemoveFirst(s, x) == s[..|s| - 1]
  {
    if |s| > 1 {
      assert s[0] in s[..|s| - 1];
      assert s[1..][..|s| - 2] == s[..|s| - 1][1..];
      RemoveLast(s[1..], x);
    }
  }

  class Droplet {
    const name: string
    var ip: seq<string>
    var mac: seq<string>

    constructor (name: string, ip: seq<string>, mac: seq<string>)
      ensures this.name == name && this.ip == ip && this.mac == mac
    {
      this.name, this.ip, this.mac := name, ip, mac;
    }

    /** The MAC list goes with the address list, position by position, and no address repeats. */
    ghost predicate Aligned(macOf: string -> string, range: set<string>)
      reads this
    {
      && |mac| == |ip| && NoDuplicates(ip)
      && forall i :: 0 <= i < |ip| ==> ip[i] in range && mac[i] == macOf(ip[i])
    }

    /** Pops the last address; its MAC is removed from the MAC list by value. */
    method Give(macOf: string -> string, ghost range: set<string>) returns (popped: string)
      requires Pairing(macOf, range) && Aligned(macOf, range) && |ip| > 1
      modifies this`ip, this`mac
      ensures old(ip) == ip + [popped] && ip == old(ip)[..|old(ip)| - 1]
      ensures Aligned(macOf, range)
    {
      var last := |ip| - 1;
      popped := ip[last];
      MacsBefore(ip, mac, macOf, range);
      ip := ip[..last];
      mac := RemoveOrPop(mac, macOf(popped));
    }

    /** Appends an address and its MAC. */
    method Take(newIp: string, macOf: string -> string, ghost range: set<string>)
      requires Aligned(macOf, range) && newIp in range && newIp !in ip
      modifies this`ip, this`mac
      ensures ip == old(ip) + [newIp]
      ensures Aligned(macOf, range)
    {
      ip := ip + [newIp];
      mac := mac + [macOf(newIp)];
    }
  }

  /** The MAC of the last address occurs only in the last place. */
  lemma MacsBefore(ip: seq<string>, mac: seq<string>, macOf: string -> string, range: set<string>)
    requires Pairing(macOf, range) && |mac| == |ip| > 0 && NoDuplicates(ip)
    requires forall i :: 0 <= i < |ip| ==> ip[i] in range && mac[i] == macOf(ip[i])
    ensures RemoveOrPop(mac, macOf(ip[|ip| - 1])) == mac[..|ip| - 1]
  {
    var last := |ip| - 1;
    assert forall i :: 0 <= i < last ==> mac[i] != mac[last];
    RemoveLast(mac, mac[last]);
  }

  // ----- What a list of droplets owns

  /** The addresses on all lists, with multiplicity. */
  ghost function All(ips: seq<seq<string>>): multiset<string> {
    if ips == [] then multiset{} else multiset(ips[0]) + All(ips[1..])
  }

  lemma {:induction false} AllUpdate(ips: seq<seq<string>>, j: nat, l: seq<string>)
    requires j < |ips|
    ensures All(ips[j := l]) + multiset(ips[j]) == All(ips) + multiset(l)
  {
    if j > 0 {
      AllUpdate(ips[1..], j - 1, l);
      assert ips[j := l][1..] == ips[1..][j - 1 := l];
      AddToBoth(multiset(ips[0]), All(ips[1..][j - 1 := l]), multiset(ips[j]), All(ips[1..]), multiset(l));
    } else {
      assert ips[0 := l][1..] == ips[1..];
      assert All(ips[0 := l]) == multiset(l) + All(ips[1..]);
    }
  }

  lemma AddToBoth(m: multiset<string>, a: multiset<string>, b: multiset<string>, c: multiset<string>,
                  d: multiset<string>)
    requires a + b == c + d
    ensures (m + a) + b == (m + c) + d
  {
    assert (m + a) + b == m + (a + b);
    assert (m + c) + d == m + (c + d);
  }

  /** Giving an address away moves it from the lists to the taken ones. */
  lemma GivenAway(ips: seq<seq<string>>, j: nat, l: seq<string>, popped: string, taken: seq<string>,
                  total: multiset<string>)
    requires j < |ips| && ips[j] == l + [popped] && All(ips) + multiset(taken) == total
    ensures All(ips[j := l]) + multiset(taken + [popped]) == total
  {
    AllUpdate(ips, j, l);
    var a, b := All(ips[j := l]), multiset(l);
    assert multiset(ips[j]) == b + multiset{popped};
    assert (a + multiset{popped}) + b == All(ips) + b;
    assert a + multiset{popped} == ((a + multiset{popped}) + b) - b;
    assert a + (multiset(taken) + multiset{popped}) == (a + multiset{popped}) + multiset(taken);
  }

  lemma {:induction false} AllConcat(ips: seq<seq<string>>, ips': seq<seq<string>>)
    ensures All(ips + ips') == All(ips) + All(ips')
  {
    if ips == [] {
      assert ips + ips' == ips';
    } else {
      var rest := ips[1..] + ips';
      assert (ips + ips')[1..] == rest && (ips + ips')[0] == ips[0];
      assert All(ips + ips') == multiset(ips[0]) + All(rest);
      AllConcat(ips[1..], ips');
    }
  }

  /** Lists of one address each own as many addresses as there are lists. */
  lemma {:induction false} AllOfOnes(ips: seq<seq<string>>)
    requires forall i :: 0 <= i < |ips| ==> |ips[i]| == 1
    ensures |All(ips)| == |ips|
  {
    if ips != [] {
      AllOfOnes(ips[1..]);
    }
  }

  lemma {:induction false} AllContains(ips: seq<seq<string>>, i: nat)
    requires i < |ips|
    ensures multiset(ips[i]) <= All(ips)
  {
    if i > 0 {
      AllContains(ips[1..], i - 1);
    }
  }

  ghost function Ips(ds: seq<Droplet>): (r: seq<seq<string>>)
    reads ds
    ensures |r| == |ds| && forall i :: 0 <= i < |ds| ==> r[i] == ds[i].ip
  {
    seq(|ds|, i requires 0 <= i < |ds| reads ds => ds[i].ip)
  }

  ghost function Owned(ds: seq<Droplet>): multiset<string>
    reads ds
  {
    All(Ips(ds))
  }

  /** The order of the droplets does not matter. */
  lemma {:induction false} OwnedPermutation(ds: seq<Droplet>, ds': seq<Droplet>)
    requires multiset(ds) == multiset(ds')
    ensures Owned(ds) == Owned(ds')
    decreases |ds|
  {
    if ds == [] {
      assert |multiset(ds')| == 0;
      assert Ips(ds) == Ips(ds');
    } else {
      var d := ds[0];
      assert d in multiset(ds');
      var j :| 0 <= j < |ds'| && ds'[j] == d;
      var rest := ds'[..j] + ds'[j + 1..];
      assert ds' == ds'[..j] + ([d] + ds'[j + 1..]);
      assert ds == [d] + ds[1..];
      assert multiset(ds[1..]) == multiset(ds) - multiset{d};
      assert multiset(rest) == multiset(ds') - multiset{d};
      OwnedPermutation(ds[1..], rest);
      OwnedConcat(ds'[..j], ds'[j + 1..]);
      OwnedConcat([d], ds'[j + 1..]);
      OwnedConcat(ds'[..j], [d] + ds'[j + 1..]);
      OwnedConcat([d], ds[1..]);
    }
  }

  lemma {:induction false} IpsPermutation(ds: seq<Droplet>, ds': seq<Droplet>)
    requires multiset(ds) == multiset(ds')
    ensures multiset(Ips(ds)) == multiset(Ips(ds'))
    decreases |ds|
  {
    if ds == [] {
      assert |multiset(ds')| == 0;
      assert Ips(ds) == Ips(ds');
    } else {
      var d := ds[0];
      assert d in multiset(ds');
      var j :| 0 <= j < |ds'| && ds'[j] == d;
      var rest := ds'[..j] + ds'[j + 1..];
      assert ds' == ds'[..j] + ([d] + ds'[j + 1..]);
      assert ds == [d] + ds[1..];
      assert multiset(ds[1..]) == multiset(ds) - multiset{d};
      assert multiset(rest) == multiset(ds') - multiset{d};
      IpsPermutation(ds[1..], rest);
      hide Ips;
      IpsConcat(ds'[..j], ds'[j + 1..]);
      IpsConcat([d], ds'[j + 1..]);
      IpsConcat(ds'[..j], [d] + ds'[j + 1..]);
      IpsConcat([d], ds[1..]);
    }
  }

  lemma OwnedConcat(ds: seq<Droplet>, ds': seq<Droplet>)
    ensures Owned(ds + ds') == Owned(ds) + Owned(ds')
  {
    AllConcat(Ips(ds), Ips(ds'));
    IpsConcat(ds, ds');
  }

  lemma IpsConcat(ds: seq<Droplet>, ds': seq<Droplet>)
    ensures Ips(ds + ds') == Ips(ds) + Ips(ds')
  {
    var l, r := Ips(ds + ds'), Ips(ds) + Ips(ds');
    forall i | 0 <= i < |ds| + |ds'|
      ensures l[i] == r[i]
    {
    }
    assert l == r;
  }

  lemma OwnedOfOnes(ds: seq<Droplet>)
    requires forall d :: d in ds ==> |d.ip| == 1
    ensures |Owned(ds)| == |ds|
  {
    AllOfOnes(Ips(ds));
  }

  ghost predicate Distinct(ds: seq<Droplet>) {
    forall i, j :: 0 <= i < j < |ds| ==> ds[i] != ds[j]
  }

  /** What a droplet keeps of its list when it gives the last address, if it can spare one. */
  function Thinned(ip: seq<string>): (r: seq<string>)
    ensures r <= ip && (|ip| >= 1 ==> |r| >= 1)
  {
    if |ip| > 1 then ip[..|ip| - 1] else ip
  }

  /** The lists after the first `j` droplets had their turn. */
  ghost function ThinnedUpTo(ips: seq<seq<string>>, j: nat): (r: seq<seq<string>>)
    ensures |r| == |ips|
  {
    seq(|ips|, i requires 0 <= i < |ips| => if i < j then Thinned(ips[i]) else ips[i])
  }

  lemma ThinnedStep(ips: seq<seq<string>>, j: nat)
    requires j < |ips|
    ensures ThinnedUpTo(ips, j)[j] == ips[j]
    ensures ThinnedUpTo(ips, j + 1) == ThinnedUpTo(ips, j)[j := Thinned(ips[j])]
    ensures |ips[j]| > 1 ==> Thinned(ips[j]) != ips[j]
    ensures |ips[j]| <= 1 ==> ThinnedUpTo(ips, j + 1) == ThinnedUpTo(ips, j)
  {
  }

  ghost predicate AllAligned(ds: seq<Droplet>, macOf: string -> string, range: set<string>)
    reads ds
  {
    forall i :: 0 <= i < |ds| ==> ds[i].Aligned(macOf, range) && |ds[i].ip| >= 1
  }

  /** How many of `l` addresses are left after `p` passes: each takes one, but never the last. */
  function LeftAfter(l: nat, p: nat): (r: nat)
    ensures r <= l
  {
    if l <= 1 then l else if p < l then l - p else 1
  }

  function Trimmed(ip: seq<string>, p: nat): seq<string> {
    ip[..LeftAfter(|ip|, p)]
  }

  /** The lists after `p` passes. */
  ghost function TrimmedAll(ips: seq<seq<string>>, p: nat): (r: seq<seq<string>>)
    ensures |r| == |ips|
  {
    seq(|ips|, i requires 0 <= i < |ips| => Trimmed(ips[i], p))
  }

  lemma TrimmedNone(ips: seq<seq<string>>)
    ensures TrimmedAll(ips, 0) == ips && Spared(ips, 0) == 0
  {
    forall i | 0 <= i < |ips|
      ensures Trimmed(ips[i], 0) == ips[i]
    {
    }
    SparedTaken(ips, 0);
  }

  lemma TrimmedStep(ips: seq<seq<string>>, p: nat)
    ensures ThinnedUpTo(TrimmedAll(ips, p), |ips|) == TrimmedAll(ips, p + 1)
  {
    forall i | 0 <= i < |ips|
      ensures Thinned(Trimmed(ips[i], p)) == Trimmed(ips[i], p + 1)
    {
    }
  }

  /** What `p` passes collect in all. */
  function Spared(ips: seq<seq<string>>, p: nat): nat {
    if ips == [] then 0 else |ips[0]| - LeftAfter(|ips[0]|, p) + Spared(ips[1..], p)
  }

  lemma {:induction false} SparedTaken(ips: seq<seq<string>>, p: nat)
    ensures |All(TrimmedAll(ips, p))| + Spared(ips, p) == |All(ips)|
  {
    if ips != [] {
      SparedTaken(ips[1..], p);
      assert TrimmedAll(ips, p)[1..] == TrimmedAll(ips[1..], p);
    }
  }

  /** More passes never collect less. */
  lemma {:induction false} SparedGrow(ips: seq<seq<string>>, p: nat, q: nat)
    requires p <= q
    ensures Spared(ips, p) <= Spared(ips, q)
  {
    if ips != [] {
      SparedGrow(ips[1..], p, q);
    }
  }

  lemma {:induction false} SparedConcat(ips: seq<seq<string>>, ips': seq<seq<string>>, p: nat)
    ensures Spared(ips + ips', p) == Spared(ips, p) + Spared(ips', p)
  {
    if ips == [] {
      assert ips + ips' == ips';
    } else {
      assert (ips + ips')[1..] == ips[1..] + ips';
      SparedConcat(ips[1..], ips', p);
    }
  }

  lemma {:induction false} SparedPermutation(ips: seq<seq<string>>, ips': seq<seq<string>>, p: nat)
    requires multiset(ips) == multiset(ips')
    ensures Spared(ips, p) == Spared(ips', p)
    decreases |ips|
  {
    if ips == [] {
      assert |multiset(ips')| == 0;
    } else {
      var l := ips[0];
      assert l in multiset(ips');
      var j :| 0 <= j < |ips'| && ips'[j] == l;
      var rest := ips'[..j] + ips'[j + 1..];
      assert ips' == ips'[..j] + ([l] + ips'[j + 1..]);
      assert ips == [l] + ips[1..];
      assert multiset(ips[1..]) == multiset(ips) - multiset{l};
      assert multiset(rest) == multiset(ips') - multiset{l};
      SparedPermutation(ips[1..], rest, p);
      hide Spared;
      SparedConcat(ips'[..j], ips'[j + 1..], p);
      SparedConcat([l], ips'[j + 1..], p);
      SparedConcat(ips'[..j], [l] + ips'[j + 1..], p);
      SparedConcat([l], ips[1..], p);
    }
  }

  /** Lists of one address each have nothing to give. */
  lemma {:induction false} SparedOfOnes(ips: seq<seq<string>>, p: nat)
    requires forall i :: 0 <= i < |ips| ==> |ips[i]| <= 1
    ensures Spared(ips, p) == 0
  {
    if ips != [] {
      SparedOfOnes(ips[1..], p);
    }
  }

  /** What a pass collects from the first `j` lists: the last address of each that can spare one. */
  ghost function Round(ips: seq<seq<string>>, j: nat): seq<string>
    requires j <= |ips|
  {
    if j == 0 then []
    else Round(ips, j - 1) + if |ips[j - 1]| > 1 then [ips[j - 1][|ips[j - 1]| - 1]] else []
  }

  /** What `p` passes collect, in order. */
  ghost function Rounds(ips: seq<seq<string>>, p: nat): seq<string> {
    if p == 0 then [] else Rounds(ips, p - 1) + Round(TrimmedAll(ips, p - 1), |ips|)
  }

  /** How pass `q` goes on with the last of the first `n` lists. */
  lemma RoundStep(ips: seq<seq<string>>, q: nat, n: nat)
    requires n < |ips|
    ensures Round(TrimmedAll(ips, q), n + 1)
      == Round(TrimmedAll(ips, q), n) + if |ips[n]| > q + 1 then [ips[n][|ips[n]| - 1 - q]] else []
    ensures Taken(ips[..n + 1], q) == Taken(ips[..n], q) + if |ips[n]| > q + 1 then 1 else 0
  {
    assert ips[..n + 1] == ips[..n] + [ips[n]];
    SparedConcat(ips[..n], [ips[n]], q);
    SparedConcat(ips[..n], [ips[n]], q + 1);
    SparedOne(ips[n], q);
    SparedOne(ips[n], q + 1);
    assert TrimmedAll(ips, q)[n] == Trimmed(ips[n], q);
  }

  lemma SparedOne(ip: seq<string>, p: nat)
    ensures Spared([ip], p) == |ip| - LeftAfter(|ip|, p)
  {
  }

  /** How many addresses pass `q` takes. */
  ghost function Taken(ips: seq<seq<string>>, q: nat): nat {
    SparedGrow(ips, q, q + 1);
    Spared(ips, q + 1) - Spared(ips, q)
  }

  /** Pass `q` takes the address that has `q` others behind it, list by list. */
  lemma {:induction false} RoundAt(ips: seq<seq<string>>, q: nat, n: nat, i: nat)
    requires i <= n <= |ips|
    ensures |Round(TrimmedAll(ips, q), n)| == Taken(ips[..n], q)
    ensures i < n && |ips[i]| > q + 1 ==>
      var k := Taken(ips[..i], q);
      k < Taken(ips[..n], q) && Round(TrimmedAll(ips, q), n)[k] == ips[i][|ips[i]| - 1 - q]
  {
    hide Taken, TrimmedAll, Spared, Round;
    if n == 0 {
      NoneTaken(ips, q);
    } else {
      RoundStep(ips, q, n - 1);
      RoundAt(ips, q, n - 1, if i < n then i else n - 1);
    }
  }

  lemma NoneTaken(ips: seq<seq<string>>, q: nat)
    ensures Taken(ips[..0], q) == 0 && Round(TrimmedAll(ips, q), 0) == []
  {
    assert ips[..0] == [];
  }

  lemma {:induction false} RoundsLength(ips: seq<seq<string>>, p: nat)
    ensures |Rounds(ips, p)| == Spared(ips, p)
  {
    hide Spared, TrimmedAll, Round;
    if p == 0 {
      TrimmedNone(ips);
    } else {
      RoundsLength(ips, p - 1);
      RoundAt(ips, p - 1, |ips|, |ips|);
      assert ips[..|ips|] == ips;
    }
  }

  /** Where an address that is collected stands: behind those of the earlier passes and those the
      same pass takes from the lists in front. */
  lemma {:induction false} RoundsAt(ips: seq<seq<string>>, p: nat, q: nat, i: nat)
    requires i < |ips| && q < p && |ips[i]| > q + 1
    ensures var k := Spared(ips, q) + Taken(ips[..i], q);
      k < |Rounds(ips, p)| == Spared(ips, p) && Rounds(ips, p)[k] == ips[i][|ips[i]| - 1 - q]
  {
    hide Spared, TrimmedAll, Round, Taken;
    RoundsLength(ips, p - 1);
    RoundsLength(ips, p);
    if q < p - 1 {
      RoundsAt(ips, p - 1, q, i);
    } else {
      RoundAt(ips, q, |ips|, i);
      assert ips[..|ips|] == ips;
    }
  }

  /** The lists `now` are what `passes` passes leave of `was`; they collected `n` addresses, and the
      last of them was needed for `t`. */
  ghost predicate Needed(was: seq<seq<string>>, now: seq<seq<string>>, passes: nat, t: nat, n: nat) {
    && now == TrimmedAll(was, passes) && n == Spared(was, passes)
    && (passes > 0 ==> Spared(was, passes - 1) < t)
  }

  /** The least number of passes that collects `t` addresses was made. */
  ghost predicate LeastPasses(was: seq<seq<string>>, now: seq<seq<string>>, passes: nat, t: nat, n: nat) {
    passes > 0 && t <= n && Needed(was, now, passes, t, n)
  }

  lemma LeastIsLeast(was: seq<seq<string>>, now: seq<seq<string>>, passes: nat, t: nat, n: nat, p: nat)
    requires LeastPasses(was, now, passes, t, n)
    ensures t <= Spared(was, p) <==> passes <= p
  {
    if passes <= p {
      SparedGrow(was, passes, p);
    } else {
      SparedGrow(was, p, passes - 1);
    }
  }

  /** The droplets in `modified` are those whose lists differ. */
  ghost predicate Differ(modified: set<Droplet>, ds: seq<Droplet>, now: seq<seq<string>>, was: seq<seq<string>>)
    requires |now| == |was| == |ds|
  {
    && (forall d :: d in modified ==> d in ds)
    && forall i :: 0 <= i < |ds| ==> (ds[i] in modified <==> now[i] != was[i])
  }

  /** The droplets in `modified` are those whose lists are not what they were. */
  ghost predicate Changed(modified: set<Droplet>, ds: seq<Droplet>, was: seq<seq<string>>)
    requires |was| == |ds|
    reads ds
  {
    Differ(modified, ds, Ips(ds), was)
  }

  /** The joining node's loop: pass after pass over the donors, one address from each that has
      more than one, until at least `t` addresses were collected. It always gets there: the branch
      that gives up is dead. Every donor ends with what the same, least sufficient number of passes
      leaves it. Nothing is lost or duplicated. */
  method Collect(donors: seq<Droplet>, t: nat, macOf: string -> string, ghost range: set<string>)
    returns (taken: seq<string>, modified: set<Droplet>, ghost passes: nat)
    requires Pairing(macOf, range) && Distinct(donors) && t > 0
    requires AllAligned(donors, macOf, range)
    requires t + |donors| <= |Owned(donors)|
    modifies donors
    ensures t <= |taken| <= t + |donors| - 1
    ensures Owned(donors) + multiset(taken) == old(Owned(donors))
    ensures AllAligned(donors, macOf, range)
    ensures LeastPasses(old(Ips(donors)), Ips(donors), passes, t, |taken|)
    ensures taken == Rounds(old(Ips(donors)), passes)
    ensures Changed(modified, donors, old(Ips(donors)))
  {
    hide All, Needed, Differ, AllAligned, ThinnedUpTo, Distinct, Round;
    taken, modified, passes := [], {}, 0;
    var current := 0;
    ghost var was := Ips(donors);
    NonePassed(was, t);
    NothingChanged(donors);
    while |taken| < t
      invariant current == |taken| <= t + |donors| - 1
      invariant Owned(donors) + multiset(taken) == All(was)
      invariant AllAligned(donors, macOf, range)
      invariant Needed(was, Ips(donors), passes, t, |taken|) && (taken == [] || passes > 0)
      invariant taken == Rounds(was, passes)
      invariant Changed(modified, donors, was)
      decreases t - |taken|
    {
      ghost var before := Ips(donors);
      var more, touched := Pass(donors, macOf, range);
      PassAgain(donors, was, before, passes, t, taken, more, modified, touched);
      taken, modified, passes := taken + more, modified + touched, passes + 1;
      if current == |taken| {
        OwnedOfOnes(donors);
        assert false;
        break;
      } else {
        current := |taken|;
      }
    }
  }

  lemma NothingChanged(donors: seq<Droplet>)
    ensures Changed({}, donors, Ips(donors))
  {
  }

  lemma PassAgain(donors: seq<Droplet>, was: seq<seq<string>>, before: seq<seq<string>>, passes: nat, t: nat,
                  taken: seq<string>, more: seq<string>, modified: set<Droplet>, touched: set<Droplet>)
    requires |was| == |before| == |donors| && Needed(was, before, passes, t, |taken|) && |taken| < t
    requires Ips(donors) == ThinnedUpTo(before, |donors|) && Owned(donors) + multiset(more) == All(before)
    requires Differ(modified, donors, before, was) && Changed(touched, donors, before)
    requires All(before) + multiset(taken) == All(was)
    requires taken == Rounds(was, passes) && more == Round(before, |donors|)
    ensures taken + more == Rounds(was, passes + 1)
    ensures Owned(donors) + multiset(taken + more) == All(was)
    ensures Needed(was, Ips(donors), passes + 1, t, |taken + more|)
    ensures Changed(modified + touched, donors, was)
  {
    hide All, Spared, Round;
    TrimmedStep(was, passes);
    SparedTaken(was, passes + 1);
    assert Owned(donors) + multiset(taken + more) == (Owned(donors) + multiset(more)) + multiset(taken);
    forall i | 0 <= i < |donors|
      ensures donors[i].ip <= before[i] <= was[i]
    {
      assert donors[i].ip == Ips(donors)[i] == Thinned(before[i]);
    }
  }

  lemma NonePassed(was: seq<seq<string>>, t: nat)
    ensures Needed(was, was, 0, t, 0)
  {
    TrimmedNone(was);
  }

  /** The first `j` droplets had their turn of a pass. */
  ghost predicate Halfway(ds: seq<Droplet>, was: seq<seq<string>>, j: nat, now: seq<seq<string>>, taken: seq<string>,
                          modified: set<Droplet>)
    requires |now| == |was| == |ds| && j <= |ds|
  {
    && |taken| <= j && taken == Round(was, j) && (taken == [] ==> modified == {})
    && All(now) + multiset(taken) == All(was)
    && now == ThinnedUpTo(was, j) && Differ(modified, ds, now, was)
  }

  /** One pass: every donor that can spare an address gives its last one, in the order of the donors. */
  method Pass(donors: seq<Droplet>, macOf: string -> string, ghost range: set<string>)
    returns (taken: seq<string>, modified: set<Droplet>)
    requires Pairing(macOf, range) && Distinct(donors)
    requires AllAligned(donors, macOf, range)
    modifies donors
    ensures |taken| <= |donors| && Owned(donors) + multiset(taken) == old(Owned(donors))
    ensures taken == Round(old(Ips(donors)), |donors|)
    ensures taken == [] ==> forall i :: 0 <= i < |donors| ==> |donors[i].ip| == 1
    ensures AllAligned(donors, macOf, range)
    ensures Ips(donors) == ThinnedUpTo(old(Ips(donors)), |donors|)
    ensures Changed(modified, donors, old(Ips(donors)))
  {
    hide All, Halfway, Thinned, ThinnedUpTo, Differ, AllAligned, Distinct, Round;
    ghost var was := Ips(donors);
    taken, modified := [], {};
    PassStarts(donors, was);
    for j := 0 to |donors|
      invariant AllAligned(donors, macOf, range) && Halfway(donors, was, j, Ips(donors), taken, modified)
    {
      var droplet := donors[j];
      ghost var ips := Ips(donors);
      assert droplet.ip == ips[j];
      if |droplet.ip| > 1 {
        var popped := GiveOne(donors, j, droplet, macOf, range);
        PassGives(donors, was, j, ips, taken, modified, popped);
        taken, modified := taken + [popped], modified + {droplet};
      } else {
        PassSkips(donors, was, j, ips, taken, modified);
      }
    }
    PassEnds(donors, was, Ips(donors), taken, modified);
    if taken == [] {
      NothingThinned(donors, was, macOf, range);
    }
  }

  lemma PassStarts(ds: seq<Droplet>, was: seq<seq<string>>)
    requires |was| == |ds|
    ensures Halfway(ds, was, 0, was, [], {})
  {
    assert ThinnedUpTo(was, 0) == was;
  }

  lemma PassEnds(ds: seq<Droplet>, was: seq<seq<string>>, now: seq<seq<string>>, taken: seq<string>,
                 modified: set<Droplet>)
    requires |now| == |was| == |ds| && Halfway(ds, was, |ds|, now, taken, modified)
    ensures |taken| <= |ds| && taken == Round(was, |ds|) && (taken == [] ==> modified == {})
    ensures All(now) + multiset(taken) == All(was)
    ensures now == ThinnedUpTo(was, |ds|) && Differ(modified, ds, now, was)
  {
  }

  /** What one gift changes. */
  lemma PassGives(ds: seq<Droplet>, was: seq<seq<string>>, j: nat, ips: seq<seq<string>>, taken: seq<string>,
                  modified: set<Droplet>, popped: string)
    requires |ips| == |was| == |ds| && j < |ds| && Distinct(ds) && Halfway(ds, was, j, ips, taken, modified)
    requires ips[j] == Thinned(ips[j]) + [popped]
    ensures Halfway(ds, was, j + 1, ips[j := Thinned(ips[j])], taken + [popped], modified + {ds[j]})
  {
    hide All, ThinnedUpTo, Thinned, Differ, Distinct;
    ThinnedStep(was, j);
    GivenAway(ips, j, Thinned(ips[j]), popped, taken, All(was));
    DifferStep(modified, ds, ips, was, j, Thinned(ips[j]));
  }

  lemma PassSkips(ds: seq<Droplet>, was: seq<seq<string>>, j: nat, ips: seq<seq<string>>, taken: seq<string>,
                  modified: set<Droplet>)
    requires |ips| == |was| == |ds| && j < |ds| && Halfway(ds, was, j, ips, taken, modified) && |ips[j]| <= 1
    ensures Halfway(ds, was, j + 1, ips, taken, modified)
  {
    ThinnedStep(was, j);
  }

  /** One more list differs. */
  lemma DifferStep(modified: set<Droplet>, ds: seq<Droplet>, now: seq<seq<string>>, was: seq<seq<string>>, j: nat,
                   l: seq<string>)
    requires |now| == |was| == |ds| && Distinct(ds) && Differ(modified, ds, now, was)
    requires j < |ds| && now[j] == was[j] && l != was[j]
    ensures Differ(modified + {ds[j]}, ds, now[j := l], was)
  {
  }

  lemma NothingThinned(donors: seq<Droplet>, was: seq<seq<string>>, macOf: string -> string, range: set<string>)
    requires |was| == |donors| && Ips(donors) == ThinnedUpTo(was, |donors|) && Changed({}, donors, was)
    requires AllAligned(donors, macOf, range)
    ensures forall i :: 0 <= i < |donors| ==> |donors[i].ip| == 1
  {
    forall i | 0 <= i < |donors|
      ensures |donors[i].ip| == 1
    {
      assert donors[i].ip == Ips(donors)[i] == Thinned(was[i]);
    }
  }

  /** One donor gives; the others keep what they have. */
  method GiveOne(ghost donors: seq<Droplet>, ghost j: nat, droplet: Droplet, macOf: string -> string,
                 ghost range: set<string>)
    returns (popped: string)
    requires Pairing(macOf, range) && Distinct(donors) && AllAligned(donors, macOf, range)
    requires j < |donors| && donors[j] == droplet && |droplet.ip| > 1
    modifies droplet
    ensures AllAligned(donors, macOf, range)
    ensures old(droplet.ip) == droplet.ip + [popped] && droplet.ip == Thinned(old(droplet.ip))
    ensures Ips(donors) == old(Ips(donors))[j := droplet.ip]
  {
    popped := droplet.Give(macOf, range);
  }
}
