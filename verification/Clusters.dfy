/** The droplets of one gateway cluster as wing nodes join and leave
    (src/mgmt/manager/project/api/nodes.py). Kubernetes calls are taken to succeed, so the droplet
    objects are the cluster's state. */
module Clusters {
  import opened Bytes
  import opened Arithmetic
  import opened Droplets
  import opened Dealing

  /** `node_name.replace('_', "-").lower()` behind its prefix. */
  function DropletName(node: string): string {
    "droplet-tenant-" + LowerDashes(node)
  }

  function LowerDashes(s: string): (r: string)
    ensures |r| == |s| && forall i :: 0 <= i < |s| ==> r[i] == LowerDash(s[i])
  {
    seq(|s|, i requires 0 <= i < |s| => LowerDash(s[i]))
  }

  /** A droplet is named after its node, in small letters and with dashes for underscores. */
  lemma DropletNameIs(node: string)
    ensures var name := LowerDashes(node);
      DropletName(node) == "droplet-tenant-" + name && forall i :: 0 <= i < |node| ==> Lowered(node[i], name[i])
  {
    hide Lowered, LowerDash;
    forall i | 0 <= i < |node|
      ensures Lowered(node[i], LowerDash(node[i]))
    {
      LowerDashLowers(node[i]);
    }
  }

  ghost predicate Lowered(c: char, d: char) {
    if c == '_' then d == '-' else SmallLetter(c, d)
  }

  lemma LowerDashLowers(c: char)
    ensures Lowered(c, LowerDash(c))
  {
    if c != '_' {
      SmallLetterIs(c, LowerDash(c));
    }
  }

  /** Different node names may give the same droplet name. */
  lemma SameDropletName(a: string, b: string)
    ensures DropletName(a) == DropletName(b)
      <==> |a| == |b| && forall i :: 0 <= i < |a| ==> LowerDash(a[i]) == LowerDash(b[i])
  {
    hide LowerDash;
    var x, y := LowerDashes(a), LowerDashes(b);
    var prefix := "droplet-tenant-";
    assert (prefix + x)[|prefix|..] == x && (prefix + y)[|prefix|..] == y;
    if DropletName(a) == DropletName(b) {
      assert x == y;
      forall i | 0 <= i < |a|
        ensures LowerDash(a[i]) == LowerDash(b[i])
      {
        assert x[i] == y[i];
      }
    }
  }

  lemma NamesCollide()
    ensures DropletName("wing_1") == DropletName("wing-1") && "wing_1" != "wing-1"
  {
    SameDropletName("wing_1", "wing-1");
  }

  function LowerDash(c: char): char {
    if c == '_' then '-' else if 'A' <= c <= 'Z' then (c as int + 32) as char else c
  }

  /** The sort key: the length of the address list, negated to sort in reverse. */
  function Key(d: Droplet, reverse: bool): int
    reads d
  {
    if reverse then -|d.ip| else |d.ip|
  }

  ghost predicate Ordered(ds: seq<Droplet>, reverse: bool)
    reads ds
  {
    forall i, j :: 0 <= i < j < |ds| ==> Key(ds[i], reverse) <= Key(ds[j], reverse)
  }

  /** Droplet `x` stands before droplet `y`. */
  ghost predicate Before(ds: seq<Droplet>, x: Droplet, y: Droplet) {
    exists k, l :: 0 <= k < l < |ds| && ds[k] == x && ds[l] == y
  }

  /** Droplets with lists of the same length stand in the order of `ds`. */
  ghost predicate Steady(ds: seq<Droplet>, sorted: seq<Droplet>, was: seq<seq<string>>)
    requires |was| == |sorted|
  {
    forall i, j :: 0 <= i < j < |sorted| && |was[i]| == |was[j]| ==> Before(ds, sorted[i], sorted[j])
  }

  /** Python's `sort` by the length of the address list, which is stable. */
  method SortByLength(ds: seq<Droplet>, reverse: bool) returns (r: seq<Droplet>)
    ensures multiset(r) == multiset(ds) && Ordered(r, reverse) && Steady(ds, r, Ips(r))
  {
    hide Ordered, Steady, Ips;
    r := [];
    SteadyNone();
    for i := 0 to |ds|
      invariant multiset(r) == multiset(ds[..i]) && Ordered(r, reverse) && Steady(ds[..i], r, Ips(r))
    {
      r := Insert(ds[..i], r, ds[i], reverse);
      assert ds[..i + 1] == ds[..i] + [ds[i]];
    }
    assert ds[..|ds|] == ds;
  }

  lemma SteadyNone()
    ensures Steady([], [], Ips([])) && Ordered([], false) && Ordered([], true)
  {
  }

  /** Inserts one more droplet behind those whose key is not larger. */
  method Insert(ghost all: seq<Droplet>, ds: seq<Droplet>, d: Droplet, reverse: bool) returns (r: seq<Droplet>)
    requires Ordered(ds, reverse) && Steady(all, ds, Ips(ds)) && multiset(ds) == multiset(all)
    ensures multiset(r) == multiset(ds) + multiset{d} && Ordered(r, reverse) && Steady(all + [d], r, Ips(r))
  {
    hide Ordered, Steady, Ips;
    var k := |ds|;
    while k > 0 && Key(ds[k - 1], reverse) > Key(d, reverse)
      invariant 0 <= k <= |ds|
      invariant forall j :: k <= j < |ds| ==> Key(d, reverse) < Key(ds[j], reverse)
    {
      k := k - 1;
    }
    r := ds[..k] + [d] + ds[k..];
    assert ds == ds[..k] + ds[k..];
    InsertedInOrder(ds, d, k, reverse);
    InsertedSteadily(all, ds, d, k);
  }

  lemma InsertedSteadily(all: seq<Droplet>, ds: seq<Droplet>, d: Droplet, k: nat)
    requires Steady(all, ds, Ips(ds)) && multiset(ds) == multiset(all) && k <= |ds|
    requires forall j :: k <= j < |ds| ==> |ds[j].ip| != |d.ip|
    ensures var r := ds[..k] + [d] + ds[k..]; Steady(all + [d], r, Ips(r))
  {
    hide Before;
    var r := ds[..k] + [d] + ds[k..];
    forall i, j | 0 <= i < j < |r| && |r[i].ip| == |r[j].ip|
      ensures Before(all + [d], r[i], r[j])
    {
      var x, y := if i < k then i else i - 1, if j < k then j else j - 1;
      assert i != k ==> r[i] == ds[x];
      assert j != k ==> r[j] == ds[y];
      if i != k && j != k {
        assert |Ips(ds)[x]| == |Ips(ds)[y]|;
        BeforeWithMore(all, d, ds[x], ds[y]);
      } else if j == k {
        assert ds[x] in multiset(all);
        BeforeLast(all, d, ds[x]);
      }
    }
  }

  lemma BeforeWithMore(ds: seq<Droplet>, d: Droplet, x: Droplet, y: Droplet)
    requires Before(ds, x, y)
    ensures Before(ds + [d], x, y)
  {
    var k, l :| 0 <= k < l < |ds| && ds[k] == x && ds[l] == y;
    assert (ds + [d])[k] == x && (ds + [d])[l] == y;
  }

  lemma BeforeLast(ds: seq<Droplet>, d: Droplet, x: Droplet)
    requires x in ds
    ensures Before(ds + [d], x, d)
  {
    var k :| 0 <= k < |ds| && ds[k] == x;
    assert (ds + [d])[k] == x && (ds + [d])[|ds|] == d;
  }

  lemma InsertedInOrder(ds: seq<Droplet>, d: Droplet, k: nat, reverse: bool)
    requires Ordered(ds, reverse) && k <= |ds|
    requires k > 0 ==> Key(ds[k - 1], reverse) <= Key(d, reverse)
    requires forall j :: k <= j < |ds| ==> Key(d, reverse) < Key(ds[j], reverse)
    ensures Ordered(ds[..k] + [d] + ds[k..], reverse)
  {
    var r := ds[..k] + [d] + ds[k..];
    forall i, j | 0 <= i < j < |r|
      ensures Key(r[i], reverse) <= Key(r[j], reverse)
    {
      var x, y := if i < k then i else i - 1, if j < k then j else j - 1;
      assert i != k ==> r[i] == ds[x];
      assert j != k ==> r[j] == ds[y];
      if i < k == j {
        assert x == k - 1 || Key(ds[x], reverse) <= Key(ds[k - 1], reverse);
      }
    }
  }

  lemma DistinctPermutation(ds: seq<Droplet>, r: seq<Droplet>)
    requires Distinct(ds) && multiset(r) == multiset(ds)
    ensures Distinct(r) && |r| == |ds|
    ensures forall d :: d in r <==> d in ds
  {
    assert |r| == |multiset(r)| == |ds|;
    forall d
      ensures d in r <==> d in ds
    {
      assert d in r <==> d in multiset(r);
    }
    forall i, j | 0 <= i < j < |r|
      ensures r[i] != r[j]
    {
      if r[i] == r[j] {
        Repeated(r, i, j);
        OnceEach(ds, r[i]);
      }
    }
  }

  lemma Repeated(r: seq<Droplet>, i: nat, j: nat)
    requires i < j < |r| && r[i] == r[j]
    ensures multiset(r)[r[i]] >= 2
  {
    assert r == r[..j] + ([r[j]] + r[j + 1..]);
    assert r[i] in r[..j];
  }

  lemma {:induction false} OnceEach(ds: seq<Droplet>, d: Droplet)
    requires Distinct(ds)
    ensures multiset(ds)[d] <= 1
  {
    if ds != [] {
      OnceEach(ds[1..], d);
      assert ds == [ds[0]] + ds[1..];
      if d == ds[0] {
        assert d !in ds[1..];
      }
    }
  }

  datatype JoinOutcome =
    | FirstNode(droplet: Droplet)
    | Joined(newDroplet: Droplet, modified: set<Droplet>)
    | NotEnough
    | NameTaken(lost: seq<string>, modified: set<Droplet>)

  datatype LeaveOutcome = NotFound | DivisionByZero | Left(gone: Droplet, modified: set<Droplet>)

  /** The droplets that can spare an address. */
  function Donors(ds: seq<Droplet>): seq<Droplet>
    reads ds
  {
    if ds == [] then []
    else Donors(ds[..|ds| - 1]) + if |ds[|ds| - 1].ip| > 1 then [ds[|ds| - 1]] else []
  }

  ghost function Others(ds: seq<Droplet>): seq<Droplet>
    reads ds
  {
    if ds == [] then []
    else Others(ds[..|ds| - 1]) + if |ds[|ds| - 1].ip| > 1 then [] else [ds[|ds| - 1]]
  }

  /** Donors and others are all the droplets, and no droplet is both. */
  lemma {:induction false} DonorsAndOthers(ds: seq<Droplet>)
    ensures multiset(ds) == multiset(Donors(ds)) + multiset(Others(ds))
    decreases |ds|
  {
    if ds != [] {
      var front, last := ds[..|ds| - 1], ds[|ds| - 1];
      DonorsAndOthers(front);
      assert ds == front + [last];
    }
  }

  lemma {:induction false} DonorsSpare(ds: seq<Droplet>)
    ensures forall d :: d in Donors(ds) ==> d in ds && |d.ip| > 1
    ensures forall d :: d in ds && |d.ip| > 1 ==> d in Donors(ds)
    ensures forall d :: d in Others(ds) ==> d in ds && |d.ip| <= 1
    decreases |ds|
  {
    if ds != [] {
      DonorsSpare(ds[..|ds| - 1]);
    }
  }

  /** The donors keep their order. */
  lemma {:induction false} DonorsInOrder(ds: seq<Droplet>, x: Droplet, y: Droplet)
    requires Before(Donors(ds), x, y)
    ensures Before(ds, x, y)
    decreases |ds|
  {
    var front, last := ds[..|ds| - 1], ds[|ds| - 1];
    assert ds == front + [last];
    var k, l :| 0 <= k < l < |Donors(ds)| && Donors(ds)[k] == x && Donors(ds)[l] == y;
    if l < |Donors(front)| {
      DonorsInOrder(front, x, y);
      BeforeWithMore(front, last, x, y);
    } else {
      DonorsSpare(front);
      BeforeLast(front, last, x);
    }
  }

  lemma {:induction false} DonorsDistinct(ds: seq<Droplet>)
    requires Distinct(ds)
    ensures Distinct(Donors(ds))
    decreases |ds|
  {
    if ds != [] {
      var front, last := ds[..|ds| - 1], ds[|ds| - 1];
      DonorsDistinct(front);
      DonorsSpare(front);
      assert last !in front;
    }
  }

  /** Counts the addresses and finds the donors. */
  method SplitDonors(ds: seq<Droplet>) returns (totalIp: nat, donors: seq<Droplet>)
    requires forall i :: 0 <= i < |ds| ==> |ds[i].mac| == |ds[i].ip|
    ensures totalIp == |Owned(ds)| && donors == Donors(ds)
  {
    totalIp, donors := 0, [];
    for i := 0 to |ds|
      invariant totalIp == |Owned(ds[..i])| && donors == Donors(ds[..i])
    {
      var droplet := ds[i];
      OneMore(ds, i);
      totalIp := totalIp + |droplet.ip|;
      if |droplet.ip| > 1 && |droplet.mac| > 1 {
        donors := donors + [droplet];
      }
    }
    assert ds[..|ds|] == ds;
  }

  lemma OneMore(ds: seq<Droplet>, i: nat)
    requires i < |ds|
    ensures |Owned(ds[..i + 1])| == |Owned(ds[..i])| + |ds[i].ip|
    ensures Donors(ds[..i + 1]) == Donors(ds[..i]) + if |ds[i].ip| > 1 then [ds[i]] else []
  {
    assert ds[..i + 1][..i] == ds[..i] && ds[..i + 1] == ds[..i] + [ds[i]];
    OwnedConcat(ds[..i], [ds[i]]);
    OwnedOne(ds[i]);
  }

  lemma OwnedOne(d: Droplet)
    ensures Owned([d]) == multiset(d.ip)
  {
    assert Ips([d]) == [d.ip];
    assert All([d.ip]) == multiset(d.ip) + All([d.ip][1..]);
  }

  /** The share of a joining node: an even part of all addresses, rounded down. */
  function FairShare(total: nat, n: nat): nat {
    total / (n + 1)
  }

  /** `t` shares for `n + 1` droplets fit the total, and one more each would not. */
  predicate IsShare(t: nat, total: nat, n: nat) {
    t * (n + 1) <= total < (t + 1) * (n + 1)
  }

  lemma FairShareIsShare(total: nat, n: nat)
    ensures IsShare(FairShare(total, n), total, n)
    ensures FairShare(total, n) == 0 <==> total < n + 1
  {
    var t, d := total / (n + 1), n + 1;
    assert total == d * t + total % d;
    assert (t + 1) * d == d * t + d;
    if t > 0 {
      MulMonotone(d, 1, t);
    }
  }

  /** A positive fair share can be met: what the donors own beyond one address each is enough. */
  lemma FairShareFits(total: nat, n: nat)
    requires FairShare(total, n) > 0
    ensures FairShare(total, n) + n <= total
  {
    var t := total / (n + 1);
    assert total >= t * (n + 1);
    assert t * (n + 1) == t * n + t;
    MulMonotone(n, 1, t);
  }

  /** Collects from the donors among `ds`; seen over all of `ds`, nothing is lost. */
  method CollectFrom(ds: seq<Droplet>, donors: seq<Droplet>, t: nat, macOf: string -> string,
                     ghost range: set<string>)
    returns (taken: seq<string>, modified: set<Droplet>, ghost passes: nat)
    requires Pairing(macOf, range) && Distinct(ds) && AllAligned(ds, macOf, range)
    requires donors == Donors(ds) && t > 0 && t + |ds| <= |Owned(ds)|
    modifies ds
    ensures t <= |taken| <= t + |donors| - 1
    ensures Owned(ds) + multiset(taken) == old(Owned(ds))
    ensures AllAligned(ds, macOf, range)
    ensures LeastPasses(old(Ips(ds)), Ips(ds), passes, t, |taken|)
    ensures InTurn(old(Ips(ds)), passes, taken)
    ensures Changed(modified, ds, old(Ips(ds)))
  {
    hide All, SplitUp, LeastPasses, Changed, AllAligned, Kept, Donors, IsQueue, Rounds, InTurn, Distinct, Pairing;
    ghost var was := Ips(ds);
    var sorted, others, wasSorted, wasOthers := SortDonors(ds, was, donors, macOf, range);
    taken, modified, passes := Collect(sorted, t, macOf, range);
    Queueing(was, wasSorted, passes);
    AfterCollect(ds, sorted, others, was, wasSorted, wasOthers, taken, modified, passes, t, macOf, range);
  }

  /** Only donors give. */
  lemma SparedOfDonors(ds: seq<Droplet>, was: seq<seq<string>>, sorted: seq<Droplet>, others: seq<Droplet>,
                       wasSorted: seq<seq<string>>, wasOthers: seq<seq<string>>, p: nat)
    requires |was| == |ds| && |wasSorted| == |sorted| && |wasOthers| == |others|
    requires SplitUp(ds, was, sorted, others, wasSorted, wasOthers)
    ensures Spared(was, p) == Spared(wasSorted, p)
  {
    assert multiset(was) == multiset(wasSorted + wasOthers);
    SparedPermutation(was, wasSorted + wasOthers, p);
    SparedConcat(wasSorted, wasOthers, p);
    SparedOfOnes(wasOthers, p);
  }

  /** The lists of `part` are those of the same droplets in `ds`. */
  ghost predicate SamePlaces(ds: seq<Droplet>, was: seq<seq<string>>, part: seq<Droplet>, wasPart: seq<seq<string>>)
    requires |was| == |ds| && |wasPart| == |part|
  {
    forall i, j :: 0 <= i < |ds| && 0 <= j < |part| && ds[i] == part[j] ==> was[i] == wasPart[j]
  }

  /** `ds` with the lists `was` are the donors and the others; the others own one address at most. */
  ghost predicate SplitUp(ds: seq<Droplet>, was: seq<seq<string>>, sorted: seq<Droplet>, others: seq<Droplet>,
                          wasSorted: seq<seq<string>>, wasOthers: seq<seq<string>>)
    requires |was| == |ds| && |wasSorted| == |sorted| && |wasOthers| == |others|
  {
    && multiset(ds) == multiset(sorted) + multiset(others)
    && multiset(was) == multiset(wasSorted) + multiset(wasOthers)
    && All(was) == All(wasSorted) + All(wasOthers)
    && SamePlaces(ds, was, sorted, wasSorted) && SamePlaces(ds, was, others, wasOthers)
    && (forall i :: 0 <= i < |others| ==> others[i] !in sorted && |wasOthers[i]| <= 1)
  }

  ghost predicate Kept(others: seq<Droplet>, wasOthers: seq<seq<string>>, macOf: string -> string, range: set<string>)
    requires |wasOthers| == |others|
    reads others
  {
    AllAligned(others, macOf, range) && Ips(others) == wasOthers
  }

  /** What the collection did to the donors, seen over all droplets. */
  lemma AfterCollect(ds: seq<Droplet>, sorted: seq<Droplet>, others: seq<Droplet>,
                     was: seq<seq<string>>, wasSorted: seq<seq<string>>, wasOthers: seq<seq<string>>,
                     taken: seq<string>, modified: set<Droplet>, passes: nat, t: nat, macOf: string -> string,
                     range: set<string>)
    requires |was| == |ds| && |wasSorted| == |sorted| && |wasOthers| == |others|
    requires SplitUp(ds, was, sorted, others, wasSorted, wasOthers) && Kept(others, wasOthers, macOf, range)
    requires AllAligned(sorted, macOf, range) && Changed(modified, sorted, wasSorted)
    requires LeastPasses(wasSorted, Ips(sorted), passes, t, |taken|)
    requires Owned(sorted) + multiset(taken) == All(wasSorted)
    ensures Owned(ds) + multiset(taken) == All(was)
    ensures AllAligned(ds, macOf, range) && Changed(modified, ds, was)
    ensures LeastPasses(was, Ips(ds), passes, t, |taken|)
  {
    hide All, SamePlaces, TrimmedAll, Spared, Changed, AllAligned;
    SplitOwned(ds, sorted, others);
    Balance(Owned(ds), All(was), Owned(sorted), All(wasSorted), All(wasOthers), multiset(taken));
    EachAfterCollect(ds, sorted, others, was, wasSorted, wasOthers, modified, passes, macOf, range);
    SparedOfDonors(ds, was, sorted, others, wasSorted, wasOthers, passes);
    SparedOfDonors(ds, was, sorted, others, wasSorted, wasOthers, passes - 1);
  }

  lemma EachAfterCollect(ds: seq<Droplet>, sorted: seq<Droplet>, others: seq<Droplet>,
                         was: seq<seq<string>>, wasSorted: seq<seq<string>>, wasOthers: seq<seq<string>>,
                         modified: set<Droplet>, passes: nat, macOf: string -> string, range: set<string>)
    requires |was| == |ds| && |wasSorted| == |sorted| && |wasOthers| == |others|
    requires SplitUp(ds, was, sorted, others, wasSorted, wasOthers) && Kept(others, wasOthers, macOf, range)
    requires AllAligned(sorted, macOf, range) && Changed(modified, sorted, wasSorted)
    requires Ips(sorted) == TrimmedAll(wasSorted, passes)
    ensures AllAligned(ds, macOf, range) && Changed(modified, ds, was)
    ensures Ips(ds) == TrimmedAll(was, passes)
  {
    InEither(ds, sorted, others);
    forall i | 0 <= i < |ds|
      ensures ds[i].Aligned(macOf, range) && |ds[i].ip| >= 1 && ds[i].ip == Trimmed(was[i], passes)
      ensures ds[i] in modified <==> ds[i].ip != was[i]
    {
      if ds[i] in sorted {
        var j :| 0 <= j < |sorted| && sorted[j] == ds[i];
        assert sorted[j].ip == Ips(sorted)[j];
      } else {
        var j :| 0 <= j < |others| && others[j] == ds[i];
        assert others[j].ip == Ips(others)[j];
      }
    }
  }

  lemma InEither(ds: seq<Droplet>, sorted: seq<Droplet>, others: seq<Droplet>)
    requires multiset(ds) == multiset(sorted) + multiset(others)
    ensures forall d :: d in ds <==> d in sorted || d in others
  {
    forall d
      ensures d in ds <==> d in sorted || d in others
    {
      assert d in multiset(ds) <==> d in multiset(sorted) || d in multiset(others);
    }
  }

  /** The positions of the lists that can spare an address, the longest first, equally long ones as
      they come. */
  ghost predicate Queued(was: seq<seq<string>>, order: seq<nat>) {
    && (forall i :: 0 <= i < |order| ==> order[i] < |was| && |was[order[i]]| > 1)
    && (forall k :: 0 <= k < |was| && |was[k]| > 1 ==> k in order)
    && (forall i, j :: 0 <= i < j < |order| ==>
          var l, l' := |was[order[i]]|, |was[order[j]]|;
          if l == l' then order[i] < order[j] else l > l')
  }

  ghost function Listed(was: seq<seq<string>>, order: seq<nat>): (r: seq<seq<string>>)
    requires forall i :: 0 <= i < |order| ==> order[i] < |was|
    ensures |r| == |order| && forall i :: 0 <= i < |r| ==> r[i] == was[order[i]]
  {
    seq(|order|, i requires 0 <= i < |order| => was[order[i]])
  }

  ghost predicate IsQueue(was: seq<seq<string>>, lists: seq<seq<string>>) {
    exists order: seq<nat> :: Queued(was, order) && lists == Listed(was, order)
  }

  /** What was taken came from the lists in turn, from the longest first in every pass. */
  ghost predicate InTurn(was: seq<seq<string>>, passes: nat, taken: seq<string>) {
    exists lists :: IsQueue(was, lists) && taken == Rounds(lists, passes)
  }

  lemma Queueing(was: seq<seq<string>>, lists: seq<seq<string>>, passes: nat)
    requires IsQueue(was, lists)
    ensures InTurn(was, passes, Rounds(lists, passes))
  {
  }

  ghost function Position(ds: seq<Droplet>, d: Droplet): (i: nat)
    requires d in ds
    ensures i < |ds| && ds[i] == d
  {
    var i :| 0 <= i < |ds| && ds[i] == d; i
  }

  /** The sorted donors are queued. */
  lemma DonorsQueued(ds: seq<Droplet>, sorted: seq<Droplet>, donors: seq<Droplet>)
    requires Distinct(ds) && donors == Donors(ds) && Ordered(sorted, true) && Steady(donors, sorted, Ips(sorted))
    requires forall d :: d in sorted <==> d in ds && |d.ip| > 1
    ensures IsQueue(Ips(ds), Ips(sorted))
  {
    hide Donors, Before, Distinct, Steady, Ordered;
    var was := Ips(ds);
    var order: seq<nat> := seq(|sorted|, i requires 0 <= i < |sorted| => Position(ds, sorted[i]));
    forall i | 0 <= i < |order|
      ensures order[i] < |was| && |was[order[i]]| == |sorted[i].ip| > 1
    {
      assert sorted[i] in sorted;
    }
    forall k | 0 <= k < |was| && |was[k]| > 1
      ensures k in order
    {
      var j :| 0 <= j < |sorted| && sorted[j] == ds[k];
      SamePosition(ds, k, Position(ds, sorted[j]));
      assert order[j] == k;
    }
    forall i, j | 0 <= i < j < |order|
      ensures if |sorted[i].ip| == |sorted[j].ip| then order[i] < order[j] else |sorted[i].ip| > |sorted[j].ip|
    {
      SortedPair(ds, sorted, donors, i, j);
    }
    assert Queued(was, order);
    hide Queued;
    assert Ips(sorted) == Listed(was, order);
  }

  lemma SortedPair(ds: seq<Droplet>, sorted: seq<Droplet>, donors: seq<Droplet>, i: nat, j: nat)
    requires Distinct(ds) && donors == Donors(ds) && Ordered(sorted, true) && Steady(donors, sorted, Ips(sorted))
    requires i < j < |sorted| && sorted[i] in ds && sorted[j] in ds
    ensures if |sorted[i].ip| == |sorted[j].ip| then Position(ds, sorted[i]) < Position(ds, sorted[j])
            else |sorted[i].ip| > |sorted[j].ip|
  {
    hide Before, Distinct, Donors;
    assert Key(sorted[i], true) <= Key(sorted[j], true);
    if |sorted[i].ip| == |sorted[j].ip| {
      assert Before(donors, sorted[i], sorted[j]);
      DonorsInOrder(ds, sorted[i], sorted[j]);
      BeforeByPosition(ds, sorted[i], sorted[j]);
    }
  }

  lemma SamePosition(ds: seq<Droplet>, i: nat, j: nat)
    requires Distinct(ds) && i < |ds| && j < |ds| && ds[i] == ds[j]
    ensures i == j
  {
  }

  lemma BeforeByPosition(ds: seq<Droplet>, x: Droplet, y: Droplet)
    requires Distinct(ds) && Before(ds, x, y)
    ensures x in ds && y in ds && Position(ds, x) < Position(ds, y)
  {
    var k, l :| 0 <= k < l < |ds| && ds[k] == x && ds[l] == y;
    SamePosition(ds, k, Position(ds, x));
    SamePosition(ds, l, Position(ds, y));
  }

  /** The donors, longest list first; together they own all but one address of each other droplet. */
  method SortDonors(ds: seq<Droplet>, ghost was: seq<seq<string>>, donors: seq<Droplet>,
                    macOf: string -> string, ghost range: set<string>)
    returns (sorted: seq<Droplet>, ghost others: seq<Droplet>, ghost wasSorted: seq<seq<string>>,
             ghost wasOthers: seq<seq<string>>)
    requires Distinct(ds) && AllAligned(ds, macOf, range) && donors == Donors(ds) && was == Ips(ds)
    ensures Distinct(sorted) && AllAligned(sorted, macOf, range) && |wasSorted| == |sorted|
    ensures IsQueue(was, wasSorted)
    ensures multiset(sorted) == multiset(donors) && |sorted| == |donors|
    ensures forall i :: 0 <= i < |sorted| ==> sorted[i] in ds
    ensures forall i :: 0 <= i < |others| ==> others[i] !in sorted
    ensures wasSorted == Ips(sorted) && |wasOthers| == |others|
    ensures SplitUp(ds, was, sorted, others, wasSorted, wasOthers)
    ensures Kept(others, wasOthers, macOf, range)
    ensures |All(wasSorted)| - |sorted| == |All(was)| - |ds|
  {
    hide IsQueue, Steady, Ordered, Before, Donors, Others, All, Distinct;
    others := Others(ds);
    DonorsAndOthers(ds);
    DonorsSpare(ds);
    DonorsDistinct(ds);
    sorted := SortByLength(donors, true);
    DistinctPermutation(donors, sorted);
    SplitOwned(ds, sorted, others);
    OthersOwnOne(ds, others);
    SortedAligned(ds, sorted, macOf, range);
    SortedAligned(ds, others, macOf, range);
    wasSorted, wasOthers := Ips(sorted), Ips(others);
    assert Ips(ds) == was;
    DonorsQueued(ds, sorted, donors);
    SplitIps(ds, sorted, others);
  }

  lemma SplitIps(ds: seq<Droplet>, sorted: seq<Droplet>, others: seq<Droplet>)
    requires multiset(ds) == multiset(sorted) + multiset(others)
    ensures multiset(Ips(ds)) == multiset(Ips(sorted)) + multiset(Ips(others))
  {
    hide Ips;
    assert multiset(ds) == multiset(sorted + others);
    IpsPermutation(ds, sorted + others);
    IpsConcat(sorted, others);
  }

  lemma SortedAligned(ds: seq<Droplet>, sorted: seq<Droplet>, macOf: string -> string, range: set<string>)
    requires AllAligned(ds, macOf, range) && forall d :: d in sorted ==> d in ds
    ensures AllAligned(sorted, macOf, range)
  {
    forall i | 0 <= i < |sorted|
      ensures sorted[i].Aligned(macOf, range) && |sorted[i].ip| >= 1
    {
      assert sorted[i] in ds;
    }
  }

  lemma SplitOwned(ds: seq<Droplet>, donors: seq<Droplet>, others: seq<Droplet>)
    requires multiset(ds) == multiset(donors) + multiset(others)
    ensures Owned(ds) == Owned(donors) + Owned(others)
    ensures |ds| == |donors| + |others|
  {
    assert |multiset(ds)| == |ds| && |multiset(donors) + multiset(others)| == |donors| + |others|;
    assert multiset(ds) == multiset(donors + others);
    OwnedPermutation(ds, donors + others);
    OwnedConcat(donors, others);
  }

  lemma Balance(all: multiset<string>, all0: multiset<string>, given: multiset<string>, given0: multiset<string>,
                kept: multiset<string>, taken: multiset<string>)
    requires all == given + kept && all0 == given0 + kept && given + taken == given0
    ensures all + taken == all0
  {
    assert all + taken == (given + taken) + kept;
  }

  lemma OthersOwnOne(ds: seq<Droplet>, others: seq<Droplet>)
    requires forall i :: 0 <= i < |ds| ==> |ds[i].ip| >= 1
    requires forall d :: d in others ==> d in ds && |d.ip| <= 1
    ensures |Owned(others)| == |others|
  {
    OwnedOfOnes(others);
  }

  ghost predicate TakenOut(before: seq<Droplet>, gone: Droplet, after: seq<Droplet>) {
    exists i :: 0 <= i < |before| && before[i] == gone && after == before[..i] + before[i + 1..]
  }

  /** The gateway list names each address of the range once, with its MAC. */
  ghost predicate Gateways(gws: seq<(string, string)>, macOf: string -> string, range: set<string>) {
    && multiset(seq(|gws|, i requires 0 <= i < |gws| => gws[i].0)) == multiset(range)
    && forall i :: 0 <= i < |gws| ==> gws[i].1 == macOf(gws[i].0)
  }

  ghost predicate DistinctNames(ds: seq<Droplet>) {
    forall i, j :: 0 <= i < j < |ds| ==> ds[i].name != ds[j].name
  }

  predicate NameFree(ds: seq<Droplet>, name: string) {
    forall i :: 0 <= i < |ds| ==> ds[i].name != name
  }

  /** The droplets partition the configured range, MACs stay paired with their addresses, and no
      droplet is empty unless the range is. */
  ghost predicate Partitioned(ds: seq<Droplet>, macOf: string -> string, range: set<string>)
    reads ds
  {
    && Pairing(macOf, range) && Distinct(ds) && DistinctNames(ds)
    && (forall i :: 0 <= i < |ds| ==> ds[i].Aligned(macOf, range))
    && (ds != [] ==> Owned(ds) == multiset(range))
    && (range != {} ==> forall i :: 0 <= i < |ds| ==> |ds[i].ip| >= 1)
  }

  /** With a new droplet for what the others gave up, the partition is complete again. */
  lemma Extend(ds: seq<Droplet>, d: Droplet, macOf: string -> string, range: set<string>)
    requires Pairing(macOf, range) && Distinct(ds) && DistinctNames(ds) && NameFree(ds, d.name)
    requires AllAligned(ds, macOf, range)
    requires |d.mac| == |d.ip| && forall i :: 0 <= i < |d.ip| ==> d.mac[i] == macOf(d.ip[i])
    requires Owned(ds) + multiset(d.ip) == multiset(range) && (range != {} ==> d.ip != [])
    ensures Partitioned(ds + [d], macOf, range)
  {
    hide Owned, Ips, All;
    TakenFits(Owned(ds), d.ip, range);
    OwnedConcat(ds, [d]);
    OwnedOne(d);
  }

  class Cluster {
    const macOf: string -> string
    ghost const range: set<string>
    var droplets: seq<Droplet>

    constructor (macOf: string -> string, ghost range: set<string>)
      requires Pairing(macOf, range)
      ensures this.macOf == macOf && this.range == range && droplets == [] && Valid()
    {
      this.macOf, this.range, droplets := macOf, range, [];
    }

    ghost predicate Valid()
      reads this, droplets
    {
      Partitioned(droplets, macOf, range)
    }

    /** Every address of the range is on exactly one list, in exactly one place. */
    lemma Partition(a: string) returns (i: nat, k: nat)
      requires Valid() && droplets != [] && a in range
      ensures i < |droplets| && k < |droplets[i].ip| && droplets[i].ip[k] == a
      ensures forall i', k' :: 0 <= i' < |droplets| && 0 <= k' < |droplets[i'].ip| && droplets[i'].ip[k'] == a
                ==> i' == i && k' == k
    {
      i := OwnerOf(Ips(droplets), a);
      assert a in droplets[i].ip;
      k :| 0 <= k < |droplets[i].ip| && droplets[i].ip[k] == a;
      forall i', k' | 0 <= i' < |droplets| && 0 <= k' < |droplets[i'].ip| && droplets[i'].ip[k'] == a
        ensures i' == i && k' == k
      {
        if i' != i {
          TwoOwners(Ips(droplets), i, i', a);
        }
      }
    }

    /** A wing node joins: the first one gets the whole range; a later one collects its fair share
        from the droplets that can spare an address, unless that share is nothing. Every droplet
        ends with what the least sufficient number of passes leaves it. If the name of the new
        droplet is taken, exactly the collected addresses are lost. */
    method AddNode(node: string, gws: seq<(string, string)>)
        returns (r: JoinOutcome, ghost passes: nat, ghost t: nat)
      requires Valid() && Gateways(gws, macOf, range)
      modifies this, droplets
      ensures Valid() <==> !r.NameTaken?
      ensures old(droplets) == [] ==>
        && r.FirstNode? && droplets == [r.droplet] && r.droplet.name == DropletName(node)
        && |r.droplet.ip| == |gws| && forall i :: 0 <= i < |gws| ==> r.droplet.ip[i] == gws[i].0
      ensures old(droplets) != [] ==> IsShare(t, |range|, |old(droplets)|)
      ensures r == NotEnough <==> old(droplets) != [] && |range| < |old(droplets)| + 1
      ensures old(droplets) != [] ==>
        var was := old(Ips(droplets));
        if r == NotEnough then droplets == old(droplets) && Ips(droplets) == was
        else
          && (if NameFree(old(droplets), DropletName(node)) then
                r.Joined? && r.newDroplet.name == DropletName(node) && droplets == old(droplets) + [r.newDroplet]
              else r.NameTaken? && droplets == old(droplets) && Owned(droplets) + multiset(r.lost) == multiset(range))
          && var got := if r.Joined? then r.newDroplet.ip else r.lost;
            && LeastPasses(was, Ips(old(droplets)), passes, t, |got|)
            && InTurn(was, passes, got)
            && t <= |got| <= t + |old(Donors(droplets))| - 1
            && Changed(r.modified, old(droplets), was)
    {
      passes, t := 0, 0;
      if droplets == [] {
        r := AddFirst(node, gws);
      } else {
        r, passes, t := AddLater(node);
      }
    }

    method AddLater(node: string) returns (r: JoinOutcome, ghost passes: nat, ghost share: nat)
      requires Valid() && droplets != []
      modifies this, droplets
      ensures Valid() <==> !r.NameTaken?
      ensures IsShare(share, |range|, |old(droplets)|)
      ensures r == NotEnough <==> |range| < |old(droplets)| + 1
      ensures r.Joined? || r.NameTaken? || r == NotEnough
      ensures var was := old(Ips(droplets));
        if r == NotEnough then droplets == old(droplets) && Ips(droplets) == was
        else
          && (if NameFree(old(droplets), DropletName(node)) then
                r.Joined? && r.newDroplet.name == DropletName(node) && droplets == old(droplets) + [r.newDroplet]
              else r.NameTaken? && droplets == old(droplets) && Owned(droplets) + multiset(r.lost) == multiset(range))
          && var got := if r.Joined? then r.newDroplet.ip else r.lost;
            && LeastPasses(was, Ips(old(droplets)), passes, share, |got|)
            && InTurn(was, passes, got)
            && share <= |got| <= share + |old(Donors(droplets))| - 1
            && Changed(r.modified, old(droplets), was)
    {
      hide LeastPasses, Changed, Donors, NameFree, FairShare, IsShare, InTurn;
      var totalIp, donors := SplitDonors(droplets);
      assert totalIp == |range|;
      var t := FairShare(totalIp, |droplets|);
      share := t;
      FairShareIsShare(totalIp, |droplets|);
      if t == 0 {
        return NotEnough, 0, 0;
      }
      FairShareFits(totalIp, |droplets|);
      r, passes := Join(node, donors, t);
    }

    /** The joining node collects `t` addresses or a few more. */
    method Join(node: string, donors: seq<Droplet>, t: nat) returns (r: JoinOutcome, ghost passes: nat)
      requires Valid() && donors == Donors(droplets) && AllAligned(droplets, macOf, range)
      requires Owned(droplets) == multiset(range) && droplets != [] && t > 0 && t + |droplets| <= |range|
      modifies this, droplets
      ensures Valid() <==> !r.NameTaken?
      ensures if NameFree(old(droplets), DropletName(node)) then
                r.Joined? && r.newDroplet.name == DropletName(node) && droplets == old(droplets) + [r.newDroplet]
              else r.NameTaken? && droplets == old(droplets) && Owned(droplets) + multiset(r.lost) == multiset(range)
      ensures var got, was := if r.Joined? then r.newDroplet.ip else r.lost, old(Ips(droplets));
        && LeastPasses(was, Ips(old(droplets)), passes, t, |got|)
        && InTurn(was, passes, got)
        && t <= |got| <= t + |donors| - 1
        && Changed(r.modified, old(droplets), was)
    {
      hide LeastPasses, Changed, Donors, Owned, AllAligned, InTurn;
      var taken, modified;
      taken, modified, passes := CollectFrom(droplets, donors, t, macOf, range);
      if NameFree(droplets, DropletName(node)) {
        var d := Append(node, taken);
        r := Joined(d, modified);
      } else {
        r := NameTaken(taken, modified);
        LostAreMissing(Owned(droplets), taken, range);
      }
    }

    /** The collected addresses, with their MACs, become a new droplet. */
    method Append(node: string, taken: seq<string>) returns (d: Droplet)
      requires Pairing(macOf, range) && Distinct(droplets) && DistinctNames(droplets)
      requires NameFree(droplets, DropletName(node)) && AllAligned(droplets, macOf, range)
      requires Owned(droplets) + multiset(taken) == multiset(range) && taken != []
      modifies this
      ensures Valid() && droplets == old(droplets) + [d] && fresh(d)
      ensures d.ip == taken && d.name == DropletName(node)
    {
      hide Owned, AllAligned, NameFree, DistinctNames, Distinct;
      var macs := seq(|taken|, i requires 0 <= i < |taken| => macOf(taken[i]));
      d := new Droplet(DropletName(node), taken, macs);
      Extend(droplets, d, macOf, range);
      droplets := droplets + [d];
    }

    method AddFirst(node: string, gws: seq<(string, string)>) returns (r: JoinOutcome)
      requires Valid() && Gateways(gws, macOf, range) && droplets == []
      modifies this
      ensures Valid() && r.FirstNode? && fresh(r.droplet) && droplets == [r.droplet]
      ensures r.droplet.name == DropletName(node)
      ensures |r.droplet.ip| == |gws| && forall i :: 0 <= i < |gws| ==> r.droplet.ip[i] == gws[i].0
    {
      var ips := seq(|gws|, i requires 0 <= i < |gws| => gws[i].0);
      var macs := seq(|gws|, i requires 0 <= i < |gws| => gws[i].1);
      var first := new Droplet(DropletName(node), ips, macs);
      assert multiset{} + multiset(ips) == multiset(range);
      Extend([], first, macOf, range);
      droplets := [] + [first];
      r := FirstNode(first);
    }

    /** A wing node leaves: its droplet goes, and its addresses are dealt to the others, shortest
        list first, so that each gains an even share and no spread grows beyond one. Removing the last
        droplet fails on the division by the number of others. */
    method RemoveNode(node: string)
      returns (r: LeaveOutcome, ghost sorted: seq<Droplet>, ghost wasSorted: seq<seq<string>>)
      requires Valid()
      modifies this, droplets
      ensures Valid()
      ensures r == NotFound <==> NameFree(old(droplets), DropletName(node))
      ensures !r.Left? ==> droplets == old(droplets) && Ips(droplets) == old(Ips(droplets))
      ensures r == DivisionByZero <==> |old(droplets)| == 1 && old(droplets)[0].name == DropletName(node) && range != {}
      ensures r.Left? ==> r.gone.name == DropletName(node) && TakenOut(old(droplets), r.gone, droplets)
      ensures r.Left? && droplets != [] ==>
        && multiset(sorted) == multiset(droplets) && |wasSorted| == |sorted| > 0
        && SamePlaces(old(droplets), old(Ips(droplets)), sorted, wasSorted) && ShortestFirst(wasSorted)
        && Steady(old(droplets), sorted, wasSorted)
        && SamePlaces(old(droplets), old(Ips(droplets)), [r.gone], [r.gone.ip])
        && Ips(sorted) == Dealt(wasSorted, r.gone.ip, |r.gone.ip|)
        && Even(wasSorted, Ips(sorted), |r.gone.ip|)
        && Changed(r.modified, sorted, wasSorted)
    {
      var i := Find(node);
      if i == |droplets| {
        return NotFound, [], [];
      }
      r, sorted, wasSorted := RemoveAt(i);
    }

    /** The position of the node's droplet. */
    method Find(node: string) returns (i: nat)
      requires Valid()
      ensures i <= |droplets|
      ensures i == |droplets| <==> NameFree(droplets, DropletName(node))
      ensures i < |droplets| ==> droplets[i].name == DropletName(node)
    {
      i := 0;
      while i < |droplets| && droplets[i].name != DropletName(node)
        invariant 0 <= i <= |droplets|
        invariant forall j :: 0 <= j < i ==> droplets[j].name != DropletName(node)
      {
        i := i + 1;
      }
    }

    method RemoveAt(i: nat)
      returns (r: LeaveOutcome, ghost sorted: seq<Droplet>, ghost wasSorted: seq<seq<string>>)
      requires Valid() && i < |droplets|
      modifies this, droplets
      ensures Valid() && r != NotFound
      ensures !r.Left? ==> droplets == old(droplets) && Ips(droplets) == old(Ips(droplets))
      ensures r == DivisionByZero <==> |old(droplets)| == 1 && range != {}
      ensures r.Left? ==> r.gone == old(droplets)[i] && TakenOut(old(droplets), r.gone, droplets)
      ensures r.Left? && droplets != [] ==>
        && multiset(sorted) == multiset(droplets) && |wasSorted| == |sorted| > 0
        && SamePlaces(old(droplets), old(Ips(droplets)), sorted, wasSorted) && ShortestFirst(wasSorted)
        && Steady(old(droplets), sorted, wasSorted)
        && SamePlaces(old(droplets), old(Ips(droplets)), [r.gone], [r.gone.ip])
        && Ips(sorted) == Dealt(wasSorted, r.gone.ip, |r.gone.ip|)
        && Even(wasSorted, Ips(sorted), |r.gone.ip|)
        && Changed(r.modified, sorted, wasSorted)
    {
      hide SamePlaces, Changed, Owned, Dealt, Even, ShortestFirst, AllAligned, Steady;
      ghost var ds, was := droplets, Ips(droplets);
      var gone := droplets[i];
      var survivors := droplets[..i] + droplets[i + 1..];
      Remain(droplets, i, macOf, range);
      if survivors == [] {
        if gone.ip != [] {
          return DivisionByZero, [], [];
        }
        r, sorted, wasSorted := Left(gone, {}), [], [];
        droplets := survivors;
        return;
      }
      ghost var wasRest := Ips(survivors);
      var modified;
      modified, sorted, wasSorted := DealAway(survivors, gone.ip, macOf, range);
      r := Left(gone, modified);
      droplets := survivors;
      Evenly(wasSorted, gone.ip);
      PlacesInWhole(ds, was, i, survivors, wasRest, sorted, wasSorted);
      SteadyInWhole(ds, i, survivors, sorted, wasSorted);
    }
  }

  lemma Remain(ds: seq<Droplet>, i: nat, macOf: string -> string, range: set<string>)
    requires Partitioned(ds, macOf, range) && i < |ds|
    ensures var rest := ds[..i] + ds[i + 1..];
      && ds[i] !in rest
      && (rest != [] ==> Remainder(rest, ds[i].ip, macOf, range))
      && (rest == [] ==> |ds| == 1 && (ds[i].ip == [] <==> range == {}))
      && SamePlaces(ds, Ips(ds), rest, Ips(rest))
      && SamePlaces(ds, Ips(ds), [ds[i]], [ds[i].ip])
  {
    var rest := ds[..i] + ds[i + 1..];
    WithoutOne(ds, i);
    forall j | 0 <= j < |rest|
      ensures rest[j] == ds[if j < i then j else j + 1]
    {
    }
    if rest == [] {
      assert Ips(rest) == [];
      assert multiset(ds[i].ip) == multiset(range);
      if ds[i].ip != [] {
        assert ds[i].ip[0] in multiset(ds[i].ip);
      }
    }
  }

  lemma PlacesInWhole(ds: seq<Droplet>, was: seq<seq<string>>, i: nat, rest: seq<Droplet>, wasRest: seq<seq<string>>,
                      sorted: seq<Droplet>, wasSorted: seq<seq<string>>)
    requires Distinct(ds) && |was| == |ds| && |wasRest| == |rest| && |wasSorted| == |sorted| && i < |ds|
    requires rest == ds[..i] + ds[i + 1..] && multiset(sorted) == multiset(rest)
    requires SamePlaces(ds, was, rest, wasRest) && SamePlaces(rest, wasRest, sorted, wasSorted)
    ensures SamePlaces(ds, was, sorted, wasSorted)
  {
    forall k, j | 0 <= k < |ds| && 0 <= j < |sorted| && ds[k] == sorted[j]
      ensures was[k] == wasSorted[j]
    {
      assert sorted[j] in multiset(rest);
      var l :| 0 <= l < |rest| && rest[l] == sorted[j];
    }
  }

  lemma SteadyInWhole(ds: seq<Droplet>, i: nat, rest: seq<Droplet>, sorted: seq<Droplet>, was: seq<seq<string>>)
    requires i < |ds| && rest == ds[..i] + ds[i + 1..] && |was| == |sorted| && Steady(rest, sorted, was)
    ensures Steady(ds, sorted, was)
  {
    forall a, b | 0 <= a < b < |sorted| && |was[a]| == |was[b]|
      ensures Before(ds, sorted[a], sorted[b])
    {
      var k, l :| 0 <= k < l < |rest| && rest[k] == sorted[a] && rest[l] == sorted[b];
      assert ds[if k < i then k else k + 1] == rest[k] && ds[if l < i then l else l + 1] == rest[l];
    }
  }

  /** Lists in ascending order of length. */
  ghost predicate ShortestFirst(ips: seq<seq<string>>) {
    forall i, j :: 0 <= i < j < |ips| ==> |ips[i]| <= |ips[j]|
  }

  /** What is left when the droplets of one node leave a partition. */
  ghost predicate Remainder(ds: seq<Droplet>, cards: seq<string>, macOf: string -> string, range: set<string>)
    reads ds
  {
    && Pairing(macOf, range) && Distinct(ds) && DistinctNames(ds) && ds != []
    && (forall i :: 0 <= i < |ds| ==> ds[i].Aligned(macOf, range))
    && Owned(ds) + multiset(cards) == multiset(range)
    && (range != {} ==> forall i :: 0 <= i < |ds| ==> |ds[i].ip| >= 1)
  }

  method SortSurvivors(ds: seq<Droplet>, ghost was: seq<seq<string>>, cards: seq<string>,
                       macOf: string -> string, ghost range: set<string>)
    returns (sorted: seq<Droplet>, ghost wasSorted: seq<seq<string>>)
    requires Remainder(ds, cards, macOf, range) && was == Ips(ds)
    ensures Remainder(sorted, cards, macOf, range) && wasSorted == Ips(sorted)
    ensures multiset(sorted) == multiset(ds) && forall i :: 0 <= i < |sorted| ==> sorted[i] in ds
    ensures SamePlaces(ds, was, sorted, wasSorted) && ShortestFirst(wasSorted) && Steady(ds, sorted, wasSorted)
  {
    sorted := SortByLength(ds, false);
    DistinctPermutation(ds, sorted);
    OwnedPermutation(ds, sorted);
    RemainderPermutation(ds, sorted, cards, macOf, range);
    wasSorted := Ips(sorted);
    assert Ips(ds) == was;
  }

  lemma RemainderPermutation(ds: seq<Droplet>, sorted: seq<Droplet>, cards: seq<string>,
                             macOf: string -> string, range: set<string>)
    requires Remainder(ds, cards, macOf, range) && multiset(sorted) == multiset(ds)
    ensures Remainder(sorted, cards, macOf, range)
  {
    DistinctPermutation(ds, sorted);
    OwnedPermutation(ds, sorted);
    forall i | 0 <= i < |sorted|
      ensures sorted[i].Aligned(macOf, range) && (range != {} ==> |sorted[i].ip| >= 1)
    {
      assert sorted[i] in ds;
    }
    forall i, j | 0 <= i < j < |sorted|
      ensures sorted[i].name != sorted[j].name
    {
      assert sorted[i] in ds && sorted[j] in ds;
    }
  }

  /** Deals the cards to the droplets, shortest list first. */
  method DealAway(ds: seq<Droplet>, cards: seq<string>, macOf: string -> string, ghost range: set<string>)
    returns (modified: set<Droplet>, ghost sorted: seq<Droplet>, ghost wasSorted: seq<seq<string>>)
    requires Remainder(ds, cards, macOf, range)
    modifies ds
    ensures Partitioned(ds, macOf, range)
    ensures multiset(sorted) == multiset(ds) && |wasSorted| == |sorted|
    ensures SamePlaces(ds, old(Ips(ds)), sorted, wasSorted) && ShortestFirst(wasSorted)
    ensures Steady(ds, sorted, wasSorted)
    ensures sorted != [] && Ips(sorted) == Dealt(wasSorted, cards, |cards|)
    ensures Changed(modified, sorted, wasSorted)
  {
    ghost var was := Ips(ds);
    var order;
    order, wasSorted := SortSurvivors(ds, was, cards, macOf, range);
    modified := Deal(order, cards, macOf, range);
    sorted := order;
    Survive(ds, sorted, wasSorted, cards, macOf, range);
  }

  lemma Evenly(was: seq<seq<string>>, cards: seq<string>)
    requires |was| > 0 && ShortestFirst(was)
    ensures Even(was, Dealt(was, cards, |cards|), |cards|)
  {
    DealtEvenly(was, cards);
  }

  /** Taking one droplet out takes its addresses out. */
  lemma WithoutOne(ds: seq<Droplet>, i: nat)
    requires i < |ds|
    ensures Owned(ds) == Owned(ds[..i] + ds[i + 1..]) + multiset(ds[i].ip)
    ensures Distinct(ds) ==> ds[i] !in ds[..i] + ds[i + 1..]
  {
    assert ds == (ds[..i] + [ds[i]]) + ds[i + 1..];
    OwnedConcat(ds[..i] + [ds[i]], ds[i + 1..]);
    OwnedConcat(ds[..i], [ds[i]]);
    OwnedConcat(ds[..i], ds[i + 1..]);
    OwnedOne(ds[i]);
  }

  /** After the deal the survivors partition the range. */
  lemma Survive(ds: seq<Droplet>, sorted: seq<Droplet>, was: seq<seq<string>>, cards: seq<string>,
                macOf: string -> string, range: set<string>)
    requires Pairing(macOf, range) && Distinct(ds) && DistinctNames(ds) && ds != [] && multiset(sorted) == multiset(ds)
    requires |was| == |sorted| && Ips(sorted) == Dealt(was, cards, |cards|)
    requires forall i :: 0 <= i < |sorted| ==> sorted[i].Aligned(macOf, range)
    requires All(was) + multiset(cards) == multiset(range)
    requires range != {} ==> forall i :: 0 <= i < |was| ==> |was[i]| >= 1
    ensures Partitioned(ds, macOf, range)
  {
    DistinctPermutation(ds, sorted);
    OwnedPermutation(ds, sorted);
    DealtConserves(was, cards, |cards|);
    assert cards[..|cards|] == cards;
    forall i | 0 <= i < |ds|
      ensures ds[i].Aligned(macOf, range) && (range != {} ==> |ds[i].ip| >= 1)
    {
      assert ds[i] in sorted;
      var j :| 0 <= j < |sorted| && sorted[j] == ds[i];
      DealtShare(was, cards, |cards|, j);
      assert Ips(sorted)[j] == ds[i].ip;
    }
  }

  lemma LostAreMissing(rest: multiset<string>, lost: seq<string>, range: set<string>)
    requires rest + multiset(lost) == multiset(range) && lost != []
    ensures rest != multiset(range)
  {
    assert |rest + multiset(lost)| == |rest| + |lost|;
  }

  lemma TakenFits(rest: multiset<string>, taken: seq<string>, range: set<string>)
    requires rest + multiset(taken) == multiset(range)
    ensures NoDuplicates(taken) && forall i :: 0 <= i < |taken| ==> taken[i] in range
  {
    MultiplicityOne(taken, multiset(range));
    forall i | 0 <= i < |taken|
      ensures taken[i] in range
    {
      assert taken[i] in multiset(taken);
    }
  }

  lemma {:induction false} OwnerOf(ips: seq<seq<string>>, a: string) returns (i: nat)
    requires a in All(ips)
    ensures i < |ips| && a in ips[i]
  {
    if a in multiset(ips[0]) {
      i := 0;
    } else {
      i := OwnerOf(ips[1..], a);
      i := i + 1;
    }
  }

  lemma {:induction false} TwoOwners(ips: seq<seq<string>>, i: nat, j: nat, a: string)
    requires i < |ips| && j < |ips| && i != j && a in ips[i] && a in ips[j]
    ensures All(ips)[a] >= 2
  {
    if i == 0 {
      AllContains(ips[1..], j - 1);
    } else if j == 0 {
      AllContains(ips[1..], i - 1);
    } else {
      TwoOwners(ips[1..], i - 1, j - 1, a);
    }
  }
}
