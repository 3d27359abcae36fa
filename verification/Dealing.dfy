/** Dealing a leaving droplet's addresses out to the others, the shortest first. */
module Dealing {
  import opened Arithmetic
  import opened Droplets

  /** The lists after the first `n` of `cards` were dealt round-robin. */
  ghost function Dealt(was: seq<seq<string>>, cards: seq<string>, n: nat): (r: seq<seq<string>>)
    requires |was| > 0 && n <= |cards|
    ensures |r| == |was|
  {
    if n == 0 then was
    else
      var r, j := Dealt(was, cards, n - 1), (n - 1) % |was|;
      r[j := r[j] + [cards[n - 1]]]
  }

  /** Each list keeps what it had and gains its share of the cards. */
  lemma {:induction false} DealtShare(was: seq<seq<string>>, cards: seq<string>, n: nat, i: nat)
    requires |was| > 0 && n <= |cards| && i < |was|
    ensures was[i] <= Dealt(was, cards, n)[i]
    ensures |Dealt(was, cards, n)[i]| == |was[i]| + Share(n, |was|, i)
  {
    if n > 0 {
      DealtShare(was, cards, n - 1, i);
      ShareStep(n - 1, |was|, i);
    }
  }

  /** The `j`-th card a list gains comes `j` rounds behind its first one. */
  lemma {:induction false} DealtCard(was: seq<seq<string>>, cards: seq<string>, n: nat, i: nat, j: nat)
    requires |was| > 0 && n <= |cards| && i < |was| && i + j * |was| < n
    ensures |was[i]| + j < |Dealt(was, cards, n)[i]|
    ensures Dealt(was, cards, n)[i][|was[i]| + j] == cards[i + j * |was|]
  {
    var m := |was|;
    DealtShare(was, cards, n - 1, i);
    if i + j * m < n - 1 {
      DealtCard(was, cards, n - 1, i, j);
    } else {
      PlaceOfCard(i, j, m);
    }
  }

  lemma PlaceOfCard(i: nat, j: nat, m: nat)
    requires i < m
    ensures (i + j * m) % m == i && Share(i + j * m, m, i) == j
  {
    DivModUnique(i + j * m, m, j, i);
  }

  /** Nothing is lost or duplicated. */
  lemma {:induction false} DealtConserves(was: seq<seq<string>>, cards: seq<string>, n: nat)
    requires |was| > 0 && n <= |cards|
    ensures All(Dealt(was, cards, n)) == All(was) + multiset(cards[..n])
  {
    hide All;
    if n > 0 {
      var r, j := Dealt(was, cards, n - 1), (n - 1) % |was|;
      DealtConserves(was, cards, n - 1);
      OneCard(r, j, cards[n - 1]);
      assert cards[..n] == cards[..n - 1] + [cards[n - 1]];
    }
  }

  lemma OneCard(r: seq<seq<string>>, j: nat, card: string)
    requires j < |r|
    ensures All(r[j := r[j] + [card]]) == All(r) + multiset{card}
  {
    hide All;
    AllUpdate(r, j, r[j] + [card]);
    Gains(All(r[j := r[j] + [card]]), All(r), multiset(r[j]), multiset{card});
  }

  lemma Gains(a: multiset<string>, b: multiset<string>, c: multiset<string>, x: multiset<string>)
    requires a + c == b + (c + x)
    ensures a == b + x
  {
    assert a == (a + c) - c;
    assert b + x == (b + (c + x)) - c;
  }

  ghost predicate Within(sizes: seq<nat>, spread: nat) {
    forall i, j :: 0 <= i < |sizes| && 0 <= j < |sizes| ==> sizes[i] <= sizes[j] + spread
  }

  ghost function Lengths(ips: seq<seq<string>>): (r: seq<nat>)
    ensures |r| == |ips| && forall i :: 0 <= i < |ips| ==> r[i] == |ips[i]|
  {
    seq(|ips|, i requires 0 <= i < |ips| => |ips[i]|)
  }

  /** Because the shortest lists come first, dealing never widens a spread beyond one. */
  lemma DealtSpread(was: seq<seq<string>>, cards: seq<string>, spread: nat)
    requires |was| > 0 && Within(Lengths(was), spread)
    requires forall i, j :: 0 <= i < j < |was| ==> |was[i]| <= |was[j]|
    ensures Within(Lengths(Dealt(was, cards, |cards|)), if spread > 1 then spread else 1)
  {
    var r := Dealt(was, cards, |cards|);
    forall i, j | 0 <= i < |was| && 0 <= j < |was|
      ensures |r[i]| <= |r[j]| + if spread > 1 then spread else 1
    {
      DealtShare(was, cards, |cards|, i);
      DealtShare(was, cards, |cards|, j);
      assert Lengths(was)[i] <= Lengths(was)[j] + spread;
    }
  }

  /** What dealing `k` cards makes of the lists: each keeps what it had and gains k / m cards, the
      first k mod m one more, and a spread does not grow beyond one. */
  ghost predicate Even(was: seq<seq<string>>, now: seq<seq<string>>, k: nat) {
    && |now| == |was| > 0
    && (forall i :: 0 <= i < |was| ==> was[i] <= now[i] && |now[i]| == |was[i]| + Share(k, |was|, i))
    && forall spread: nat :: Within(Lengths(was), spread) ==> Within(Lengths(now), if spread > 1 then spread else 1)
  }

  lemma DealtEvenly(was: seq<seq<string>>, cards: seq<string>)
    requires |was| > 0 && forall i, j :: 0 <= i < j < |was| ==> |was[i]| <= |was[j]|
    ensures Even(was, Dealt(was, cards, |cards|), |cards|)
  {
    hide Dealt, Within, Lengths, Share;
    var now := Dealt(was, cards, |cards|);
    forall i | 0 <= i < |was|
      ensures was[i] <= now[i] && |now[i]| == |was[i]| + Share(|cards|, |was|, i)
    {
      DealtShare(was, cards, |cards|, i);
    }
    forall spread: nat | Within(Lengths(was), spread)
      ensures Within(Lengths(now), if spread > 1 then spread else 1)
    {
      DealtSpread(was, cards, spread);
    }
  }

  lemma {:induction false} MultiplicityOne(s: seq<string>, m: multiset<string>)
    requires multiset(s) <= m && forall x :: m[x] <= 1
    ensures NoDuplicates(s)
  {
    if s != [] {
      var front, last := s[..|s| - 1], s[|s| - 1];
      assert s == front + [last];
      assert multiset(s)[last] == multiset(front)[last] + 1;
      MultiplicityOne(front, m);
      assert last !in front;
    }
  }

  /** Deals `cards` to the droplets in order. */
  method Deal(ds: seq<Droplet>, cards: seq<string>, macOf: string -> string, ghost range: set<string>)
    returns (modified: set<Droplet>)
    requires ds != [] && Distinct(ds)
    requires forall i :: 0 <= i < |ds| ==> ds[i].Aligned(macOf, range)
    requires Owned(ds) + multiset(cards) <= multiset(range)
    modifies ds
    ensures Ips(ds) == Dealt(old(Ips(ds)), cards, |cards|)
    ensures forall i :: 0 <= i < |ds| ==> ds[i].Aligned(macOf, range)
    ensures Changed(modified, ds, old(Ips(ds)))
  {
    hide Dealt, Differ, All, Distinct;
    modified := {};
    ghost var was := Ips(ds);
    NoneDealt(ds, was, cards);
    for index := 0 to |cards|
      invariant Ips(ds) == Dealt(was, cards, index)
      invariant forall i :: 0 <= i < |ds| ==> ds[i].Aligned(macOf, range)
      invariant Changed(modified, ds, was)
    {
      var ip := cards[index];
      ghost var ips, j := Ips(ds), index % |ds|;
      FreshCard(was, cards, index, j, range);
      DealtStep(ds, was, cards, index, modified);
      var droplet := ds[index % |ds|];
      assert droplet.ip == ips[j];
      TakeOne(ds, j, droplet, ip, macOf, range);
      modified := modified + {droplet};
    }
  }

  lemma NoneDealt(ds: seq<Droplet>, was: seq<seq<string>>, cards: seq<string>)
    requires |was| == |ds| > 0
    ensures Dealt(was, cards, 0) == was && Differ({}, ds, was, was)
  {
  }

  /** One more card is dealt, to a list that then differs. */
  lemma DealtStep(ds: seq<Droplet>, was: seq<seq<string>>, cards: seq<string>, n: nat, modified: set<Droplet>)
    requires |was| == |ds| > 0 && Distinct(ds) && n < |cards| && Differ(modified, ds, Dealt(was, cards, n), was)
    ensures var now, j := Dealt(was, cards, n), n % |ds|;
      && Dealt(was, cards, n + 1) == now[j := now[j] + [cards[n]]]
      && Differ(modified + {ds[j]}, ds, Dealt(was, cards, n + 1), was)
  {
    var j := n % |ds|;
    DealtShare(was, cards, n, j);
    DealtShare(was, cards, n + 1, j);
    var now := Dealt(was, cards, n);
    assert |now[j] + [cards[n]]| > |was[j]|;
  }

  method TakeOne(ghost ds: seq<Droplet>, ghost j: nat, droplet: Droplet, ip: string, macOf: string -> string,
                 ghost range: set<string>)
    requires Distinct(ds) && j < |ds| && ds[j] == droplet
    requires forall i :: 0 <= i < |ds| ==> ds[i].Aligned(macOf, range)
    requires ip in range && ip !in droplet.ip
    modifies droplet
    ensures forall i :: 0 <= i < |ds| ==> ds[i].Aligned(macOf, range)
    ensures droplet.ip == old(droplet.ip) + [ip]
    ensures Ips(ds) == old(Ips(ds))[j := droplet.ip]
  {
    droplet.Take(ip, macOf, range);
  }

  lemma CardsAhead(cards: seq<string>, n: nat)
    requires n < |cards|
    ensures multiset(cards)[cards[n]] >= multiset(cards[..n])[cards[n]] + 1
  {
    assert cards == cards[..n] + ([cards[n]] + cards[n + 1..]);
  }

  /** A card still to be dealt is on no list. */
  lemma FreshCard(was: seq<seq<string>>, cards: seq<string>, n: nat, j: nat, range: set<string>)
    requires |was| > 0 && n < |cards| && j < |was|
    requires All(was) + multiset(cards) <= multiset(range)
    ensures cards[n] in range && cards[n] !in Dealt(was, cards, n)[j]
  {
    hide Dealt, All;
    var x, r := cards[n], Dealt(was, cards, n);
    DealtConserves(was, cards, n);
    AllContains(r, j);
    CardsAhead(cards, n);
    assert (All(was) + multiset(cards))[x] <= multiset(range)[x] <= 1;
    assert multiset(r[j])[x] == 0;
  }
}
