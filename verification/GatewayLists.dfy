/** Lists of gateway entries for consecutive addresses, whatever an entry's text is. */
module GatewayLists {
  import opened Droplets
  import opened Clusters

  /** The texts of the addresses from `first` to `last`. */
  ghost function Texts(text: nat -> string, first: nat, last: int): set<string> {
    set n: nat | first <= n <= last :: text(n)
  }

  /** Different addresses up to `last` have different texts. */
  ghost predicate Distinguishes(text: nat -> string, first: nat, last: int) {
    forall m: nat, n: nat :: first <= m <= last && first <= n <= last && text(m) == text(n) ==> m == n
  }

  lemma TextsStep(text: nat -> string, first: nat, last: nat)
    requires first <= last && Distinguishes(text, first, last)
    ensures Texts(text, first, last) == Texts(text, first, last - 1) + {text(last)}
    ensures text(last) !in Texts(text, first, last - 1)
  {
    assert forall n: nat :: first <= n <= last - 1 ==> text(n) != text(last);
  }

  /** A range holds as many texts as numbers. */
  lemma {:induction false} TextsSize(text: nat -> string, first: nat, last: int)
    requires first - 1 <= last && Distinguishes(text, first, last)
    ensures |Texts(text, first, last)| == last - first + 1
    decreases last - first
  {
    if last < first {
      assert Texts(text, first, last) == {};
    } else {
      TextsSize(text, first, last - 1);
      TextsStep(text, first, last);
    }
  }

  /** The entries for the addresses from `start` on, in order. */
  ghost predicate Listing(gws: seq<(string, string)>, start: nat, text: nat -> string, macOf: string -> string) {
    forall i :: 0 <= i < |gws| ==> gws[i] == (text(start + i), macOf(text(start + i)))
  }

  lemma {:induction false} ListingIsGateways(gws: seq<(string, string)>, start: nat, text: nat -> string,
          macOf: string -> string)
    requires Listing(gws, start, text, macOf) && Distinguishes(text, start, start + |gws| - 1)
    ensures Gateways(gws, macOf, Texts(text, start, start + |gws| - 1))
    decreases |gws|
  {
    var ips := seq(|gws|, i requires 0 <= i < |gws| => gws[i].0);
    if gws == [] {
      assert Texts(text, start, start - 1) == {};
    } else {
      var front, last := gws[..|gws| - 1], start + |gws| - 1;
      ListingIsGateways(front, start, text, macOf);
      TextsStep(text, start, last);
      assert ips == seq(|front|, i requires 0 <= i < |front| => front[i].0) + [text(last)];
    }
  }

  /** The loop of `getGWsFromIpRange`. */
  method FromTo(start: nat, end: nat, entry: nat -> (string, string)) returns (gws: seq<(string, string)>)
    ensures |gws| == if start <= end then end - start + 1 else 0
    ensures forall i :: 0 <= i < |gws| ==> gws[i] == entry(start + i)
  {
    gws := [];
    for ipint := start to if start <= end then end + 1 else start
      invariant |gws| == ipint - start
      invariant forall i :: 0 <= i < |gws| ==> gws[i] == entry(start + i)
    {
      gws := gws + [entry(ipint)];
    }
  }

  /** The entrances sent to a droplet's node: each address with the MAC that belongs to it. */
  method ItfEntrances(d: Droplet, macOf: string -> string,
                      ghost range: set<string>) returns (entrances: seq<(string, string)>)
    requires d.Aligned(macOf, range)
    ensures |entrances| == |d.ip|
    ensures forall i :: 0 <= i < |entrances| ==> entrances[i] == (d.ip[i], macOf(d.ip[i]))
  {
    entrances := [];
    for idx := 0 to |d.ip|
      invariant |entrances| == idx
      invariant forall i :: 0 <= i < idx ==> entrances[i] == (d.ip[i], macOf(d.ip[i]))
    {
      entrances := entrances + [(d.ip[idx], d.mac[idx])];
    }
  }
}
