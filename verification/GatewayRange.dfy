/** The gateway addresses of a configured range, and the cluster that hands them out
    (src/mgmt/manager/project/api/utils.py, nodes.py). */
module GatewayRange {
  import opened Bytes
  import opened Addresses
  import opened Droplets
  import opened Clusters
  import opened GatewayLists

  /** The canonical text of a 32-bit address. */
  predicate IsAddress(ip: string) {
    var n := IpToInt(ip);
    n.Some? && n.value < TWO_TO_THE_32 && IpText(n.value) == ip
  }

  /** `get_mac_from_ip` with a configured prefix, made total. */
  function MacOf(mp: nat): string -> string
    requires MacPrefix(mp)
  {
    ip => if IsAddress(ip) then MacFromIp(ip, mp) else ""
  }

  ghost function RangeOf(first: nat, last: int): set<string> {
    Texts(IpText, first, last)
  }

  lemma TextOfAddress(n: nat)
    requires n < TWO_TO_THE_32
    ensures IsAddress(IpText(n)) && IpToInt(IpText(n)) == Some(n)
  {
    IpRoundTrip(n);
  }

  lemma IpTextDistinguishes(first: nat, last: int)
    requires last < TWO_TO_THE_32
    ensures Distinguishes(IpText, first, last)
  {
    forall m: nat, n: nat | first <= m <= last && first <= n <= last && IpText(m) == IpText(n)
      ensures m == n
    {
      IpRoundTrip(m);
      IpRoundTrip(n);
    }
  }

  /** A range holds as many addresses as numbers. */
  lemma RangeSize(first: nat, last: int)
    requires first - 1 <= last < TWO_TO_THE_32
    ensures |RangeOf(first, last)| == last - first + 1
  {
    IpTextDistinguishes(first, last);
    TextsSize(IpText, first, last);
  }

  /** Each address of a range has a MAC of its own. */
  lemma RangePairing(mp: nat, first: nat, last: int)
    requires MacPrefix(mp) && last < TWO_TO_THE_32
    ensures Pairing(MacOf(mp), RangeOf(first, last))
  {
    var macOf, range := MacOf(mp), RangeOf(first, last);
    forall a, b | a in range && b in range && macOf(a) == macOf(b)
      ensures a == b
    {
      var m: nat :| first <= m <= last && a == IpText(m);
      var n: nat :| first <= n <= last && b == IpText(n);
      TextOfAddress(m);
      TextOfAddress(n);
      MacInjective(m, n, mp);
    }
  }

  /** One entry of the gateway list: `ipint` as text, and `ipint | MAC_PRIVATE` as a MAC. */
  function Entry(ipint: nat, mp: nat): (r: (string, string))
    requires MacPrefix(mp)
    ensures ipint < TWO_TO_THE_32 ==> r == (IpText(ipint), MacOf(mp)(IpText(ipint)))
  {
    if ipint < TWO_TO_THE_32 then
      TextOfAddress(ipint);
      MacNumber(ipint, mp);
      (IpText(ipint), IntToMac(BitOr(ipint, mp)))
    else ("", "")
  }

  /** `getGWsFromIpRange`: every address of the range once, with its MAC. */
  method GetGwsFromIpRange(firstIp: string, lastIp: string, mp: nat) returns (gws: seq<(string, string)>)
    requires MacPrefix(mp)
    requires IpToInt(firstIp).Some? && IpToInt(lastIp).Some? && IpToInt(lastIp).value < TWO_TO_THE_32
    ensures Listing(gws, IpToInt(firstIp).value, IpText, MacOf(mp))
    ensures Gateways(gws, MacOf(mp), RangeOf(IpToInt(firstIp).value, IpToInt(lastIp).value))
  {
    var start, end := IpToInt(firstIp).value, IpToInt(lastIp).value;
    gws := FromTo(start, end, (ipint: nat) => Entry(ipint, mp));
    ListedRange(gws, start, end, mp);
  }

  lemma ListedRange(gws: seq<(string, string)>, start: nat, end: nat, mp: nat)
    requires MacPrefix(mp) && end < TWO_TO_THE_32
    requires |gws| == if start <= end then end - start + 1 else 0
    requires forall i :: 0 <= i < |gws| ==> gws[i] == Entry(start + i, mp)
    ensures Listing(gws, start, IpText, MacOf(mp))
    ensures Gateways(gws, MacOf(mp), RangeOf(start, end))
  {
    IpTextDistinguishes(start, end);
    ListingIsGateways(gws, start, IpText, MacOf(mp));
    if start > end {
      assert RangeOf(start, end) == RangeOf(start, start - 1);
    }
  }

  /** A fresh cluster over a configured range. */
  method NewCluster(firstIp: string, lastIp: string, mp: nat) returns (c: Cluster)
    requires MacPrefix(mp)
    requires IpToInt(firstIp).Some? && IpToInt(lastIp).Some? && IpToInt(lastIp).value < TWO_TO_THE_32
    ensures fresh(c) && c.Valid() && c.droplets == [] && c.macOf == MacOf(mp)
    ensures c.range == RangeOf(IpToInt(firstIp).value, IpToInt(lastIp).value)
  {
    RangePairing(mp, IpToInt(firstIp).value, IpToInt(lastIp).value);
    c := new Cluster(MacOf(mp), RangeOf(IpToInt(firstIp).value, IpToInt(lastIp).value));
  }
}
