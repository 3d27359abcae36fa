/** What the XDP program does with one frame, as a function of the frame and the map contents
    (src/xdp/trn_transit_xdp.c). Offsets are those of Ethernet, option-less IPv4, UDP and a VXLAN
    or Geneve header in front of the inner frame. */
module TransitSpec {
  import opened Bytes
  import opened Checksum
  import opened IpRewrite

  type Mac = m: seq<byte> | |m| == 6 witness [0, 0, 0, 0, 0, 0]
  type Ip4 = a: seq<byte> | |a| == 4 witness [0, 0, 0, 0]

  datatype Action = ABORTED | DROP | PASS | TX | EP_NOT_FOUND

  const MAX_ENTRANCES: nat := 128
  const ROLE_FWD: byte := 0
  const ROLE_FTN: byte := 1

  datatype Entrance = Entrance(ip: Ip4, mac: Mac)

  datatype IfaceRaw = Iface(role: byte, numEntrances: nat, entrances: seq<Entrance>)
  type Iface = i: IfaceRaw | |i.entrances| == MAX_ENTRANCES
    witness Iface(0, 0, seq(MAX_ENTRANCES, _ => Entrance([0, 0, 0, 0], [0, 0, 0, 0, 0, 0])))

  datatype EndpointKey = EndpointKey(vni: nat, ip: Ip4)
  datatype Endpoint = Endpoint(hip: Ip4, mac: Mac, hmac: Mac)

  datatype SgKey = SgKey(vni: nat, port: nat, direction: byte, protocol: byte, srcIp: Ip4, dstIp: Ip4)

  /** The maps the program reads; `sg` tells whether the prefix trie has an entry for a key. */
  datatype Maps = Maps(endpoints: map<EndpointKey, Endpoint>, sg: SgKey -> bool)

  datatype Outcome = Outcome(action: Action, frame: seq<byte>)

  const ETH_P_IP: seq<byte> := [0x08, 0x00]
  const ETH_P_ARP: seq<byte> := [0x08, 0x06]
  const ETH_P_TEB: seq<byte> := [0x65, 0x58]
  const ARPHRD_ETHER: seq<byte> := [0, 1]
  const ARPOP_REQUEST: seq<byte> := [0, 1]
  const ARPOP_REPLY: seq<byte> := [0, 2]
  const GEN_DSTPORT: nat := 0xc117
  const VXL_DSTPORT: nat := 0xb512
  const GNV_OPT_CLASS: nat := 0x0111
  const GNV_OPTIONS: nat := 48
  const SG_EGRESS_PORT: nat := 30011

  /** Big-endian three-byte network identifier. */
  function GetVni(vni: seq<byte>): (r: nat)
    requires |vni| == 3
    ensures r < 0x100_0000
  {
    (vni[0] as int) * 0x10000 + (vni[1] as int) * 0x100 + (vni[2] as int)
  }

  /** The first of the interface's valid entrances with this MAC. */
  function FirstEntrance(itf: Iface, mac: Mac, i: nat := 0): (r: Option<nat>)
    requires i <= MAX_ENTRANCES
    ensures r.Some? ==> i <= r.value < MAX_ENTRANCES && r.value < itf.numEntrances
    ensures r.Some? ==> itf.entrances[r.value].mac == mac
    ensures r.Some? ==> forall j :: i <= j < r.value ==> itf.entrances[j].mac != mac
    ensures r.None? ==> forall j :: i <= j < MAX_ENTRANCES && j < itf.numEntrances ==> itf.entrances[j].mac != mac
    decreases MAX_ENTRANCES - i
  {
    if i >= itf.numEntrances || i >= MAX_ENTRANCES then None
    else if itf.entrances[i].mac == mac then Some(i)
    else FirstEntrance(itf, mac, i + 1)
  }

  // ----- The stages, innermost first

  /** The security-group check on the inner packet at `ip`. */
  function SgVerdict(f: seq<byte>, ip: nat, vni: nat, maps: Maps): (r: Action)
    requires ip + 20 <= |f|
    ensures r in {ABORTED, DROP, PASS}
  {
    var (src, dst, proto) := (f[ip + 12..ip + 16], f[ip + 16..ip + 20], f[ip + 9]);
    if !maps.sg(SgKey(vni, SG_EGRESS_PORT, 0, proto, src, dst)) then DROP
    else if proto != PROTO_TCP && proto != PROTO_UDP then PASS
    else if ip + 20 + (if proto == PROTO_TCP then 20 else 8) > |f| then ABORTED
    else if !maps.sg(SgKey(vni, Word(f[ip + 22], f[ip + 23]), 1, proto, dst, src)) then DROP
    else PASS
  }

  /** The outer Ethernet and IP headers readdressed, with the TTL lowered. */
  function Outer(f: seq<byte>, ethDst: Mac, ethSrc: Mac, saddr: Ip4, daddr: Ip4): (r: seq<byte>)
    requires |f| >= 34
    ensures |r| == |f|
  {
    Splice(Splice(f, 0, ethDst + ethSrc), 14, Readdressed(f[14..34], TtlDown(f[22]), saddr, daddr))
  }

  function InnerIp(f: seq<byte>, eth: nat, vni: nat, maps: Maps): (r: Outcome)
    requires 34 <= eth && eth + 14 <= |f|
    ensures |r.frame| == |f|
  {
    var ip := eth + 14;
    if ip + 20 > |f| then Outcome(ABORTED, f)
    else
      var sg := SgVerdict(f, ip, vni, maps);
      if sg != PASS then Outcome(sg, f)
      else
        var key := EndpointKey(vni, f[ip + 16..ip + 20]);
        if key !in maps.endpoints then Outcome(EP_NOT_FOUND, f)
        else
          var ep := maps.endpoints[key];
          Outcome(TX, Outer(Splice(f, eth, ep.mac), ep.hmac, f[..6], f[30..34], ep.hip))
  }

  /** The ARP reply in place of the request at `eth`: inner Ethernet header, ARP header, sender
      and target. */
  function ArpReply(f: seq<byte>, eth: nat, mac: Mac): (r: seq<byte>)
    requires eth + 42 <= |f|
    ensures |r| == 42
  {
    var arp := eth + 14;
    f[eth + 6..eth + 12] + mac + f[eth + 12..arp + 6] + ARPOP_REPLY
    + mac + f[arp + 24..arp + 28] + f[arp + 8..arp + 14] + f[arp + 14..arp + 18]
  }

  function ArpAnswered(f: seq<byte>, eth: nat, vni: nat, maps: Maps): (r: Outcome)
    requires 34 <= eth && eth + 42 <= |f|
    ensures |r.frame| == |f|
  {
    var key := EndpointKey(vni, f[eth + 38..eth + 42]);
    if key !in maps.endpoints then Outcome(EP_NOT_FOUND, f)
    else
      var reply := ArpReply(f, eth, maps.endpoints[key].mac);
      Outcome(TX, Outer(Splice(f, eth, reply), f[6..12], f[..6], f[30..34], f[26..30]))
  }

  function InnerArp(f: seq<byte>, eth: nat, vni: nat, maps: Maps): (r: Outcome)
    requires 34 <= eth && eth + 14 <= |f|
    ensures |r.frame| == |f|
  {
    var arp := eth + 14;
    if arp + 8 > |f| then Outcome(ABORTED, f)
    else if f[arp + 2..arp + 4] != ETH_P_IP || f[arp..arp + 2] != ARPHRD_ETHER then Outcome(DROP, f)
    else if f[arp + 6..arp + 8] != ARPOP_REQUEST then Outcome(DROP, f)
    else if arp + 28 > |f| then Outcome(ABORTED, f)
    else ArpAnswered(f, eth, vni, maps)
  }

  function InnerEth(f: seq<byte>, eth: nat, vni: nat, itf: Iface, maps: Maps): (r: Outcome)
    requires 34 <= eth
    ensures |r.frame| == |f|
  {
    if eth + 14 > |f| then Outcome(ABORTED, f)
    else if itf.role == ROLE_FWD && f[eth + 12..eth + 14] == ETH_P_ARP then InnerArp(f, eth, vni, maps)
    else if f[eth + 12..eth + 14] != ETH_P_IP then Outcome(DROP, f)
    else InnerIp(f, eth, vni, maps)
  }

  /** The Geneve header is the one this datapath writes: Ethernet payload, exactly the two known
      options. */
  predicate GeneveHeader(f: seq<byte>) {
    && |f| >= 98
    && f[44..46] == ETH_P_TEB
    && Word(f[50], f[51]) == GNV_OPT_CLASS
    && Word(f[66], f[67]) == GNV_OPT_CLASS
    && (f[42] % 64) * 4 == GNV_OPTIONS
  }

  function Udp(f: seq<byte>, itf: Iface, maps: Maps): (r: Outcome)
    requires |f| >= 34
    ensures |r.frame| == |f|
  {
    if |f| < 42 then Outcome(ABORTED, f)
    else
      var port := Word(f[36], f[37]);
      if port == GEN_DSTPORT && itf.role == ROLE_FTN then
        if !GeneveHeader(f) then Outcome(ABORTED, f)
        else InnerEth(f, 98, GetVni(f[46..49]), itf, maps)
      else if port == VXL_DSTPORT && itf.role == ROLE_FWD then
        if |f| < 50 then Outcome(ABORTED, f)
        else InnerEth(f, 50, GetVni(f[46..49]), itf, maps)
      else Outcome(PASS, f)
  }

  function Ip(f: seq<byte>, entrance: Entrance, itf: Iface, maps: Maps): (r: Outcome)
    requires |f| >= 14
    ensures |r.frame| == |f|
  {
    if |f| < 34 then Outcome(ABORTED, f)
    else if f[30..34] != entrance.ip then Outcome(ABORTED, f)
    else if f[22] == 0 then Outcome(DROP, f)
    else if f[23] != PROTO_UDP then Outcome(PASS, f)
    else Udp(f, itf, maps)
  }

  function Process(f: seq<byte>, itf: Iface, maps: Maps): (r: Outcome)
    ensures |r.frame| == |f|
  {
    if |f| < 14 then Outcome(ABORTED, f)
    else if f[12..14] != ETH_P_IP then Outcome(PASS, f)
    else
      match FirstEntrance(itf, f[..6])
      case None => Outcome(ABORTED, f)
      case Some(i) => Ip(f, itf.entrances[i], itf, maps)
  }
}
