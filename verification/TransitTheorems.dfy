/** What holds of every frame and every map content. */
module TransitTheorems {
  import opened Bytes
  import opened Checksum
  import opened IpRewrite
  import opened TransitSpec

  /** A frame that is not sent back out leaves the program as it came. */
  lemma OnlyTxWrites(f: seq<byte>, itf: Iface, maps: Maps)
    ensures Process(f, itf, maps).action != TX ==> Process(f, itf, maps).frame == f
  {
  }

  /** Destination MAC and outer address belong to one entrance of the interface, the first with
      that MAC, and the frame is live IPv4 UDP. */
  ghost predicate ForUs(f: seq<byte>, itf: Iface) {
    && |f| >= 42 && f[12..14] == ETH_P_IP && f[22] != 0 && f[23] == 17
    && exists i: nat :: IsEntrance(itf, i, f[..6], f[30..34])
  }

  /** The `i`-th entrance has this MAC, no earlier one has it, and it has this address. */
  ghost predicate IsEntrance(itf: Iface, i: nat, mac: Mac, ip: Ip4) {
    && i < MAX_ENTRANCES && i < itf.numEntrances
    && itf.entrances[i].mac == mac && itf.entrances[i].ip == ip
    && forall j :: 0 <= j < i ==> itf.entrances[j].mac != mac
  }

  /** The bytes of a number in network order. */
  function Network(n: nat): (bs: seq<byte>)
    requires n <= 0xffff
    ensures |bs| == 2
  {
    [n / 256, n % 256]
  }

  /** The types of Ethernet payloads and the codes of ARP, in network order (RFC 826). */
  lemma TypesAndCodes()
    ensures ETH_P_IP == Network(0x0800) && ETH_P_ARP == Network(0x0806) && ETH_P_TEB == Network(0x6558)
    ensures ARPHRD_ETHER == Network(1) && ARPOP_REQUEST == Network(1) && ARPOP_REPLY == Network(2)
  {
  }

  /** The network identifier of a tunnelled frame, most significant byte first (RFC 7348, section 5, and
      RFC 8926, section 3.4). */
  predicate HasVni(f: seq<byte>, vni: nat)
    requires |f| >= 49
  {
    vni < 0x100_0000 && f[46] == vni / 0x10000 && f[47] == vni / 0x100 % 0x100 && f[48] == vni % 0x100
  }

  lemma VniIsBigEndian(f: seq<byte>, vni: nat)
    requires |f| >= 49
    ensures HasVni(f, vni) <==> GetVni(f[46..49]) == vni
  {
    BigEndian(f[46], f[47], f[48], vni);
  }

  lemma BigEndian(a: byte, b: byte, c: byte, n: nat)
    ensures n < 0x100_0000 && a == n / 0x10000 && b == n / 0x100 % 0x100 && c == n % 0x100
      <==> n == a * 0x10000 + b * 0x100 + c
  {
    var m := n / 0x100;
    if n < 0x100_0000 && a == n / 0x10000 && b == m % 0x100 && c == n % 0x100 {
      assert m / 0x100 == n / 0x10000;
      assert m == 0x100 * a + b && n == 0x100 * m + c;
    }
    if n == a * 0x10000 + b * 0x100 + c {
      assert m == 0x100 * a + b;
    }
  }

  /** The outer UDP packet is a tunnel of this role, by the ports assigned to Geneve and VXLAN. */
  predicate IsGeneve(f: seq<byte>, itf: Iface)
    requires |f| >= 42
  {
    f[36..38] == Network(6081) && itf.role == ROLE_FTN
  }

  predicate IsVxlan(f: seq<byte>, itf: Iface)
    requires |f| >= 42
  {
    f[36..38] == Network(4789) && itf.role == ROLE_FWD
  }

  /** Where the inner frame starts, if the tunnel header is complete. A Geneve header has twelve words
      of options, two of them, of the class this datapath writes. */
  function InnerStart(f: seq<byte>, itf: Iface): Option<nat>
    requires |f| >= 42
  {
    if IsGeneve(f, itf) && |f| >= 98 && f[44..46] == Network(0x6558)
       && f[50..52] == [0x11, 0x01] && f[66..68] == [0x11, 0x01] && f[42] % 64 == 12 then Some(98)
    else if IsVxlan(f, itf) && |f| >= 50 then Some(50)
    else None
  }

  lemma TunnelPorts(f: seq<byte>)
    requires |f| >= 42
    ensures f[36..38] == Network(6081) <==> Word(f[36], f[37]) == GEN_DSTPORT
    ensures f[36..38] == Network(4789) <==> Word(f[36], f[37]) == VXL_DSTPORT
  {
    assert f[36..38] == [f[36], f[37]];
  }

  lemma GeneveBytes(f: seq<byte>)
    requires |f| >= 98
    ensures GeneveHeader(f)
      <==> f[44..46] == Network(0x6558) && f[50..52] == [0x11, 0x01] && f[66..68] == [0x11, 0x01] && f[42] % 64 == 12
  {
    assert f[50..52] == [f[50], f[51]] && f[66..68] == [f[66], f[67]];
  }

  /** A complete ARP request, received by a forwarder, for an endpoint of the frame's network. */
  predicate AnswerableArp(f: seq<byte>, eth: nat, vni: nat, itf: Iface, maps: Maps)
    requires 50 <= eth
  {
    && eth + 42 <= |f| && itf.role == ROLE_FWD
    && f[eth + 12..eth + 14] == ETH_P_ARP
    && f[eth + 14..eth + 16] == ARPHRD_ETHER && f[eth + 16..eth + 18] == ETH_P_IP
    && f[eth + 20..eth + 22] == ARPOP_REQUEST
    && EndpointKey(vni, f[eth + 38..eth + 42]) in maps.endpoints
  }

  /** The rule that lets packets of this protocol and source leave for this destination. */
  function Egress(f: seq<byte>, ip: nat, vni: nat): SgKey
    requires ip + 20 <= |f|
  {
    SgKey(vni, 30011, 0, f[ip + 9], f[ip + 12..ip + 16], f[ip + 16..ip + 20])
  }

  /** The rule that lets them in, by destination and its port as the host loads it. */
  function Ingress(f: seq<byte>, ip: nat, vni: nat): SgKey
    requires ip + 24 <= |f|
  {
    SgKey(vni, f[ip + 22] as int + 256 * f[ip + 23] as int, 1, f[ip + 9], f[ip + 16..ip + 20], f[ip + 12..ip + 16])
  }

  /** The length of the transport header, for the protocols that have ports. */
  function PortHeader(protocol: byte): Option<nat> {
    if protocol == 6 then Some(20) else if protocol == 17 then Some(8) else None
  }

  predicate SgPasses(f: seq<byte>, ip: nat, vni: nat, maps: Maps)
    requires ip + 20 <= |f|
  {
    && maps.sg(Egress(f, ip, vni))
    && (PortHeader(f[ip + 9]).Some? ==>
          ip + 20 + PortHeader(f[ip + 9]).value <= |f| && maps.sg(Ingress(f, ip, vni)))
  }

  predicate SgDrops(f: seq<byte>, ip: nat, vni: nat, maps: Maps)
    requires ip + 20 <= |f|
  {
    || !maps.sg(Egress(f, ip, vni))
    || (PortHeader(f[ip + 9]).Some? && ip + 20 + PortHeader(f[ip + 9]).value <= |f| && !maps.sg(Ingress(f, ip, vni)))
  }

  /** The security groups pass a packet exactly if both rules are there, the second one for ports only. */
  lemma SgVerdictIs(f: seq<byte>, ip: nat, vni: nat, maps: Maps)
    requires ip + 20 <= |f|
    ensures SgVerdict(f, ip, vni, maps) == PASS <==> SgPasses(f, ip, vni, maps)
    ensures SgVerdict(f, ip, vni, maps) == DROP <==> SgDrops(f, ip, vni, maps)
  {
  }

  /** An IPv4 packet the security groups pass, to an endpoint of the frame's network. */
  predicate ForwardableIp(f: seq<byte>, eth: nat, vni: nat, maps: Maps)
    requires 50 <= eth
  {
    && eth + 34 <= |f| && f[eth + 12..eth + 14] == ETH_P_IP && SgPasses(f, eth + 14, vni, maps)
    && EndpointKey(vni, f[eth + 30..eth + 34]) in maps.endpoints
  }

  /** What is dropped inside a tunnel: ARP that is no request for IPv4 over Ethernet, frames of another
      type, and packets the security groups drop. */
  predicate InnerDropped(f: seq<byte>, eth: nat, vni: nat, itf: Iface, maps: Maps)
    requires 50 <= eth
  {
    && eth + 14 <= |f|
    && if itf.role == ROLE_FWD && f[eth + 12..eth + 14] == ETH_P_ARP then
         eth + 22 <= |f| && !(f[eth + 14..eth + 16] == ARPHRD_ETHER && f[eth + 16..eth + 18] == ETH_P_IP
                              && f[eth + 20..eth + 22] == ARPOP_REQUEST)
       else f[eth + 12..eth + 14] != ETH_P_IP || (eth + 34 <= |f| && SgDrops(f, eth + 14, vni, maps))
  }

  /** What asks for an endpoint nobody knows. */
  predicate InnerUnknown(f: seq<byte>, eth: nat, vni: nat, itf: Iface, maps: Maps)
    requires 50 <= eth
  {
    || (eth + 42 <= |f| && itf.role == ROLE_FWD && f[eth + 12..eth + 14] == ETH_P_ARP
        && f[eth + 14..eth + 16] == ARPHRD_ETHER && f[eth + 16..eth + 18] == ETH_P_IP
        && f[eth + 20..eth + 22] == ARPOP_REQUEST
        && EndpointKey(vni, f[eth + 38..eth + 42]) !in maps.endpoints)
    || (eth + 34 <= |f| && f[eth + 12..eth + 14] == ETH_P_IP && SgPasses(f, eth + 14, vni, maps)
        && EndpointKey(vni, f[eth + 30..eth + 34]) !in maps.endpoints)
  }

  lemma FirstEntranceUnique(itf: Iface, mac: Mac, i: nat)
    requires i < MAX_ENTRANCES && i < itf.numEntrances && itf.entrances[i].mac == mac
    requires forall j :: 0 <= j < i ==> itf.entrances[j].mac != mac
    ensures FirstEntrance(itf, mac) == Some(i)
  {
    var r := FirstEntrance(itf, mac);
    assert r.Some?;
  }

  lemma ForUsIsIp(f: seq<byte>, itf: Iface, maps: Maps)
    ensures ForUs(f, itf) ==> Process(f, itf, maps) == Udp(f, itf, maps)
    ensures Process(f, itf, maps).action == TX ==> ForUs(f, itf)
  {
    if ForUs(f, itf) {
      var i: nat :| IsEntrance(itf, i, f[..6], f[30..34]);
      FirstEntranceUnique(itf, f[..6], i);
    }
    if Process(f, itf, maps).action == TX {
      assert IsEntrance(itf, FirstEntrance(itf, f[..6]).value, f[..6], f[30..34]);
    }
  }

  /** A frame goes back out exactly when it is addressed to an entrance, tunnels to this role, and
      holds an answerable ARP request or a forwardable IPv4 packet. */
  lemma TxExactlyWhen(f: seq<byte>, itf: Iface, maps: Maps, vni: nat)
    requires |f| >= 50 ==> HasVni(f, vni)
    ensures Process(f, itf, maps).action == TX
            <==> ForUs(f, itf) && InnerStart(f, itf).Some?
                 && var eth := InnerStart(f, itf).value;
                    AnswerableArp(f, eth, vni, itf, maps) || ForwardableIp(f, eth, vni, maps)
  {
    ForUsIsIp(f, itf, maps);
    if ForUs(f, itf) {
      UdpIs(f, itf, maps, vni);
    }
  }

  /** What becomes of a UDP packet for an entrance. */
  lemma UdpIs(f: seq<byte>, itf: Iface, maps: Maps, vni: nat)
    requires |f| >= 42 && (|f| >= 50 ==> HasVni(f, vni))
    ensures var start, action := InnerStart(f, itf), Udp(f, itf, maps).action;
      && (action == PASS <==> !IsGeneve(f, itf) && !IsVxlan(f, itf))
      && (start == None && action != PASS ==> action == ABORTED)
      && (start.Some? ==>
            && (action == TX
                <==> AnswerableArp(f, start.value, vni, itf, maps) || ForwardableIp(f, start.value, vni, maps))
            && (action == DROP <==> InnerDropped(f, start.value, vni, itf, maps))
            && (action == EP_NOT_FOUND <==> InnerUnknown(f, start.value, vni, itf, maps)))
  {
    TunnelPorts(f);
    if |f| >= 98 {
      GeneveBytes(f);
    }
    if |f| >= 50 {
      VniIsBigEndian(f, vni);
    }
    hide InnerEth, GetVni, HasVni, Word, Network;
    var start := InnerStart(f, itf);
    if start.Some? {
      InnerIs(f, start.value, vni, itf, maps);
    }
  }

  lemma InnerIs(f: seq<byte>, eth: nat, vni: nat, itf: Iface, maps: Maps)
    requires 50 <= eth
    ensures var action := InnerEth(f, eth, vni, itf, maps).action;
      && action != PASS
      && (action == TX <==> AnswerableArp(f, eth, vni, itf, maps) || ForwardableIp(f, eth, vni, maps))
      && (action == DROP <==> InnerDropped(f, eth, vni, itf, maps))
      && (action == EP_NOT_FOUND <==> InnerUnknown(f, eth, vni, itf, maps))
  {
    hide Outer, ArpReply, SgVerdict, SgPasses, SgDrops;
    if eth + 34 <= |f| {
      SgVerdictIs(f, eth + 14, vni, maps);
      SgOneWay(f, eth + 14, vni, maps);
    }
  }

  lemma SgOneWay(f: seq<byte>, ip: nat, vni: nat, maps: Maps)
    requires ip + 20 <= |f|
    ensures !SgPasses(f, ip, vni, maps) || !SgDrops(f, ip, vni, maps)
  {
  }

  /** Outer destination MAC and address belong to one entrance, the first with that MAC. */
  ghost predicate ToEntrance(f: seq<byte>, itf: Iface) {
    |f| >= 34 && f[12..14] == ETH_P_IP && exists i: nat :: IsEntrance(itf, i, f[..6], f[30..34])
  }

  /** The host stack gets what is not IPv4, and of the packets to an entrance those that are not UDP, or
      not for a tunnel of this role. */
  lemma PassExactlyWhen(f: seq<byte>, itf: Iface, maps: Maps)
    ensures Process(f, itf, maps).action == PASS
            <==> |f| >= 14 && (f[12..14] != ETH_P_IP
                               || (ToEntrance(f, itf) && f[22] != 0
                                   && (f[23] != 17 || (|f| >= 42 && !IsGeneve(f, itf) && !IsVxlan(f, itf)))))
  {
    OuterIs(f, itf, maps);
    if |f| >= 42 {
      var vni := if |f| >= 50 then GetVni(f[46..49]) else 0;
      if |f| >= 50 {
        VniIsBigEndian(f, vni);
      }
      UdpIs(f, itf, maps, vni);
    }
  }

  /** Dropped are packets to an entrance that are at the end of their life, or a tunnel of this role
      whose inner frame is to be dropped. */
  lemma DropExactlyWhen(f: seq<byte>, itf: Iface, maps: Maps, vni: nat)
    requires |f| >= 50 ==> HasVni(f, vni)
    ensures Process(f, itf, maps).action == DROP
            <==> ToEntrance(f, itf)
                 && (f[22] == 0
                     || (f[23] == 17 && |f| >= 42 && InnerStart(f, itf).Some?
                         && InnerDropped(f, InnerStart(f, itf).value, vni, itf, maps)))
  {
    OuterIs(f, itf, maps);
    if |f| >= 42 {
      UdpIs(f, itf, maps, vni);
    }
  }

  /** Handed to a socket, or dropped, is what asks for an unknown endpoint. */
  lemma UnknownExactlyWhen(f: seq<byte>, itf: Iface, maps: Maps, vni: nat)
    requires |f| >= 50 ==> HasVni(f, vni)
    ensures Process(f, itf, maps).action == EP_NOT_FOUND
            <==> ForUs(f, itf) && InnerStart(f, itf).Some?
                 && InnerUnknown(f, InnerStart(f, itf).value, vni, itf, maps)
  {
    OuterIs(f, itf, maps);
    ForUsIsIp(f, itf, maps);
    if |f| >= 42 {
      UdpIs(f, itf, maps, vni);
    }
  }

  /** The outer headers decide before the tunnel does. */
  lemma OuterIs(f: seq<byte>, itf: Iface, maps: Maps)
    ensures var p := Process(f, itf, maps).action;
      && (|f| >= 14 && f[12..14] != ETH_P_IP ==> p == PASS)
      && (|f| < 14 || (f[12..14] == ETH_P_IP && !ToEntrance(f, itf)) ==> p == ABORTED)
      && (ToEntrance(f, itf) && f[22] == 0 ==> p == DROP)
      && (ToEntrance(f, itf) && f[22] != 0 && f[23] != 17 ==> p == PASS)
      && (ToEntrance(f, itf) && f[22] != 0 && f[23] == 17 ==> p == Udp(f, itf, maps).action)
  {
    hide Udp;
    if ToEntrance(f, itf) {
      var i: nat :| IsEntrance(itf, i, f[..6], f[30..34]);
      FirstEntranceUnique(itf, f[..6], i);
    } else if |f| >= 34 && f[12..14] == ETH_P_IP {
      var r := FirstEntrance(itf, f[..6]);
      if r.Some? {
        assert !IsEntrance(itf, r.value, f[..6], f[30..34]);
      }
    }
  }

  /** What `Outer` writes, byte range by byte range. */
  lemma OuterFields(f: seq<byte>, ethDst: Mac, ethSrc: Mac, saddr: Ip4, daddr: Ip4)
    requires |f| >= 34 && f[22] != 0
    ensures var g := Outer(f, ethDst, ethSrc, saddr, daddr);
      && g[..6] == ethDst && g[6..12] == ethSrc
      && g[22] == f[22] - 1 && g[26..30] == saddr && g[30..34] == daddr
      && Verifies(g[14..34]) && OnesFold(NetworkSum(g[14..34])) == 0xffff
      && (forall i :: 12 <= i < |f| && i != 22 && !(24 <= i < 34) ==> g[i] == f[i])
  {
    hide Readdressed, Verifies, NetworkSum;
    var h := Readdressed(f[14..34], TtlDown(f[22]), saddr, daddr);
    ReaddressedVerifies(f[14..34], TtlDown(f[22]), saddr, daddr);
    ReaddressedFields(f[14..34], TtlDown(f[22]), saddr, daddr);
    OuterBytes(f, ethDst, ethSrc, h);
  }

  lemma ReaddressedFields(h: seq<byte>, ttl: byte, saddr: Ip4, daddr: Ip4)
    requires |h| == 20
    ensures var r := Readdressed(h, ttl, saddr, daddr);
      && r[8] == ttl && r[12..16] == saddr && r[16..20] == daddr && r[9] == h[9]
      && forall i :: 0 <= i < 8 ==> r[i] == h[i]
  {
  }

  lemma OuterBytes(f: seq<byte>, ethDst: Mac, ethSrc: Mac, h: seq<byte>)
    requires |f| >= 34 && |h| == 20
    ensures var g := Splice(Splice(f, 0, ethDst + ethSrc), 14, h);
      && g[..6] == ethDst && g[6..12] == ethSrc && g[14..34] == h
      && g[26..30] == h[12..16] && g[30..34] == h[16..20]
      && (forall i :: 14 <= i < 34 ==> g[i] == h[i - 14])
      && (forall i :: 12 <= i < |f| && !(14 <= i < 34) ==> g[i] == f[i])
  {
    var m := Splice(f, 0, ethDst + ethSrc);
    SpliceAt(f, 0, ethDst + ethSrc);
    SpliceAt(m, 14, h);
  }

  /** A forwarded IPv4 packet goes to the host stored for exactly (frame VNI, inner destination):
      outside the outer MACs, TTL, addresses and check word only the inner destination MAC
      changes, and the outer header verifies. */
  lemma ForwardedIp(f: seq<byte>, itf: Iface, maps: Maps, vni: nat)
    requires Process(f, itf, maps).action == TX && (|f| >= 50 ==> HasVni(f, vni))
    requires var eth := InnerStart(f, itf); eth.Some? && f[eth.value + 12..eth.value + 14] == ETH_P_IP
    ensures var g, eth := Process(f, itf, maps).frame, InnerStart(f, itf).value;
      var key := EndpointKey(vni, f[eth + 30..eth + 34]);
      && key in maps.endpoints
      && var ep := maps.endpoints[key];
      && g[..6] == ep.hmac && g[6..12] == f[..6]
      && g[22] == f[22] - 1 && g[26..30] == f[30..34] && g[30..34] == ep.hip
      && g[eth..eth + 6] == ep.mac
      && Verifies(g[14..34]) && OnesFold(NetworkSum(g[14..34])) == 0xffff
      && (forall i :: 12 <= i < |f| && i != 22 && !(24 <= i < 34) && !(eth <= i < eth + 6) ==> g[i] == f[i])
  {
    ForwardShape(f, itf, maps, vni);
    var eth := InnerStart(f, itf).value;
    hide Process, InnerStart, HasVni, Outer;
    ForwardFields(f, eth, maps.endpoints[EndpointKey(vni, f[eth + 30..eth + 34])]);
  }

  lemma ForwardShape(f: seq<byte>, itf: Iface, maps: Maps, vni: nat)
    requires Process(f, itf, maps).action == TX && (|f| >= 50 ==> HasVni(f, vni))
    requires var eth := InnerStart(f, itf); eth.Some? && f[eth.value + 12..eth.value + 14] == ETH_P_IP
    ensures var eth := InnerStart(f, itf).value;
      && eth + 34 <= |f| && f[22] != 0
      && var key := EndpointKey(vni, f[eth + 30..eth + 34]);
      && key in maps.endpoints
      && var ep := maps.endpoints[key];
         Process(f, itf, maps).frame == Outer(Splice(f, eth, ep.mac), ep.hmac, f[..6], f[30..34], ep.hip)
  {
    TxExactlyWhen(f, itf, maps, vni);
    ForUsIsIp(f, itf, maps);
    TunnelEntered(f, itf, maps, vni);
    hide Outer, GetVni, HasVni, Process, Udp, InnerStart, SgVerdict, SgPasses;
    SgVerdictIs(f, InnerStart(f, itf).value + 14, vni, maps);
  }

  /** Behind a complete tunnel header the inner frame decides. */
  lemma TunnelEntered(f: seq<byte>, itf: Iface, maps: Maps, vni: nat)
    requires |f| >= 50 && HasVni(f, vni) && InnerStart(f, itf).Some?
    ensures Udp(f, itf, maps) == InnerEth(f, InnerStart(f, itf).value, vni, itf, maps)
  {
    TunnelPorts(f);
    if |f| >= 98 {
      GeneveBytes(f);
    }
    VniIsBigEndian(f, vni);
    hide InnerEth, GetVni, HasVni, Word, Network;
  }

  lemma ForwardFields(f: seq<byte>, eth: nat, ep: Endpoint)
    requires 50 <= eth && eth + 34 <= |f| && f[22] != 0
    ensures var g := Outer(Splice(f, eth, ep.mac), ep.hmac, f[..6], f[30..34], ep.hip);
      && g[..6] == ep.hmac && g[6..12] == f[..6]
      && g[22] == f[22] - 1 && g[26..30] == f[30..34] && g[30..34] == ep.hip
      && g[eth..eth + 6] == ep.mac
      && Verifies(g[14..34]) && OnesFold(NetworkSum(g[14..34])) == 0xffff
      && (forall i :: 12 <= i < |f| && i != 22 && !(24 <= i < 34) && !(eth <= i < eth + 6) ==> g[i] == f[i])
  {
    var m := Splice(f, eth, ep.mac);
    SpliceAt(f, eth, ep.mac);
    OuterFields(m, ep.hmac, f[..6], f[30..34], ep.hip);
    var g := Outer(m, ep.hmac, f[..6], f[30..34], ep.hip);
    assert forall i :: eth <= i < eth + 6 ==> g[i] == ep.mac[i - eth];
  }

  /** An answered ARP request comes back as the reply of RFC 826: the endpoint's MAC and the
      requested address as sender, the requester as target, along the reversed outer path. */
  lemma AnsweredArp(f: seq<byte>, itf: Iface, maps: Maps, vni: nat)
    requires Process(f, itf, maps).action == TX && (|f| >= 50 ==> HasVni(f, vni))
    requires var eth := InnerStart(f, itf); eth.Some? && f[eth.value + 12..eth.value + 14] == ETH_P_ARP
    ensures var g, eth := Process(f, itf, maps).frame, InnerStart(f, itf).value;
      var arp := eth + 14;
      && eth + 42 <= |f|
      && var key := EndpointKey(vni, f[arp + 24..arp + 28]);
      && key in maps.endpoints
      && var mac := maps.endpoints[key].mac;
      && g[arp + 6..arp + 8] == ARPOP_REPLY
      && g[arp + 8..arp + 14] == mac && g[arp + 14..arp + 18] == f[arp + 24..arp + 28]
      && g[arp + 18..arp + 24] == f[arp + 8..arp + 14] && g[arp + 24..arp + 28] == f[arp + 14..arp + 18]
      && g[eth..eth + 6] == f[eth + 6..eth + 12] && g[eth + 6..eth + 12] == mac
      && g[..6] == f[6..12] && g[6..12] == f[..6]
      && g[22] == f[22] - 1 && g[26..30] == f[30..34] && g[30..34] == f[26..30]
      && Verifies(g[14..34]) && OnesFold(NetworkSum(g[14..34])) == 0xffff
      && forall i :: 12 <= i < |f| && !(i == 22 || 24 <= i < 34 || eth <= i < eth + 12 || arp + 6 <= i < arp + 28)
                     ==> g[i] == f[i]
  {
    TxExactlyWhen(f, itf, maps, vni);
    ForUsIsIp(f, itf, maps);
    TunnelEntered(f, itf, maps, vni);
    var eth := InnerStart(f, itf).value;
    hide Process, Udp, InnerStart, HasVni, Outer, ArpReply, Verifies, NetworkSum, GetVni;
    AnswerFields(f, eth, maps.endpoints[EndpointKey(vni, f[eth + 38..eth + 42])].mac);
  }

  lemma AnswerFields(f: seq<byte>, eth: nat, mac: Mac)
    requires 50 <= eth && eth + 42 <= |f| && f[22] != 0
    ensures var g := Outer(Splice(f, eth, ArpReply(f, eth, mac)), f[6..12], f[..6], f[30..34], f[26..30]);
      var arp := eth + 14;
      && g[arp + 6..arp + 8] == ARPOP_REPLY
      && g[arp + 8..arp + 14] == mac && g[arp + 14..arp + 18] == f[arp + 24..arp + 28]
      && g[arp + 18..arp + 24] == f[arp + 8..arp + 14] && g[arp + 24..arp + 28] == f[arp + 14..arp + 18]
      && g[eth..eth + 6] == f[eth + 6..eth + 12] && g[eth + 6..eth + 12] == mac
      && g[..6] == f[6..12] && g[6..12] == f[..6]
      && g[22] == f[22] - 1 && g[26..30] == f[30..34] && g[30..34] == f[26..30]
      && Verifies(g[14..34]) && OnesFold(NetworkSum(g[14..34])) == 0xffff
      && forall i :: 12 <= i < |f| && !(i == 22 || 24 <= i < 34 || eth <= i < eth + 12 || arp + 6 <= i < arp + 28)
                     ==> g[i] == f[i]
  {
    hide Readdressed, Verifies, NetworkSum;
    var r := ArpReply(f, eth, mac);
    var m := Splice(f, eth, r);
    SpliceAt(f, eth, r);
    ArpReplyFields(f, eth, mac, m);
    var g := Outer(m, f[6..12], f[..6], f[30..34], f[26..30]);
    assert m[14..34] == f[14..34];
    OuterFields(m, f[6..12], f[..6], f[30..34], f[26..30]);
    assert g[34..] == m[34..];
    forall a: nat, b: nat | 34 <= a <= b <= |f|
      ensures g[a..b] == m[a..b]
    {
    }
  }

  lemma ArpReplyFields(f: seq<byte>, eth: nat, mac: Mac, m: seq<byte>)
    requires 50 <= eth && eth + 42 <= |f| && m == Splice(f, eth, ArpReply(f, eth, mac))
    ensures var arp := eth + 14;
      && m[arp + 6..arp + 8] == ARPOP_REPLY
      && m[arp + 8..arp + 14] == mac && m[arp + 14..arp + 18] == f[arp + 24..arp + 28]
      && m[arp + 18..arp + 24] == f[arp + 8..arp + 14] && m[arp + 24..arp + 28] == f[arp + 14..arp + 18]
      && m[eth..eth + 6] == f[eth + 6..eth + 12] && m[eth + 6..eth + 12] == mac
      && (forall i :: 0 <= i < |f| && !(eth <= i < eth + 12) && !(arp + 6 <= i < arp + 28) ==> m[i] == f[i])
  {
    SpliceAt(f, eth, ArpReply(f, eth, mac));
  }
}
