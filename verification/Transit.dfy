/** The XDP program itself: it walks down the headers of one frame, filling in a `TransitPacket`,
    and rewrites the frame's bytes in place when it sends the frame back out. */
module Transit {
  import opened Bytes
  import opened Checksum
  import opened IpRewrite
  import opened TransitSpec
  import TransitTheorems

  datatype Verdict = Aborted | Dropped | Passed | Transmitted | ToSocket(queue: nat)

  class TransitPacket {
    const data: array<byte>
    const itf: Iface
    const maps: Maps

    // filled in stage by stage; offsets into data
    var entIdx: nat
    var itfMac: Mac
    var itfIpv4: Ip4
    var ip: nat
    var udp: nat
    var overlay: nat
    var vni: nat
    var innerEth: nat
    var innerIp: nat
    var innerArp: nat

    constructor (data: array<byte>, itf: Iface, maps: Maps)
      ensures this.data == data && this.itf == itf && this.maps == maps
    {
      this.data, this.itf, this.maps := data, itf, maps;
    }

    method SgCheck() returns (action: Action)
      requires innerIp + 20 <= data.Length
      ensures action == SgVerdict(data[..], innerIp, vni, maps)
    {
      var src, dst := data[innerIp + 12..innerIp + 16], data[innerIp + 16..innerIp + 20];
      var protocol := data[innerIp + 9];
      if !maps.sg(SgKey(vni, SG_EGRESS_PORT, 0, protocol, src, dst)) {
        return DROP;
      }
      if protocol == PROTO_TCP {
        if innerIp + 40 > data.Length {
          return ABORTED;
        }
      } else if protocol == PROTO_UDP {
        if innerIp + 28 > data.Length {
          return ABORTED;
        }
      } else {
        return PASS;
      }
      var port := Word(data[innerIp + 22], data[innerIp + 23]);
      if !maps.sg(SgKey(vni, port, 1, protocol, dst, src)) {
        return DROP;
      }
      return PASS;
    }

    method SetMac(at: nat, mac: Mac)
      requires at + 6 <= data.Length
      modifies data
      ensures data[..] == Splice(old(data[..]), at, mac)
    {
      Overwrite(data, at, mac);
    }

    method ProcessInnerIp() returns (action: Action)
      requires ip == 14 && 34 <= innerEth && innerEth + 14 <= data.Length
      modifies this`innerIp, data
      ensures Outcome(action, data[..]) == InnerIp(old(data[..]), innerEth, vni, maps)
    {
      hide SgVerdict, Outer, Readdressed, TtlDown;
      ghost var f := data[..];
      innerIp := innerEth + 14;
      if innerIp + 20 > data.Length {
        return ABORTED;
      }
      action := SgCheck();
      if action != PASS {
        return;
      }
      var key := EndpointKey(vni, data[innerIp + 16..innerIp + 20]);
      if key !in maps.endpoints {
        return EP_NOT_FOUND;
      }
      var ep := maps.endpoints[key];
      SetMac(innerEth, ep.mac);
      ghost var m := data[..];
      SetSrcDstIpCsum(data, ip, data[ip + 16..ip + 20], ep.hip);
      SetMac(6, data[..6]);
      SetMac(0, ep.hmac);
      ForwardWrites(f, m, innerEth, ep);
      return TX;
    }

    method ProcessInnerArp() returns (action: Action)
      requires ip == 14 && 50 <= innerEth && innerEth + 14 <= data.Length
      modifies this`innerArp, data
      ensures Outcome(action, data[..]) == InnerArp(old(data[..]), innerEth, vni, maps)
    {
      hide ArpAnswered;
      innerArp := innerEth + 14;
      if innerArp + 8 > data.Length {
        return ABORTED;
      }
      if data[innerArp + 2..innerArp + 4] != ETH_P_IP || data[innerArp..innerArp + 2] != ARPHRD_ETHER {
        return DROP;
      }
      if data[innerArp + 6..innerArp + 8] != ARPOP_REQUEST {
        return DROP;
      }
      var sha := innerArp + 8;
      if sha + 6 > data.Length {
        return ABORTED;
      }
      var sip := sha + 6;
      if sip + 4 > data.Length {
        return ABORTED;
      }
      var tha := sip + 4;
      if tha + 6 > data.Length {
        return ABORTED;
      }
      var tip := tha + 6;
      if tip + 4 > data.Length {
        return ABORTED;
      }
      action := LookUpTarget(sha, sip, tha, tip);
    }

    /** A complete request is answered if its target is a known endpoint. */
    method LookUpTarget(sha: nat, sip: nat, tha: nat, tip: nat) returns (action: Action)
      requires ip == 14 && 50 <= innerEth && innerEth + 42 <= data.Length && innerArp == innerEth + 14
      requires sha == innerArp + 8 && sip == innerArp + 14 && tha == innerArp + 18 && tip == innerArp + 24
      modifies data
      ensures Outcome(action, data[..]) == ArpAnswered(old(data[..]), innerEth, vni, maps)
    {
      var key := EndpointKey(vni, data[tip..tip + 4]);
      if key !in maps.endpoints {
        return EP_NOT_FOUND;
      }
      var ep := maps.endpoints[key];
      Answer(ep.mac, sha, sip, tha, tip);
      return TX;
    }

    /** Turns the request into the reply and sends it back along the outer path. */
    method Answer(mac: Mac, sha: nat, sip: nat, tha: nat, tip: nat)
      requires ip == 14 && 50 <= innerEth && innerEth + 42 <= data.Length && innerArp == innerEth + 14
      requires sha == innerArp + 8 && sip == innerArp + 14 && tha == innerArp + 18 && tip == innerArp + 24
      modifies data
      ensures var f := old(data[..]);
        data[..] == Outer(Splice(f, innerEth, ArpReply(f, innerEth, mac)), f[6..12], f[..6], f[30..34], f[26..30])
    {
      ghost var f := data[..];
      AnswerInner(mac, sha, sip, tha, tip);
      ghost var m := data[..];
      SetSrcDstIpCsum(data, ip, data[ip + 16..ip + 20], data[ip + 12..ip + 16]);
      SwapSrcDstMac();
      AnswerWrites(f, m, innerEth, ArpReply(f, innerEth, mac));
    }

    method AnswerInner(mac: Mac, sha: nat, sip: nat, tha: nat, tip: nat)
      requires 50 <= innerEth && innerEth + 42 <= data.Length && innerArp == innerEth + 14
      requires sha == innerArp + 8 && sip == innerArp + 14 && tha == innerArp + 18 && tip == innerArp + 24
      modifies data
      ensures data[..] == Splice(old(data[..]), innerEth, ArpReply(old(data[..]), innerEth, mac))
    {
      hide ArpReply, ArpAnswer, Splice;
      ghost var f := data[..];
      AnswerHardware(mac, sha, tha);
      ghost var m := data[..];
      SwapIps(sip, tip);
      ArpWrites(f, innerArp, mac, m, data[..]);
      ghost var g := data[..];
      SetMac(innerEth, data[innerEth + 6..innerEth + 12]);
      ghost var g' := data[..];
      SetMac(innerEth + 6, mac);
      EthWrites(f, innerEth, mac, g, g', data[..]);
    }

    method AnswerHardware(mac: Mac, sha: nat, tha: nat)
      requires innerArp + 28 <= data.Length && sha == innerArp + 8 && tha == innerArp + 18
      modifies data
      ensures var f, arp := old(data[..]), innerArp;
        data[..] == Splice(f, arp + 6, ARPOP_REPLY + mac + f[arp + 14..arp + 18] + f[arp + 8..arp + 14])
    {
      hide Splice;
      ghost var f := data[..];
      Overwrite(data, innerArp + 6, ARPOP_REPLY);
      ghost var g1 := data[..];
      SetMac(tha, data[sha..sha + 6]);
      ghost var g2 := data[..];
      SetMac(sha, mac);
      HardwareWrites(f, innerArp, mac, g1, g2, data[..]);
    }

    method SwapIps(sip: nat, tip: nat)
      requires tip == sip + 10 && tip + 4 <= data.Length
      modifies data
      ensures var m := old(data[..]);
        data[..] == Splice(m, sip, m[sip + 10..sip + 14] + m[sip + 4..sip + 10] + m[sip..sip + 4])
    {
      ghost var m := data[..];
      var tmpIp := data[sip..sip + 4];
      Overwrite(data, sip, data[tip..tip + 4]);
      Overwrite(data, tip, tmpIp);
      SwapWrites(m, sip);
    }

    method SwapSrcDstMac()
      requires data.Length >= 12
      modifies data
      ensures data[..] == Splice(old(data[..]), 0, old(data[6..12]) + old(data[..6]))
    {
      var tmp := data[..6];
      ghost var f := data[..];
      Overwrite(data, 0, data[6..12]);
      Overwrite(data, 6, tmp);
      assert data[..] == Splice(f, 0, f[6..12] + f[..6]);
    }

    method ProcessInnerEth() returns (action: Action)
      requires ip == 14 && 50 <= innerEth
      modifies this`innerIp, this`innerArp, data
      ensures Outcome(action, data[..]) == InnerEth(old(data[..]), innerEth, vni, itf, maps)
    {
      if innerEth + 14 > data.Length {
        return ABORTED;
      }
      if itf.role == ROLE_FWD && data[innerEth + 12..innerEth + 14] == ETH_P_ARP {
        action := ProcessInnerArp();
        return;
      }
      if data[innerEth + 12..innerEth + 14] != ETH_P_IP {
        return DROP;
      }
      action := ProcessInnerIp();
    }

    method ProcessGeneve() returns (action: Action)
      requires ip == 14 && udp == 34 && data.Length >= 42
      modifies this, data
      ensures Outcome(action, data[..])
              == if GeneveHeader(old(data[..])) then InnerEth(old(data[..]), 98, GetVni(old(data[46..49])), itf, maps)
                 else Outcome(ABORTED, old(data[..]))
    {
      overlay := udp + 8;
      if overlay + 8 > data.Length {
        return ABORTED;
      }
      if data[overlay + 2..overlay + 4] != ETH_P_TEB {
        return ABORTED;
      }
      var optLen := (data[overlay] as int % 64) * 4;
      var rtsOpt := overlay + 8;
      if rtsOpt + 16 > data.Length {
        return ABORTED;
      }
      if Word(data[rtsOpt], data[rtsOpt + 1]) != GNV_OPT_CLASS {
        return ABORTED;
      }
      var hdrLen := 16;
      var scaledEpOpt := rtsOpt + 16;
      if scaledEpOpt + 32 > data.Length {
        return ABORTED;
      }
      if Word(data[scaledEpOpt], data[scaledEpOpt + 1]) != GNV_OPT_CLASS {
        return ABORTED;
      }
      hdrLen := hdrLen + 32;
      if hdrLen != optLen {
        return ABORTED;
      }
      hdrLen := hdrLen + 8;
      vni := GetVni(data[overlay + 4..overlay + 7]);
      innerEth := overlay + hdrLen;
      action := ProcessInnerEth();
    }

    method ProcessVxlan() returns (action: Action)
      requires ip == 14 && udp == 34 && data.Length >= 42
      modifies this, data
      ensures Outcome(action, data[..])
              == if data.Length < 50 then Outcome(ABORTED, old(data[..]))
                 else InnerEth(old(data[..]), 50, GetVni(old(data[46..49])), itf, maps)
    {
      overlay := udp + 8;
      if overlay + 8 > data.Length {
        return ABORTED;
      }
      vni := GetVni(data[overlay + 4..overlay + 7]);
      innerEth := overlay + 8;
      action := ProcessInnerEth();
    }

    method ProcessUdp() returns (action: Action)
      requires ip == 14 && data.Length >= 34
      modifies this, data
      ensures Outcome(action, data[..]) == Udp(old(data[..]), itf, maps)
    {
      udp := ip + 20;
      if udp + 8 > data.Length {
        return ABORTED;
      }
      if Word(data[udp + 2], data[udp + 3]) == GEN_DSTPORT && itf.role == ROLE_FTN {
        action := ProcessGeneve();
        return;
      } else if Word(data[udp + 2], data[udp + 3]) == VXL_DSTPORT && itf.role == ROLE_FWD {
        action := ProcessVxlan();
        return;
      }
      return PASS;
    }

    method ProcessIp() returns (action: Action)
      requires entIdx < MAX_ENTRANCES && data.Length >= 14
      modifies this, data
      ensures Outcome(action, data[..]) == Ip(old(data[..]), itf.entrances[old(entIdx)], itf, maps)
    {
      ip := 14;
      if ip + 20 > data.Length {
        return ABORTED;
      }
      if data[ip + 16..ip + 20] != itf.entrances[entIdx].ip {
        return ABORTED;
      }
      if data[ip + 8] == 0 {
        return DROP;
      }
      if data[ip + 9] != PROTO_UDP {
        return PASS;
      }
      itfIpv4 := data[ip + 16..ip + 20];
      action := ProcessUdp();
    }

    method ProcessEth() returns (action: Action)
      modifies this, data
      ensures Outcome(action, data[..]) == Process(old(data[..]), itf, maps)
    {
      if 14 > data.Length {
        return ABORTED;
      }
      if data[12..14] != ETH_P_IP {
        return PASS;
      }
      var i := 0;
      while i < itf.numEntrances && i < MAX_ENTRANCES
        invariant 0 <= i <= MAX_ENTRANCES
        invariant data[..] == old(data[..])
        invariant FirstEntrance(itf, data[..6]) == FirstEntrance(itf, data[..6], i)
      {
        if data[..6] == itf.entrances[i].mac {
          entIdx := i;
          itfMac := data[..6];
          action := ProcessIp();
          return;
        }
        i := i + 1;
      }
      return ABORTED;
    }
  }

  lemma ForwardWrites(f: seq<byte>, m: seq<byte>, eth: nat, ep: Endpoint)
    requires 34 <= eth && eth + 6 <= |f| && m == Splice(f, eth, ep.mac)
    ensures var g := Splice(m, 14, Readdressed(m[14..34], TtlDown(m[22]), m[30..34], ep.hip));
      Splice(Splice(g, 6, g[..6]), 0, ep.hmac) == Outer(m, ep.hmac, f[..6], f[30..34], ep.hip)
  {
    assert m[30..34] == f[30..34];
    var r := Readdressed(m[14..34], TtlDown(m[22]), m[30..34], ep.hip);
    var g := Splice(m, 14, r);
    assert g[..6] == f[..6];
    MacsAtOnce(m, ep.hmac, f[..6], r);
  }

  lemma MacsAtOnce(m: seq<byte>, dst: Mac, src: Mac, r: seq<byte>)
    requires |m| >= 34 && |r| == 20
    ensures Splice(Splice(Splice(m, 14, r), 6, src), 0, dst) == Splice(Splice(m, 0, dst + src), 14, r)
  {
  }

  lemma AnswerWrites(f: seq<byte>, m: seq<byte>, eth: nat, reply: seq<byte>)
    requires 50 <= eth && eth + |reply| <= |f| && m == Splice(f, eth, reply)
    ensures var g := Splice(m, 14, Readdressed(m[14..34], TtlDown(m[22]), m[30..34], m[26..30]));
      Splice(g, 0, g[6..12] + g[..6]) == Outer(m, f[6..12], f[..6], f[30..34], f[26..30])
  {
    assert m[30..34] == f[30..34] && m[26..30] == f[26..30];
    var r := Readdressed(m[14..34], TtlDown(m[22]), m[30..34], m[26..30]);
    var g := Splice(m, 14, r);
    assert g[..6] == f[..6] && g[6..12] == f[6..12];
    SpliceCommutes(m, 0, f[6..12] + f[..6], 14, r);
  }

  /** Operation, sender and target of the reply. */
  function ArpAnswer(f: seq<byte>, arp: nat, mac: Mac): (r: seq<byte>)
    requires arp + 28 <= |f|
    ensures |r| == 22
  {
    ARPOP_REPLY + mac + f[arp + 24..arp + 28] + f[arp + 8..arp + 14] + f[arp + 14..arp + 18]
  }

  lemma EthWrites(f: seq<byte>, eth: nat, mac: Mac, g: seq<byte>, g': seq<byte>, r: seq<byte>)
    requires 50 <= eth && eth + 42 <= |f|
    requires g == Splice(f, eth + 20, ArpAnswer(f, eth + 14, mac))
    requires g' == Splice(g, eth, g[eth + 6..eth + 12]) && r == Splice(g', eth + 6, mac)
    ensures r == Splice(f, eth, ArpReply(f, eth, mac))
  {
    var a := ArpAnswer(f, eth + 14, mac);
    assert g[eth + 6..eth + 12] == f[eth + 6..eth + 12];
    var t := f[eth + 12..eth + 20];
    assert ArpReply(f, eth, mac) == f[eth + 6..eth + 12] + mac + t + a;
    ThreeWrites(f, eth, f[eth + 6..eth + 12], mac, a);
  }

  lemma ThreeWrites(f: seq<byte>, eth: nat, dst: Mac, src: Mac, a: seq<byte>)
    requires eth + 20 + |a| <= |f|
    ensures Splice(Splice(Splice(f, eth + 20, a), eth, dst), eth + 6, src)
            == Splice(f, eth, dst + src + f[eth + 12..eth + 20] + a)
  {
    hide Splice;
    var g, whole := Splice(f, eth + 20, a), dst + src + f[eth + 12..eth + 20] + a;
    var h := Splice(g, eth, dst);
    var r, s := Splice(h, eth + 6, src), Splice(f, eth, whole);
    SpliceAt(f, eth + 20, a);
    SpliceAt(g, eth, dst);
    SpliceAt(h, eth + 6, src);
    SpliceAt(f, eth, whole);
    assert forall i :: 0 <= i < |f| ==> r[i] == s[i];
  }

  lemma ArpWrites(f: seq<byte>, arp: nat, mac: Mac, m: seq<byte>, r: seq<byte>)
    requires arp + 28 <= |f|
    requires m == Splice(f, arp + 6, ARPOP_REPLY + mac + f[arp + 14..arp + 18] + f[arp + 8..arp + 14])
    requires r == Splice(m, arp + 14, m[arp + 24..arp + 28] + m[arp + 18..arp + 24] + m[arp + 14..arp + 18])
    ensures r == Splice(f, arp + 6, ArpAnswer(f, arp, mac))
  {
    assert m[arp + 24..arp + 28] == f[arp + 24..arp + 28];
    assert m[arp + 18..arp + 24] == f[arp + 8..arp + 14];
    assert m[arp + 14..arp + 18] == f[arp + 14..arp + 18];
  }

  lemma HardwareWrites(f: seq<byte>, arp: nat, mac: Mac, g1: seq<byte>, g2: seq<byte>, r: seq<byte>)
    requires arp + 28 <= |f|
    requires g1 == Splice(f, arp + 6, ARPOP_REPLY) && g2 == Splice(g1, arp + 18, g1[arp + 8..arp + 14])
    requires r == Splice(g2, arp + 8, mac)
    ensures r == Splice(f, arp + 6, ARPOP_REPLY + mac + f[arp + 14..arp + 18] + f[arp + 8..arp + 14])
  {
    assert g1[arp + 8..arp + 14] == f[arp + 8..arp + 14];
  }

  lemma SwapWrites(m: seq<byte>, sip: nat)
    requires sip + 14 <= |m|
    ensures Splice(Splice(m, sip, m[sip + 10..sip + 14]), sip + 10, m[sip..sip + 4])
            == Splice(m, sip, m[sip + 10..sip + 14] + m[sip + 4..sip + 10] + m[sip..sip + 4])
  {
  }

  /** The program on one frame: the interface is looked up, the frame is processed, the verdict is
      settled. A packet for an unknown endpoint goes to the AF_XDP socket of its receive queue if there
      is one, and is dropped otherwise. Whatever the verdict, only a transmitted frame was written to. */
  method Run(data: array<byte>, ifindex: nat, queue: nat, interfaces: map<nat, Iface>, maps: Maps, sockets: set<nat>)
    returns (verdict: Verdict)
    modifies data
    ensures ifindex !in interfaces ==> verdict == Aborted
    ensures ifindex in interfaces ==>
      var r := Process(old(data[..]), interfaces[ifindex], maps);
      && data[..] == r.frame
      && (verdict == Aborted <==> r.action == ABORTED)
      && (verdict == Passed <==> r.action == PASS)
      && (verdict == Transmitted <==> r.action == TX)
      && (verdict == Dropped <==> r.action == DROP || (r.action == EP_NOT_FOUND && queue !in sockets))
      && (verdict == ToSocket(queue) <==> r.action == EP_NOT_FOUND && queue in sockets)
    ensures verdict != Transmitted ==> data[..] == old(data[..])
  {
    hide Process;
    if ifindex !in interfaces {
      return Aborted;
    }
    TransitTheorems.OnlyTxWrites(data[..], interfaces[ifindex], maps);
    var pkt := new TransitPacket(data, interfaces[ifindex], maps);
    var action := pkt.ProcessEth();
    if action == PASS {
      return Passed;
    }
    if action == EP_NOT_FOUND {
      if queue in sockets {
        return ToSocket(queue);
      }
      action := DROP;
    }
    if action == DROP {
      return Dropped;
    }
    if action == TX {
      return Transmitted;
    }
    return Aborted;
  }
}
