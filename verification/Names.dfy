/** Which protocol name src/dissectors/mod.rs gives to which packet. */
module ProtocolNames {
  import opened Wire
  import opened Frames
  import opened Dissect
  import Encapsulation

  /** Enough of a name to tell the names apart. */
  function Print(s: string): (nat, char, char) {
    (|s|, if |s| > 0 then s[0] else ' ', if |s| > 1 then s[1] else ' ')
  }

  lemma Prints()
    ensures Print("tls") == (3, 't', 'l') && Print("http") == (4, 'h', 't') && Print("dns") == (3, 'd', 'n')
    ensures Print("ntp") == (3, 'n', 't') && Print("dhcp") == (4, 'd', 'h') && Print("quic") == (4, 'q', 'u')
    ensures Print("tcp") == (3, 't', 'c') && Print("udp") == (3, 'u', 'd') && Print("icmp") == (4, 'i', 'c')
    ensures Print("icmpv6") == (6, 'i', 'c') && Print("ip_other") == (8, 'i', 'p') && Print("other") == (5, 'o', 't')
    ensures Print("tcp_truncated") == (13, 't', 'c') && Print("udp_truncated") == (13, 'u', 'd')
    ensures Print("icmp_truncated") == (14, 'i', 'c') && Print("") == (0, ' ', ' ')
  {
  }

  /** One of the two ports. */
  predicate On(src: nat, dst: nat, port: nat) {
    src == port || dst == port
  }

  predicate OnTls(src: nat, dst: nat) {
    On(src, dst, 443) || On(src, dst, 8443)
  }

  predicate OnWeb(src: nat, dst: nat) {
    || On(src, dst, 80) || On(src, dst, 8080) || On(src, dst, 8000) || On(src, dst, 9090)
    || On(src, dst, 3000) || On(src, dst, 3128) || On(src, dst, 8888)
  }

  /** The names of TCP packets with a whole header, by ports and payload length. */
  predicate TcpNamed(name: string, src: nat, dst: nat, payload: nat, looksHttp: bool) {
    var tls, web, dns := OnTls(src, dst), OnWeb(src, dst), On(src, dst, 53);
    var http := web || (!dns && payload > 4 && looksHttp);
    && (name == "tls" <==> tls)
    && (name == "http" <==> !tls && http)
    && (name == "dns" <==> !tls && !web && dns)
    && (name == "tcp" <==> !tls && !http && !dns)
  }

  /** The names of UDP packets with a whole header. */
  predicate UdpNamed(name: string, src: nat, dst: nat) {
    var dns := On(src, dst, 53) || On(src, dst, 5353);
    var ntp := On(src, dst, 123);
    var dhcp := On(src, dst, 67) || On(src, dst, 68);
    var quic := On(src, dst, 443);
    && (name == "dns" <==> dns)
    && (name == "ntp" <==> ntp && !dns)
    && (name == "dhcp" <==> dhcp && !dns && !ntp)
    && (name == "quic" <==> quic && !dns && !ntp && !dhcp)
    && (name == "udp" <==> !dns && !ntp && !dhcp && !quic)
  }

  lemma TcpNames(l4: Transport, looksHttp: bool)
    ensures TcpNamed(AppName(6, l4, "tcp", looksHttp), l4.srcPort, l4.dstPort, l4.payloadLen, looksHttp)
    ensures AppName(6, l4, "tcp", looksHttp) in ["tls", "http", "dns", "tcp"]
  {
    Prints();
  }

  lemma UdpNames(l4: Transport, looksHttp: bool)
    ensures UdpNamed(AppName(17, l4, "udp", looksHttp), l4.srcPort, l4.dstPort)
    ensures AppName(17, l4, "udp", looksHttp) in ["dns", "ntp", "dhcp", "quic", "udp"]
  {
    Prints();
  }

  /** The names of all packets, from the protocol number and the bytes behind the
      network header. */
  predicate BodyNamed(name: string, proto: byte, body: bytes, looksHttp: bool) {
    && (proto == 6 && |body| >= 20 ==>
          && name in ["tls", "http", "dns", "tcp"]
          && TcpNamed(name, BeValue(body[0..2]), BeValue(body[2..4]),
                      SaturatingSub(|body|, Max(body[12] / 0x10 * 4, 20)), looksHttp))
    && (proto == 17 && |body| >= 8 ==>
          && name in ["dns", "ntp", "dhcp", "quic", "udp"]
          && UdpNamed(name, BeValue(body[0..2]), BeValue(body[2..4])))
    && (name == "icmp" <==> proto == 1 && |body| >= 4)
    && (name == "icmpv6" <==> proto == 58 && |body| >= 4)
    && (name == "tcp_truncated" <==> proto == 6 && |body| < 20)
    && (name == "udp_truncated" <==> proto == 17 && |body| < 8)
    && (name == "icmp_truncated" <==> proto in {1, 58} && |body| < 4)
    && (name == "ip_other" <==> proto !in {1, 6, 17, 58})
    && name != "other" && name != ""
  }

  /** The transport header is cut short. */
  predicate CutTransport(proto: byte, body: bytes) {
    (proto == 6 && |body| < 20) || (proto == 17 && |body| < 8) || (proto in {1, 58} && |body| < 4)
  }

  lemma PortValues(body: bytes)
    requires |body| >= 4
    ensures BeValue(body[0..2]) == At16(body, 0) && BeValue(body[2..4]) == At16(body, 2)
  {
    assert body[0..2] == [body[0], body[1]] && body[2..4] == [body[2], body[3]];
    TwoByteValue(body[0], body[1]);
    TwoByteValue(body[2], body[3]);
  }

  lemma TcpBody(data: bytes, o: nat, body: bytes, looksHttp: bool)
    requires o <= |data| && data[o..] == body && |body| >= 20
    ensures var (l4, base) := TcpAt(data, o, NO_TRANSPORT);
            BodyNamed(AppName(6, l4, base, looksHttp), 6, body, looksHttp)
  {
    var l4 := TcpAt(data, o, NO_TRANSPORT).0;
    assert data[o] == body[0] && data[o + 1] == body[1] && data[o + 2] == body[2] && data[o + 3] == body[3];
    assert data[o + 12] == body[12];
    PortValues(body);
    TcpNames(l4, looksHttp);
    Prints();
  }

  lemma UdpBody(data: bytes, o: nat, body: bytes, looksHttp: bool)
    requires o <= |data| && data[o..] == body && |body| >= 8
    ensures var (l4, base) := UdpAt(data, o, NO_TRANSPORT);
            BodyNamed(AppName(17, l4, base, looksHttp), 17, body, looksHttp)
  {
    var l4 := UdpAt(data, o, NO_TRANSPORT).0;
    assert data[o] == body[0] && data[o + 1] == body[1] && data[o + 2] == body[2] && data[o + 3] == body[3];
    PortValues(body);
    UdpNames(l4, looksHttp);
    Prints();
  }

  lemma OtherBody(data: bytes, o: nat, proto: byte, body: bytes, looksHttp: bool)
    requires o <= |data| && data[o..] == body
    requires CutTransport(proto, body) || proto !in {6, 17}
    ensures var (l4, base) := TransportAt(data, o, proto, NO_TRANSPORT);
            && BodyNamed(AppName(proto, l4, base, looksHttp), proto, body, looksHttp)
            && (CutTransport(proto, body) ==> l4 == NO_TRANSPORT)
  {
    Prints();
  }

  lemma BodyName(data: bytes, o: nat, proto: byte, body: bytes, looksHttp: bool)
    requires o <= |data| && data[o..] == body
    ensures var (l4, base) := TransportAt(data, o, proto, NO_TRANSPORT);
            && BodyNamed(AppName(proto, l4, base, looksHttp), proto, body, looksHttp)
            && (CutTransport(proto, body) ==> l4 == NO_TRANSPORT)
  {
    if CutTransport(proto, body) || proto !in {6, 17} {
      OtherBody(data, o, proto, body, looksHttp);
    } else if proto == 6 {
      TcpBody(data, o, body, looksHttp);
    } else {
      UdpBody(data, o, body, looksHttp);
    }
  }

  /** The name of any IP packet; a transport header cut short leaves every
      transport field zero. */
  lemma PacketName(dstMac: bytes, srcMac: bytes, tag: Option<u16>, n: Network, proto: byte, length: nat,
                   body: bytes, looksHttp: bool)
    requires |dstMac| == |srcMac| == 6 && NetworkOk(n, length)
    ensures var link := LinkHeader(dstMac, srcMac, tag, EtherTypeOf(n));
            var r := Dissected(link + EncodeNetwork(n, proto, length) + body, looksHttp);
            && r.Some?
            && BodyNamed(r.value.protocolName, proto, body, looksHttp)
            && (CutTransport(proto, body) ==> r.value.l4 == NO_TRANSPORT)
  {
    var front := LinkHeader(dstMac, srcMac, tag, EtherTypeOf(n)) + EncodeNetwork(n, proto, length);
    Encapsulation.PacketRead(dstMac, srcMac, tag, n, proto, length, body, looksHttp);
    var data := front + body;
    assert data[|front|..] == body;
    BodyName(data, |front|, proto, body, looksHttp);
  }

  lemma SegmentNames(f: Frame, l4: Transport, base: string, pad: bytes, looksHttp: bool, name: string)
    requires FrameOk(f) && Encapsulation.Carries(l4, f.segment)
    requires name == AppName(Protocol(f.net, f.segment), l4, base, looksHttp)
    requires f.segment.Tcp? ==> base == "tcp" && l4.payloadLen == |f.segment.payload| + |pad|
    requires f.segment.Udp? ==> base == "udp"
    requires f.segment.Icmp? ==> base == if f.net.Ip4? then "icmp" else "icmpv6"
    ensures f.segment.Tcp? ==>
              TcpNamed(name, f.segment.srcPort, f.segment.dstPort, |f.segment.payload| + |pad|, looksHttp)
    ensures f.segment.Udp? ==> UdpNamed(name, f.segment.srcPort, f.segment.dstPort)
    ensures name == "icmp" <==> f.segment.Icmp? && f.net.Ip4?
    ensures name == "icmpv6" <==> f.segment.Icmp? && f.net.Ip6?
  {
    Prints();
    if f.segment.Tcp? {
      TcpNames(l4, looksHttp);
    } else if f.segment.Udp? {
      UdpNames(l4, looksHttp);
    }
  }

  /** The base name and payload length of a whole segment. */
  lemma SegmentBase(data: bytes, before: bytes, n: Network, s: Segment, pad: bytes)
    requires SegmentOk(s) && data == before + EncodeSegment(s) + pad
    ensures var (l4, base) := TransportAt(data, |before|, Protocol(n, s), NO_TRANSPORT);
            && Encapsulation.Carries(l4, s)
            && (s.Tcp? ==> base == "tcp" && l4.payloadLen == |s.payload| + |pad|)
            && (s.Udp? ==> base == "udp")
            && (s.Icmp? ==> base == if n.Ip4? then "icmp" else "icmpv6")
  {
    if s.Tcp? {
      Encapsulation.TcpRead(data, before, s, pad);
    } else if s.Udp? {
      Encapsulation.UdpRead(data, before, s, pad);
    } else {
      Encapsulation.IcmpRead(data, before, s, Protocol(n, s), pad);
    }
  }

  /** The name of a frame that carries a whole segment. */
  lemma FrameName(f: Frame, pad: bytes, looksHttp: bool)
    requires FrameOk(f)
    ensures var r := Dissected(EncodeFrame(f) + pad, looksHttp);
            && r.Some?
            && var name, s := r.value.protocolName, f.segment;
            && (s.Tcp? ==> TcpNamed(name, s.srcPort, s.dstPort, |s.payload| + |pad|, looksHttp))
            && (s.Udp? ==> UdpNamed(name, s.srcPort, s.dstPort))
            && (name == "icmp" <==> s.Icmp? && f.net.Ip4?)
            && (name == "icmpv6" <==> s.Icmp? && f.net.Ip6?)
  {
    var proto, length := Protocol(f.net, f.segment), SegmentLength(f.segment);
    var front := EncodeLink(f) + EncodeNetwork(f.net, proto, length);
    var seg := EncodeSegment(f.segment);
    assert EncodeFrame(f) + pad == front + (seg + pad) == front + seg + pad;
    Encapsulation.PacketRead(f.dstMac, f.srcMac, f.tag, f.net, proto, length, seg + pad, looksHttp);
    var data := front + seg + pad;
    SegmentBase(data, front, f.net, f.segment, pad);
    var (l4, base) := TransportAt(data, |front|, proto, NO_TRANSPORT);
    SegmentNames(f, l4, base, pad, looksHttp, AppName(proto, l4, base, looksHttp));
  }

  /** A frame that carries no IP is named "other", and nothing behind its link
      header is read. */
  lemma NonIpName(dstMac: bytes, srcMac: bytes, tag: Option<u16>, ethertype: u16, rest: bytes, looksHttp: bool)
    requires |dstMac| == |srcMac| == 6 && (tag.None? ==> ethertype != 0x8100)
    requires ethertype != 0x0800 && ethertype != 0x86DD
    ensures var r := Dissected(LinkHeader(dstMac, srcMac, tag, ethertype) + rest, looksHttp);
            && r.Some? && r.value.protocolName == "other"
            && r.value.net == NO_NET && r.value.l4 == NO_TRANSPORT && r.value.link.ethertype == ethertype
  {
    Encapsulation.LinkRead(dstMac, srcMac, tag, ethertype, rest);
  }

  /** The IP header behind the link header is whole. */
  predicate WholeIpHeader(ethertype: u16, rest: bytes) {
    if ethertype == 0x0800 then |rest| >= 20 && 5 <= rest[0] % 0x10 && rest[0] % 0x10 * 4 <= |rest|
    else |rest| >= 40
  }

  lemma NetworkWhole(data: bytes, ethertype: u16, o: nat, rest: bytes)
    requires o <= |data| && data[o..] == rest && ethertype in {0x0800, 0x86DD}
    ensures var r := NetworkAt(data, ethertype, o);
            && (r.Some? <==> WholeIpHeader(ethertype, rest))
            && (r.Some? ==> r.value.0.srcIp.Some? && r.value.1 <= |data|)
  {
    if rest != [] {
      assert data[o] == rest[0];
    }
  }

  /** What is left of a frame without a network layer. */
  lemma DissectedWithout(data: bytes, looksHttp: bool, link: Link, o: nat)
    requires LinkAt(data) == Some((link, o)) && NetworkAt(data, link.ethertype, o) == None
    requires link.ethertype in {0x0800, 0x86DD}
    ensures Dissected(data, looksHttp) == Some(Meta(link, NO_NET, NO_TRANSPORT, ""))
  {
  }

  /** A frame whose IP header is cut short keeps an empty name and no addresses;
      with a whole header both are filled in. */
  lemma CutIpName(dstMac: bytes, srcMac: bytes, tag: Option<u16>, ethertype: u16, rest: bytes, looksHttp: bool)
    requires |dstMac| == |srcMac| == 6 && ethertype in {0x0800, 0x86DD}
    ensures var r := Dissected(LinkHeader(dstMac, srcMac, tag, ethertype) + rest, looksHttp);
            && r.Some?
            && (r.value.protocolName == "" <==> !WholeIpHeader(ethertype, rest))
            && (r.value.net == NO_NET <==> !WholeIpHeader(ethertype, rest))
            && (!WholeIpHeader(ethertype, rest) ==> r.value.l4 == NO_TRANSPORT)
  {
    var h := LinkHeader(dstMac, srcMac, tag, ethertype);
    var data := h + rest;
    assert data[|h|..] == rest;
    Encapsulation.LinkRead(dstMac, srcMac, tag, ethertype, rest);
    NetworkWhole(data, ethertype, |h|, rest);
    var link := LinkAt(data).value.0;
    if WholeIpHeader(ethertype, rest) {
      var r := NetworkAt(data, ethertype, |h|).value;
      Encapsulation.DissectedLayers(data, looksHttp, link, |h|, r.0, r.1);
      BodyName(data, r.1, r.0.proto, data[r.1..], looksHttp);
    } else {
      DissectedWithout(data, looksHttp, link, |h|);
    }
  }

  /** The dissector refuses exactly frames shorter than their link header. */
  lemma RefusedIff(data: bytes, looksHttp: bool)
    ensures Dissected(data, looksHttp) == None <==>
            |data| < 14 || (|data| < 18 && BeValue(data[12..14]) == 0x8100)
  {
    if |data| >= 14 {
      assert data[12..14] == [data[12], data[13]];
      TwoByteValue(data[12], data[13]);
    }
  }
}
