/** Ethernet, VLAN, IP and transport dissection: src/dissectors/mod.rs with
    tcp.rs, udp.rs and icmp.rs. */
module Dissect {
  import opened Wire
  import opened FlowKeys

  const ETH_HEADER_LEN := 14
  const ETHERTYPE_IPV4: u16 := 0x0800
  const ETHERTYPE_IPV6: u16 := 0x86DD
  const ETHERTYPE_VLAN: u16 := 0x8100
  const IP_PROTO_ICMP: byte := 1
  const IP_PROTO_TCP: byte := 6
  const IP_PROTO_UDP: byte := 17
  const IP_PROTO_ICMPV6: byte := 58
  const UDP_HEADER_LEN := 8
  const ICMP_HEADER_LEN := 8

  datatype Link = Link(srcMac: bytes, dstMac: bytes, ethertype: u16, vlanId: Option<u16>)

  datatype Net = Net(srcIp: Option<IpAddr>, dstIp: Option<IpAddr>, proto: byte, ttl: byte, totalLen: u16)

  datatype Transport = Transport(
    srcPort: u16, dstPort: u16,
    tcpFlags: byte, tcpWindow: u16, tcpSeq: u32, tcpAck: u32,
    icmpType: byte, icmpCode: byte,
    payloadOffset: nat, payloadLen: nat)

  /** The value of a metadata object. */
  datatype Meta = Meta(link: Link, net: Net, l4: Transport, protocolName: string)

  const NO_LINK := Link(seq(6, _ => 0), seq(6, _ => 0), 0, None)
  const NO_NET := Net(None, None, 0, 0, 0)
  const NO_TRANSPORT := Transport(0, 0, 0, 0, 0, 0, 0, 0, 0, 0)

  function At32(data: bytes, i: nat): u32
    requires i + 4 <= |data|
  {
    FromBe32(data[i], data[i + 1], data[i + 2], data[i + 3])
  }

  /** The Ethernet header and an optional 802.1Q tag; the offset of layer 3. */
  function LinkAt(data: bytes): (r: Option<(Link, nat)>)
    ensures r.Some? ==> r.value.1 <= |data|
  {
    if |data| < ETH_HEADER_LEN then None
    else if At16(data, 12) != ETHERTYPE_VLAN then
      Some((Link(data[6..12], data[0..6], At16(data, 12), None), ETH_HEADER_LEN))
    else if |data| < ETH_HEADER_LEN + 4 then None
    else Some((Link(data[6..12], data[0..6], At16(data, 16), Some(At16(data, 14) % 0x1000)), ETH_HEADER_LEN + 4))
  }

  /** The IPv4 header; the offset of layer 4. */
  function Ip4At(data: bytes, offset: nat): (r: Option<(Net, nat)>)
    ensures r.Some? ==> r.value.1 <= |data|
  {
    if |data| < offset + 20 then None
    else
      var ihl := data[offset] % 0x10 * 4;
      if ihl < 20 || |data| < offset + ihl then None
      else Some((Net(Some(V4(data[offset + 12..offset + 16])), Some(V4(data[offset + 16..offset + 20])),
                     data[offset + 9], data[offset + 8], At16(data, offset + 2)), offset + ihl))
  }

  /** The IPv6 fixed header; the offset of what follows it. */
  function Ip6At(data: bytes, offset: nat): (r: Option<(Net, nat)>)
    ensures r.Some? ==> r.value.1 <= |data|
  {
    if |data| < offset + 40 then None
    else Some((Net(Some(V6(data[offset + 8..offset + 24])), Some(V6(data[offset + 24..offset + 40])),
                   data[offset + 6], data[offset + 7], At16(data, offset + 4)), offset + 40))
  }

  function TcpAt(data: bytes, offset: nat, l4: Transport): (Transport, string) {
    if |data| < offset + 20 then (l4, "tcp_truncated")
    else
      var start := offset + Max(data[offset + 12] / 0x10 * 4, 20);
      (l4.(srcPort := At16(data, offset), dstPort := At16(data, offset + 2),
           tcpSeq := At32(data, offset + 4), tcpAck := At32(data, offset + 8),
           tcpFlags := data[offset + 13], tcpWindow := At16(data, offset + 14),
           payloadOffset := start, payloadLen := SaturatingSub(|data|, start)), "tcp")
  }

  function UdpAt(data: bytes, offset: nat, l4: Transport): (Transport, string) {
    if |data| < offset + UDP_HEADER_LEN then (l4, "udp_truncated")
    else
      var start := offset + UDP_HEADER_LEN;
      (l4.(srcPort := At16(data, offset), dstPort := At16(data, offset + 2),
           payloadOffset := start,
           payloadLen := Min(SaturatingSub(At16(data, offset + 4), UDP_HEADER_LEN),
                             SaturatingSub(|data|, start))), "udp")
  }

  function IcmpAt(data: bytes, offset: nat, proto: byte, l4: Transport): (Transport, string) {
    if |data| < offset + 4 then (l4, "icmp_truncated")
    else
      var start := offset + Min(ICMP_HEADER_LEN, |data| - offset);
      (l4.(icmpType := data[offset], icmpCode := data[offset + 1],
           payloadOffset := start, payloadLen := SaturatingSub(|data|, start)),
       if proto == IP_PROTO_ICMPV6 then "icmpv6" else "icmp")
  }

  function TransportAt(data: bytes, offset: nat, proto: byte, l4: Transport): (Transport, string) {
    if proto == IP_PROTO_TCP then TcpAt(data, offset, l4)
    else if proto == IP_PROTO_UDP then UdpAt(data, offset, l4)
    else if proto == IP_PROTO_ICMP || proto == IP_PROTO_ICMPV6 then IcmpAt(data, offset, proto, l4)
    else (l4.(payloadOffset := offset, payloadLen := SaturatingSub(|data|, offset)), "ip_other")
  }

  predicate Either(l4: Transport, ports: set<u16>) {
    l4.srcPort in ports || l4.dstPort in ports
  }

  /** The protocol name by port, refined for other TCP traffic by whether the
      payload reads as HTTP. */
  function AppName(proto: byte, l4: Transport, name: string, looksHttp: bool): string {
    if proto == IP_PROTO_TCP then
      if Either(l4, {443, 8443}) then "tls"
      else if Either(l4, {80, 8080, 8000, 9090, 3000, 3128, 8888}) then "http"
      else if Either(l4, {53}) then "dns"
      else if l4.payloadLen > 4 && looksHttp then "http"
      else name
    else if proto == IP_PROTO_UDP then
      if Either(l4, {53, 5353}) then "dns"
      else if Either(l4, {123}) then "ntp"
      else if Either(l4, {67, 68}) then "dhcp"
      else if Either(l4, {443}) then "quic"
      else name
    else name
  }

  /** The name does not depend on the direction of the packet. */
  lemma AppNameSymmetric(proto: byte, l4: Transport, name: string, looksHttp: bool)
    ensures AppName(proto, l4.(srcPort := l4.dstPort, dstPort := l4.srcPort), name, looksHttp)
         == AppName(proto, l4, name, looksHttp)
  {
  }

  /** Everything above layer 2. */
  function NetworkAt(data: bytes, ethertype: u16, offset: nat): Option<(Net, nat)> {
    if ethertype == ETHERTYPE_IPV4 then Ip4At(data, offset)
    else if ethertype == ETHERTYPE_IPV6 then Ip6At(data, offset)
    else None
  }

  /** What the dissector makes of a frame. */
  function Dissected(data: bytes, looksHttp: bool): Option<Meta> {
    var link := LinkAt(data);
    if link.None? then None
    else
      var ethertype := link.value.0.ethertype;
      var net := NetworkAt(data, ethertype, link.value.1);
      if net.None? then
        Some(Meta(link.value.0, NO_NET, NO_TRANSPORT,
          if ethertype == ETHERTYPE_IPV4 || ethertype == ETHERTYPE_IPV6 then "" else "other"))
      else
        var (l4, name) := TransportAt(data, net.value.1, net.value.0.proto, NO_TRANSPORT);
        Some(Meta(link.value.0, net.value.0, l4, AppName(net.value.0.proto, l4, name, looksHttp)))
  }

  /** The metadata object the dissectors fill in, grouped by layer. */
  class PacketMetadata {
    var link: Link
    var net: Net
    var l4: Transport
    var protocolName: string

    constructor ()
      ensures View() == Meta(NO_LINK, NO_NET, NO_TRANSPORT, "")
    {
      link := NO_LINK;
      net := NO_NET;
      l4 := NO_TRANSPORT;
      protocolName := "";
    }

    function View(): Meta
      reads this
    {
      Meta(link, net, l4, protocolName)
    }
  }

  method DissectTcp(data: bytes, offset: nat, meta: PacketMetadata)
    modifies meta`l4, meta`protocolName
    ensures (meta.l4, meta.protocolName) == TcpAt(data, offset, old(meta.l4))
  {
    if |data| < offset + 20 {
      meta.protocolName := "tcp_truncated";
      return;
    }
    meta.l4 := meta.l4.(srcPort := FromBe16(data[offset], data[offset + 1]));
    meta.l4 := meta.l4.(dstPort := FromBe16(data[offset + 2], data[offset + 3]));
    meta.l4 := meta.l4.(tcpSeq := FromBe32(data[offset + 4], data[offset + 5], data[offset + 6], data[offset + 7]));
    meta.l4 := meta.l4.(tcpAck := FromBe32(data[offset + 8], data[offset + 9], data[offset + 10], data[offset + 11]));
    var dataOffset := data[offset + 12] / 0x10 * 4;
    meta.l4 := meta.l4.(tcpFlags := data[offset + 13]);
    meta.l4 := meta.l4.(tcpWindow := FromBe16(data[offset + 14], data[offset + 15]));
    meta.protocolName := "tcp";
    var payloadStart := offset + Max(dataOffset, 20);
    meta.l4 := meta.l4.(payloadOffset := payloadStart);
    meta.l4 := meta.l4.(payloadLen := SaturatingSub(|data|, payloadStart));
  }

  method DissectUdp(data: bytes, offset: nat, meta: PacketMetadata)
    modifies meta`l4, meta`protocolName
    ensures (meta.l4, meta.protocolName) == UdpAt(data, offset, old(meta.l4))
  {
    if |data| < offset + UDP_HEADER_LEN {
      meta.protocolName := "udp_truncated";
      return;
    }
    meta.l4 := meta.l4.(srcPort := FromBe16(data[offset], data[offset + 1]));
    meta.l4 := meta.l4.(dstPort := FromBe16(data[offset + 2], data[offset + 3]));
    var udpLen := FromBe16(data[offset + 4], data[offset + 5]);
    meta.protocolName := "udp";
    var payloadStart := offset + UDP_HEADER_LEN;
    meta.l4 := meta.l4.(payloadOffset := payloadStart);
    var maxPayload := SaturatingSub(udpLen, UDP_HEADER_LEN);
    meta.l4 := meta.l4.(payloadLen := Min(maxPayload, SaturatingSub(|data|, payloadStart)));
  }

  method DissectIcmp(data: bytes, offset: nat, meta: PacketMetadata)
    modifies meta`l4, meta`protocolName
    ensures (meta.l4, meta.protocolName) == IcmpAt(data, offset, meta.net.proto, old(meta.l4))
  {
    if |data| < offset + 4 {
      meta.protocolName := "icmp_truncated";
      return;
    }
    meta.l4 := meta.l4.(icmpType := data[offset]);
    meta.l4 := meta.l4.(icmpCode := data[offset + 1]);
    meta.protocolName := if meta.net.proto == IP_PROTO_ICMPV6 then "icmpv6" else "icmp";
    var payloadStart := offset + Min(ICMP_HEADER_LEN, |data| - offset);
    meta.l4 := meta.l4.(payloadOffset := payloadStart);
    meta.l4 := meta.l4.(payloadLen := SaturatingSub(|data|, payloadStart));
  }

  method DissectIpv4(data: bytes, offset: nat, meta: PacketMetadata) returns (l4Offset: Option<nat>)
    modifies meta`net
    ensures var r := Ip4At(data, offset);
            && (r.None? ==> l4Offset == None && meta.net == old(meta.net))
            && (r.Some? ==> meta.net == r.value.0 && l4Offset == Some(r.value.1))
  {
    if |data| < offset + 20 {
      return None;
    }
    var versionIhl := data[offset];
    var ihl := versionIhl % 0x10 * 4;
    if ihl < 20 || |data| < offset + ihl {
      return None;
    }
    meta.net := meta.net.(totalLen := FromBe16(data[offset + 2], data[offset + 3]));
    meta.net := meta.net.(ttl := data[offset + 8]);
    meta.net := meta.net.(proto := data[offset + 9]);
    meta.net := meta.net.(srcIp := Some(V4(data[offset + 12..offset + 16])));
    meta.net := meta.net.(dstIp := Some(V4(data[offset + 16..offset + 20])));
    return Some(offset + ihl);
  }

  method DissectIpv6(data: bytes, offset: nat, meta: PacketMetadata) returns (l4Offset: Option<nat>)
    modifies meta`net
    ensures var r := Ip6At(data, offset);
            && (r.None? ==> l4Offset == None && meta.net == old(meta.net))
            && (r.Some? ==> meta.net == r.value.0 && l4Offset == Some(r.value.1))
  {
    if |data| < offset + 40 {
      return None;
    }
    meta.net := meta.net.(ttl := data[offset + 7]);
    meta.net := meta.net.(proto := data[offset + 6]);
    meta.net := meta.net.(totalLen := FromBe16(data[offset + 4], data[offset + 5]));
    meta.net := meta.net.(srcIp := Some(V6(data[offset + 8..offset + 24])));
    meta.net := meta.net.(dstIp := Some(V6(data[offset + 24..offset + 40])));
    return Some(offset + 40);
  }

  /** The entry point, on arbitrary bytes; `looksHttp` is the verdict of the HTTP
      heuristic on the payload. */
  method DissectPacket(data: bytes, looksHttp: bool) returns (ok: bool, meta: PacketMetadata)
    ensures fresh(meta)
    ensures ok <==> Dissected(data, looksHttp).Some?
    ensures ok ==> meta.View() == Dissected(data, looksHttp).value
  {
    meta := new PacketMetadata();
    if |data| < ETH_HEADER_LEN {
      return false, meta;
    }
    var ethertype := FromBe16(data[12], data[13]);
    var offset := ETH_HEADER_LEN;
    var vlanId: Option<u16> := None;
    if ethertype == ETHERTYPE_VLAN {
      if |data| < offset + 4 {
        return false, meta;
      }
      vlanId := Some(FromBe16(data[offset], data[offset + 1]) % 0x1000);
      ethertype := FromBe16(data[offset + 2], data[offset + 3]);
      offset := offset + 4;
    }
    meta.link := Link(data[6..12], data[0..6], ethertype, vlanId);
    assert LinkAt(data) == Some((meta.link, offset));

    var l4Offset: Option<nat>;
    if ethertype == ETHERTYPE_IPV4 {
      l4Offset := DissectIpv4(data, offset, meta);
    } else if ethertype == ETHERTYPE_IPV6 {
      l4Offset := DissectIpv6(data, offset, meta);
    } else {
      meta.protocolName := "other";
      return true, meta;
    }
    if l4Offset.None? {
      return true, meta;
    }
    DissectTransport(data, l4Offset.value, meta);
    meta.protocolName := AppName(meta.net.proto, meta.l4, meta.protocolName, looksHttp);
    return true, meta;
  }

  method DissectTransport(data: bytes, offset: nat, meta: PacketMetadata)
    modifies meta`l4, meta`protocolName
    ensures (meta.l4, meta.protocolName) == TransportAt(data, offset, meta.net.proto, old(meta.l4))
  {
    if meta.net.proto == IP_PROTO_TCP {
      DissectTcp(data, offset, meta);
    } else if meta.net.proto == IP_PROTO_UDP {
      DissectUdp(data, offset, meta);
    } else if meta.net.proto == IP_PROTO_ICMP || meta.net.proto == IP_PROTO_ICMPV6 {
      DissectIcmp(data, offset, meta);
    } else {
      meta.protocolName := "ip_other";
      meta.l4 := meta.l4.(payloadOffset := offset);
      meta.l4 := meta.l4.(payloadLen := SaturatingSub(|data|, offset));
    }
  }

  /** On arbitrary bytes the reported payload lies inside the frame. */
  lemma PayloadInsideFrame(data: bytes, looksHttp: bool)
    ensures var r := Dissected(data, looksHttp);
            r.Some? && r.value.l4.payloadLen > 0 ==>
              r.value.l4.payloadOffset + r.value.l4.payloadLen <= |data|
  {
    var link := LinkAt(data);
    if link.Some? {
      var net := NetworkAt(data, link.value.0.ethertype, link.value.1);
      if net.Some? {
        TransportInside(data, net.value.1, net.value.0.proto);
      }
    }
  }

  lemma TransportInside(data: bytes, offset: nat, proto: byte)
    ensures var l4 := TransportAt(data, offset, proto, NO_TRANSPORT).0;
            l4.payloadLen > 0 ==> l4.payloadOffset + l4.payloadLen <= |data|
  {
  }

  /** The fixed header length of a transport protocol. */
  function FixedHeader(proto: byte): nat {
    if proto == 6 then 20 else if proto in {1, 17, 58} then 8 else 0
  }

  /** On arbitrary bytes, whatever its length fields say, a non-empty payload
      starts behind the fixed header and before the end of the frame; a short
      ICMP message has its payload start clamped to the frame. */
  lemma PayloadBehindHeader(data: bytes, offset: nat, proto: byte)
    ensures var l4 := TransportAt(data, offset, proto, NO_TRANSPORT).0;
            && (l4.payloadLen > 0 ==> offset + FixedHeader(proto) <= l4.payloadOffset < |data|)
            && (proto in {1, 58} && |data| >= offset + 4 ==> l4.payloadOffset == Min(offset + 8, |data|))
  {
  }
}
