/** Dissection undoes encapsulation: RFC 791 section 3.1, RFC 8200 section 3,
    RFC 9293 section 3.1, RFC 768, and the ICMP header of RFC 792. */
module Frames {
  import opened Wire
  import opened FlowKeys

  datatype Segment =
    | Tcp(srcPort: u16, dstPort: u16, seqNo: u32, ackNo: u32, reserved: byte, flags: byte, window: u16,
          checksum: u16, urgent: u16, options: bytes, payload: bytes)
    | Udp(srcPort: u16, dstPort: u16, checksum: u16, payload: bytes)
    | Icmp(icmpType: byte, icmpCode: byte, checksum: u16, rest: bytes, payload: bytes)

  datatype Network =
    | Ip4(tos: byte, id: u16, fragment: u16, ttl: byte, checksum: u16, src4: Octets4, dst4: Octets4, options: bytes)
    | Ip6(flow: bytes, hopLimit: byte, src6: Octets16, dst6: Octets16)

  datatype Frame = Frame(dstMac: bytes, srcMac: bytes, tag: Option<u16>, net: Network, segment: Segment)

  /** Options are whole 32-bit words, at most ten of them. */
  predicate OptionsOk(options: bytes) {
    |options| % 4 == 0 && |options| <= 40
  }

  predicate SegmentOk(s: Segment) {
    match s
    case Tcp(_, _, _, _, reserved, _, _, _, _, options, _) => OptionsOk(options) && reserved < 0x10
    case Udp(_, _, _, payload) => 8 + |payload| < 0x1_0000
    case Icmp(_, _, _, rest, _) => |rest| == 4
  }

  function SegmentLength(s: Segment): nat {
    if s.Tcp? then 20 + |s.options| + |s.payload| else 8 + |s.payload|
  }

  /** The network header can announce `length` bytes behind it. */
  predicate NetworkOk(n: Network, length: nat) {
    && (n.Ip4? ==> OptionsOk(n.options) && 20 + |n.options| + length < 0x1_0000)
    && (n.Ip6? ==> |n.flow| == 4 && length < 0x1_0000)
  }

  predicate FrameOk(f: Frame) {
    && |f.dstMac| == 6 && |f.srcMac| == 6
    && SegmentOk(f.segment) && NetworkOk(f.net, SegmentLength(f.segment))
  }

  function Hi(n: u16): byte { n / 0x100 }

  function Lo(n: u16): byte { n % 0x100 }

  /** An Ethernet II header with an optional 802.1Q tag. */
  function LinkHeader(dstMac: bytes, srcMac: bytes, tag: Option<u16>, ethertype: u16): bytes {
    dstMac + srcMac +
    (if tag.Some? then [0x81, 0x00, Hi(tag.value), Lo(tag.value)] else []) +
    [Hi(ethertype), Lo(ethertype)]
  }

  function EncodeLink(f: Frame): bytes {
    LinkHeader(f.dstMac, f.srcMac, f.tag, EtherTypeOf(f.net))
  }

  function EtherTypeOf(n: Network): u16 {
    if n.Ip4? then 0x0800 else 0x86DD
  }

  /** The IPv4 header up to the addresses. */
  function Ip4Header(n: Network, proto: byte, length: nat): (h: bytes)
    requires n.Ip4? && OptionsOk(n.options) && 20 + |n.options| + length < 0x1_0000
    ensures |h| == 12
  {
    var total: u16 := 20 + |n.options| + length;
    [0x45 + |n.options| / 4, n.tos, Hi(total), Lo(total), Hi(n.id), Lo(n.id), Hi(n.fragment), Lo(n.fragment),
     n.ttl, proto, Hi(n.checksum), Lo(n.checksum)]
  }

  function EncodeNetwork(n: Network, proto: byte, length: nat): (b: bytes)
    requires NetworkOk(n, length)
  {
    match n
    case Ip4(_, _, _, _, _, src, dst, options) => Ip4Header(n, proto, length) + src + dst + options
    case Ip6(flow, hopLimit, src, dst) => flow + [Hi(length), Lo(length), proto, hopLimit] + src + dst
  }

  /** The fixed part of a TCP header. */
  function TcpHeader(s: Segment): (h: bytes)
    requires s.Tcp? && SegmentOk(s)
    ensures |h| == 20
  {
    [Hi(s.srcPort), Lo(s.srcPort), Hi(s.dstPort), Lo(s.dstPort)] + Be32(s.seqNo) + Be32(s.ackNo) +
    [(5 + |s.options| / 4) * 0x10 + s.reserved, s.flags, Hi(s.window), Lo(s.window),
     Hi(s.checksum), Lo(s.checksum), Hi(s.urgent), Lo(s.urgent)]
  }

  function EncodeSegment(s: Segment): bytes
    requires SegmentOk(s)
  {
    match s
    case Tcp(_, _, _, _, _, _, _, _, _, options, payload) => TcpHeader(s) + (options + payload)
    case Udp(srcPort, dstPort, checksum, payload) =>
      var length: u16 := 8 + |payload|;
      [Hi(srcPort), Lo(srcPort), Hi(dstPort), Lo(dstPort), Hi(length), Lo(length), Hi(checksum), Lo(checksum)] + payload
    case Icmp(icmpType, icmpCode, checksum, rest, payload) =>
      [icmpType, icmpCode, Hi(checksum), Lo(checksum)] + rest + payload
  }

  /** The protocol number announced by the network header; ICMP has one per
      version of IP. */
  function Protocol(n: Network, s: Segment): byte {
    if s.Tcp? then 6 else if s.Udp? then 17 else if n.Ip4? then 1 else 58
  }

  function SourcePort(s: Segment): u16 {
    if s.Icmp? then 0 else s.srcPort
  }

  function DestPort(s: Segment): u16 {
    if s.Icmp? then 0 else s.dstPort
  }

  function EncodeFrame(f: Frame): bytes
    requires FrameOk(f)
  {
    EncodeLink(f)
    + EncodeNetwork(f.net, Protocol(f.net, f.segment), SegmentLength(f.segment))
    + EncodeSegment(f.segment)
  }

  function SourceIp(n: Network): IpAddr {
    if n.Ip4? then V4(n.src4) else V6(n.src6)
  }

  function DestIp(n: Network): IpAddr {
    if n.Ip4? then V4(n.dst4) else V6(n.dst6)
  }
}

module Encapsulation {
  import opened Wire
  import opened FlowKeys
  import opened Frames
  import opened Dissect

  lemma ReadAt(data: bytes, before: bytes, header: bytes, after: bytes)
    requires data == before + header + after
    ensures forall i :: 0 <= i < |header| ==> data[|before| + i] == header[i]
  {
  }

  /** MAC addresses, an optional tag and the ethertype, whatever follows. */
  lemma LinkRead(dstMac: bytes, srcMac: bytes, tag: Option<u16>, ethertype: u16, rest: bytes)
    requires |dstMac| == |srcMac| == 6 && (tag.None? ==> ethertype != 0x8100)
    ensures var h := LinkHeader(dstMac, srcMac, tag, ethertype);
            LinkAt(h + rest) == Some((
              Link(srcMac, dstMac, ethertype, if tag.Some? then Some(tag.value % 0x1000) else None), |h|))
  {
    var h := LinkHeader(dstMac, srcMac, tag, ethertype);
    var data := h + rest;
    assert data[0..6] == dstMac && data[6..12] == srcMac;
    assert forall i :: 0 <= i < |h| ==> data[i] == h[i];
    if tag.Some? {
      assert h[12] == 0x81 && h[13] == 0x00 && h[14] == Hi(tag.value) && h[15] == Lo(tag.value);
      assert h[16] == Hi(ethertype) && h[17] == Lo(ethertype);
    } else {
      assert h[12] == Hi(ethertype) && h[13] == Lo(ethertype);
    }
  }

  /** A fixed header, two addresses and the rest, wherever they start. */
  lemma AddressesAt(data: bytes, before: bytes, h: bytes, src: bytes, dst: bytes, after: bytes)
    requires data == before + (h + src + dst) + after
    ensures var o := |before|; var a := o + |h|; var b := a + |src|;
            && b + |dst| + |after| == |data|
            && (forall i :: 0 <= i < |h| ==> data[o + i] == h[i])
            && data[a..b] == src && data[b..b + |dst|] == dst
  {
    assert data == (before + h) + src + (dst + after);
    ChunkAt(data, before + h, src, dst + after);
    assert data == (before + h + src) + dst + after;
    ChunkAt(data, before + h + src, dst, after);
  }

  lemma OptionsAside(data: bytes, before: bytes, h: bytes, src: bytes, dst: bytes, options: bytes, after: bytes)
    requires data == before + (h + src + dst + options) + after
    ensures data == before + (h + src + dst) + (options + after)
  {
    Regroup(before, h + src + dst, options, after);
  }

  /** The parts of an IPv4 header are where they were put. */
  lemma Ip4Placed(data: bytes, before: bytes, h: bytes, src: bytes, dst: bytes, options: bytes, after: bytes)
    requires |h| == 12 && |src| == 4 && |dst| == 4
    requires data == before + (h + src + dst + options) + after
    ensures var o := |before|;
            && o + 20 + |options| <= |data| && (forall i :: 0 <= i < 12 ==> data[o + i] == h[i])
            && data[o + 12..o + 16] == src && data[o + 16..o + 20] == dst
  {
    OptionsAside(data, before, h, src, dst, options, after);
    AddressesAt(data, before, h, src, dst, options + after);
  }

  lemma Ip4Parts(n: Network, proto: byte, length: nat)
    requires n.Ip4? && NetworkOk(n, length)
    ensures EncodeNetwork(n, proto, length) == Ip4Header(n, proto, length) + n.src4 + n.dst4 + n.options
  {
  }

  lemma Ip4Read(data: bytes, before: bytes, n: Network, proto: byte, length: nat, after: bytes)
    requires n.Ip4? && NetworkOk(n, length) && data == before + EncodeNetwork(n, proto, length) + after
    ensures Ip4At(data, |before|) == Some((
              Net(Some(V4(n.src4)), Some(V4(n.dst4)), proto, n.ttl, 20 + |n.options| + length),
              |before| + 20 + |n.options|))
  {
    var h := Ip4Header(n, proto, length);
    Ip4Parts(n, proto, length);
    Ip4Placed(data, before, h, n.src4, n.dst4, n.options, after);
    Ip4HeaderBytes(n, proto, length);
    Ip4Fields(data, |before|, h, n.src4, n.dst4, |n.options|, proto, n.ttl, 20 + |n.options| + length);
  }

  /** The bytes of the fixed header that the parser reads. */
  lemma Ip4HeaderBytes(n: Network, proto: byte, length: nat)
    requires n.Ip4? && NetworkOk(n, length)
    ensures var h := Ip4Header(n, proto, length);
            && h[0] % 0x10 * 4 == 20 + |n.options| && FromBe16(h[2], h[3]) == 20 + |n.options| + length
            && h[8] == n.ttl && h[9] == proto
  {
  }

  lemma Ip4Fields(data: bytes, o: nat, h: bytes, src: Octets4, dst: Octets4, options: nat,
                  proto: byte, ttl: byte, total: u16)
    requires |h| == 12 && o + 20 + options <= |data|
    requires h[0] % 0x10 * 4 == 20 + options && FromBe16(h[2], h[3]) == total && h[8] == ttl && h[9] == proto
    requires forall i :: 0 <= i < 12 ==> data[o + i] == h[i]
    requires data[o + 12..o + 16] == src && data[o + 16..o + 20] == dst
    ensures Ip4At(data, o) == Some((Net(Some(V4(src)), Some(V4(dst)), proto, ttl, total), o + 20 + options))
  {
    assert data[o] == data[o + 0] == h[0] && data[o + 2] == h[2] && data[o + 3] == h[3];
    assert data[o + 8] == h[8] && data[o + 9] == h[9];
  }

  lemma Ip6Read(data: bytes, before: bytes, n: Network, proto: byte, length: nat, after: bytes)
    requires n.Ip6? && |n.flow| == 4 && length < 0x1_0000
    requires data == before + EncodeNetwork(n, proto, length) + after
    ensures Ip6At(data, |before|) == Some((
              Net(Some(V6(n.src6)), Some(V6(n.dst6)), proto, n.hopLimit, length), |before| + 40))
  {
    var h: bytes := n.flow + [Hi(length), Lo(length), proto, n.hopLimit];
    assert data == before + (h + n.src6 + n.dst6) + after;
    AddressesAt(data, before, h, n.src6, n.dst6, after);
    Ip6Fields(data, |before|, h, n, proto, length);
  }

  lemma Ip6Fields(data: bytes, o: nat, h: bytes, n: Network, proto: byte, length: u16)
    requires n.Ip6? && o + 40 <= |data| && |h| == 8 && h[4..] == [Hi(length), Lo(length), proto, n.hopLimit]
    requires forall i :: 0 <= i < 8 ==> data[o + i] == h[i]
    requires data[o + 8..o + 24] == n.src6 && data[o + 24..o + 40] == n.dst6
    ensures Ip6At(data, o) == Some((
              Net(Some(V6(n.src6)), Some(V6(n.dst6)), proto, n.hopLimit, length), o + 40))
  {
    var t := h[4..];
    assert data[o + 4] == h[4] == t[0] && data[o + 5] == h[5] == t[1];
    assert data[o + 6] == h[6] == t[2] && data[o + 7] == h[7] == t[3];
    assert At16(data, o + 4) == length;
  }

  /** The transport fields of a segment; those of other protocols stay zero. */
  predicate Carries(l4: Transport, s: Segment) {
    && l4.srcPort == SourcePort(s) && l4.dstPort == DestPort(s)
    && (if s.Icmp? then l4.icmpType == s.icmpType && l4.icmpCode == s.icmpCode
        else l4.icmpType == l4.icmpCode == 0)
    && (if s.Tcp? then
          l4.tcpSeq == s.seqNo && l4.tcpAck == s.ackNo && l4.tcpFlags == s.flags && l4.tcpWindow == s.window
        else l4.tcpSeq == l4.tcpAck == l4.tcpFlags == l4.tcpWindow == 0)
  }

  /** Which field each byte of the fixed header belongs to. */
  lemma TcpHeaderLayout(s: Segment)
    requires s.Tcp? && SegmentOk(s)
    ensures var h := TcpHeader(s); var q, a := Be32(s.seqNo), Be32(s.ackNo);
            && h[0] == Hi(s.srcPort) && h[1] == Lo(s.srcPort) && h[2] == Hi(s.dstPort) && h[3] == Lo(s.dstPort)
            && h[4] == q[0] && h[5] == q[1] && h[6] == q[2] && h[7] == q[3]
            && h[8] == a[0] && h[9] == a[1] && h[10] == a[2] && h[11] == a[3]
            && h[12] == (5 + |s.options| / 4) * 0x10 + s.reserved && h[13] == s.flags
            && h[14] == Hi(s.window) && h[15] == Lo(s.window)
  {
  }

  lemma DataOffsetRead(words: nat, reserved: byte)
    requires words <= 10 && reserved < 0x10
    ensures ((5 + words) * 0x10 + reserved) / 0x10 * 4 == 20 + words * 4
  {
  }

  lemma TcpHeaderBytes(s: Segment)
    requires s.Tcp? && SegmentOk(s)
    ensures var h := TcpHeader(s);
            && FromBe16(h[0], h[1]) == s.srcPort && FromBe16(h[2], h[3]) == s.dstPort
            && FromBe32(h[4], h[5], h[6], h[7]) == s.seqNo && FromBe32(h[8], h[9], h[10], h[11]) == s.ackNo
            && h[12] / 0x10 * 4 == 20 + |s.options| && h[13] == s.flags && FromBe16(h[14], h[15]) == s.window
  {
    TcpHeaderLayout(s);
    Be32RoundTrip(s.seqNo);
    Be32RoundTrip(s.ackNo);
    DataOffsetRead(|s.options| / 4, s.reserved);
  }

  lemma TcpFields(data: bytes, o: nat, s: Segment)
    requires s.Tcp? && SegmentOk(s) && o + 20 + |s.options| <= |data|
    requires forall i :: 0 <= i < 20 ==> data[o + i] == TcpHeader(s)[i]
    ensures var l4 := TcpAt(data, o, NO_TRANSPORT).0;
            && Carries(l4, s) && l4.payloadOffset == o + 20 + |s.options| && l4.payloadLen == |data| - l4.payloadOffset
  {
    TcpHeaderBytes(s);
    var h := TcpHeader(s);
    assert data[o] == data[o + 0] == h[0] && data[o + 1] == h[1] && data[o + 2] == h[2] && data[o + 3] == h[3];
    assert data[o + 4] == h[4] && data[o + 5] == h[5] && data[o + 6] == h[6] && data[o + 7] == h[7];
    assert data[o + 8] == h[8] && data[o + 9] == h[9] && data[o + 10] == h[10] && data[o + 11] == h[11];
    assert data[o + 12] == h[12] && data[o + 13] == h[13] && data[o + 14] == h[14] && data[o + 15] == h[15];
  }

  /** A header, options, a payload and trailing bytes, wherever they start. */
  lemma HeaderThenPayload(data: bytes, before: bytes, h: bytes, options: bytes, payload: bytes, pad: bytes)
    requires data == before + (h + (options + payload)) + pad
    ensures |data| == |before| + |h| + |options| + |payload| + |pad|
    ensures forall i :: 0 <= i < |h| ==> data[|before| + i] == h[i]
    ensures data[|before| + |h| + |options|..] == payload + pad
  {
    Regroup(before, h, options + payload, pad);
    Regroup(before + h, options, payload, pad);
    assert data == (before + h + options) + (payload + pad);
  }

  lemma TcpRead(data: bytes, before: bytes, s: Segment, pad: bytes)
    requires s.Tcp? && SegmentOk(s) && data == before + EncodeSegment(s) + pad
    ensures var l4 := TcpAt(data, |before|, NO_TRANSPORT).0;
            && Carries(l4, s)
            && l4.payloadOffset == |before| + 20 + |s.options|
            && l4.payloadLen == |s.payload| + |pad|
            && data[l4.payloadOffset..] == s.payload + pad
  {
    HeaderThenPayload(data, before, TcpHeader(s), s.options, s.payload, pad);
    TcpFields(data, |before|, s);
  }

  lemma UdpRead(data: bytes, before: bytes, s: Segment, pad: bytes)
    requires s.Udp? && SegmentOk(s) && data == before + EncodeSegment(s) + pad
    ensures var l4 := UdpAt(data, |before|, NO_TRANSPORT).0;
            && Carries(l4, s)
            && l4.payloadOffset == |before| + 8 && l4.payloadLen == |s.payload|
            && data[l4.payloadOffset..l4.payloadOffset + l4.payloadLen] == s.payload
  {
    var length: u16 := 8 + |s.payload|;
    var h: bytes := [Hi(s.srcPort), Lo(s.srcPort), Hi(s.dstPort), Lo(s.dstPort),
                     Hi(length), Lo(length), Hi(s.checksum), Lo(s.checksum)];
    assert data == before + h + (s.payload + pad);
    ReadAt(data, before, h, s.payload + pad);
    var o := |before|;
    assert data[o] == h[0] && data[o + 1] == h[1] && data[o + 2] == h[2] && data[o + 3] == h[3];
    assert data[o + 4] == h[4] && data[o + 5] == h[5];
    assert At16(data, o) == s.srcPort && At16(data, o + 2) == s.dstPort && At16(data, o + 4) == length;
    assert data == (before + h) + s.payload + pad;
    ChunkAt(data, before + h, s.payload, pad);
  }

  lemma IcmpRead(data: bytes, before: bytes, s: Segment, proto: byte, pad: bytes)
    requires s.Icmp? && SegmentOk(s) && data == before + EncodeSegment(s) + pad
    ensures var l4 := IcmpAt(data, |before|, proto, NO_TRANSPORT).0;
            && Carries(l4, s)
            && l4.payloadOffset == |before| + 8 && l4.payloadLen == |s.payload| + |pad|
            && data[l4.payloadOffset..] == s.payload + pad
  {
    var h: bytes := [s.icmpType, s.icmpCode, Hi(s.checksum), Lo(s.checksum)] + s.rest;
    Regroup(before, h, s.payload, pad);
    ReadAt(data, before, h, s.payload + pad);
    var o := |before|;
    assert data[o] == data[o + 0] == h[0] && data[o + 1] == h[1];
  }

  /** The payload slice of a frame with trailing bytes: UDP is capped by its
      declared length, TCP and ICMP run to the end of the frame. */
  function ExpectedPayload(s: Segment, pad: bytes): bytes {
    if s.Udp? then s.payload else s.payload + pad
  }

  function PayloadOf(data: bytes, l4: Transport): bytes
    requires l4.payloadOffset + l4.payloadLen <= |data|
  {
    data[l4.payloadOffset..l4.payloadOffset + l4.payloadLen]
  }

  lemma SegmentRead(data: bytes, before: bytes, n: Network, s: Segment, pad: bytes)
    requires SegmentOk(s) && data == before + EncodeSegment(s) + pad
    ensures var l4 := TransportAt(data, |before|, Protocol(n, s), NO_TRANSPORT).0;
            && Carries(l4, s)
            && l4.payloadOffset + l4.payloadLen <= |data|
            && PayloadOf(data, l4) == ExpectedPayload(s, pad)
  {
    if s.Tcp? {
      TcpRead(data, before, s, pad);
    } else if s.Udp? {
      UdpRead(data, before, s, pad);
    } else {
      IcmpRead(data, before, s, Protocol(n, s), pad);
    }
  }

  /** What the total-length field announces: for IPv4 the header counts. */
  function TotalLength(n: Network, length: nat): nat {
    if n.Ip4? then 20 + |n.options| + length else length
  }

  /** The network header of any packet, whatever it carries. */
  lemma NetworkRead(data: bytes, before: bytes, n: Network, proto: byte, length: nat, after: bytes)
    requires NetworkOk(n, length) && data == before + EncodeNetwork(n, proto, length) + after
    ensures var r := NetworkAt(data, EtherTypeOf(n), |before|);
            && r.Some?
            && r.value.0 == Net(Some(SourceIp(n)), Some(DestIp(n)), proto,
                                if n.Ip4? then n.ttl else n.hopLimit, TotalLength(n, length))
            && r.value.1 == |before| + |EncodeNetwork(n, proto, length)|
  {
    if n.Ip4? {
      Ip4Read(data, before, n, proto, length, after);
    } else {
      Ip6Read(data, before, n, proto, length, after);
    }
  }

  /** The dissector from its layers. */
  lemma DissectedLayers(data: bytes, looksHttp: bool, link: Link, o: nat, net: Net, p: nat)
    requires LinkAt(data) == Some((link, o)) && NetworkAt(data, link.ethertype, o) == Some((net, p))
    ensures var r := Dissected(data, looksHttp);
            var (l4, name) := TransportAt(data, p, net.proto, NO_TRANSPORT);
            r == Some(Meta(link, net, l4, AppName(net.proto, l4, name, looksHttp)))
  {
  }

  lemma Regrouped(a: bytes, b: bytes, c: bytes)
    ensures a + b + c == a + (b + c) && |a + b| == |a| + |b|
  {
    assert a + b + c == a + (b + c);
  }

  lemma HeadersRead(dstMac: bytes, srcMac: bytes, tag: Option<u16>, n: Network, proto: byte, length: nat, body: bytes)
    requires |dstMac| == |srcMac| == 6 && NetworkOk(n, length)
    ensures var link := LinkHeader(dstMac, srcMac, tag, EtherTypeOf(n));
            var net := EncodeNetwork(n, proto, length);
            && LinkAt(link + net + body) == Some((
                 Link(srcMac, dstMac, EtherTypeOf(n), if tag.Some? then Some(tag.value % 0x1000) else None), |link|))
            && NetworkAt(link + net + body, EtherTypeOf(n), |link|) == Some((
                 Net(Some(SourceIp(n)), Some(DestIp(n)), proto,
                     if n.Ip4? then n.ttl else n.hopLimit, TotalLength(n, length)), |link + net|))
  {
    var link := LinkHeader(dstMac, srcMac, tag, EtherTypeOf(n));
    var net := EncodeNetwork(n, proto, length);
    Regrouped(link, net, body);
    LinkRead(dstMac, srcMac, tag, EtherTypeOf(n), net + body);
    NetworkRead(link + net + body, link, n, proto, length, body);
  }

  /** Any IP packet in any frame: both headers are read back, and what the network
      header carries is handed to the transport parsers. */
  lemma PacketRead(dstMac: bytes, srcMac: bytes, tag: Option<u16>, n: Network, proto: byte, length: nat,
                   body: bytes, looksHttp: bool)
    requires |dstMac| == |srcMac| == 6 && NetworkOk(n, length)
    ensures var link := LinkHeader(dstMac, srcMac, tag, EtherTypeOf(n));
            var net := EncodeNetwork(n, proto, length);
            var data := link + net + body;
            var (l4, name) := TransportAt(data, |link + net|, proto, NO_TRANSPORT);
            Dissected(data, looksHttp) == Some(Meta(
              Link(srcMac, dstMac, EtherTypeOf(n), if tag.Some? then Some(tag.value % 0x1000) else None),
              Net(Some(SourceIp(n)), Some(DestIp(n)), proto,
                  if n.Ip4? then n.ttl else n.hopLimit, TotalLength(n, length)),
              l4, AppName(proto, l4, name, looksHttp)))
  {
    var link := LinkHeader(dstMac, srcMac, tag, EtherTypeOf(n));
    var net := EncodeNetwork(n, proto, length);
    HeadersRead(dstMac, srcMac, tag, n, proto, length, body);
    DissectedLayers(
      link + net + body, looksHttp,
      Link(srcMac, dstMac, EtherTypeOf(n), if tag.Some? then Some(tag.value % 0x1000) else None), |link|,
      Net(Some(SourceIp(n)), Some(DestIp(n)), proto, if n.Ip4? then n.ttl else n.hopLimit, TotalLength(n, length)),
      |link + net|);
  }

  /** Dissection undoes encapsulation, for every frame and trailing bytes. */
  lemma DissectUndoesEncapsulation(f: Frame, pad: bytes, looksHttp: bool)
    requires FrameOk(f)
    ensures var data := EncodeFrame(f) + pad;
            var r := Dissected(data, looksHttp);
            && r.Some?
            && r.value.link == Link(f.srcMac, f.dstMac, EtherTypeOf(f.net),
                                    if f.tag.Some? then Some(f.tag.value % 0x1000) else None)
            && r.value.net == Net(Some(SourceIp(f.net)), Some(DestIp(f.net)), Protocol(f.net, f.segment),
                                  if f.net.Ip4? then f.net.ttl else f.net.hopLimit,
                                  TotalLength(f.net, SegmentLength(f.segment)))
            && Carries(r.value.l4, f.segment)
            && r.value.l4.payloadOffset + r.value.l4.payloadLen <= |data|
            && PayloadOf(data, r.value.l4) == ExpectedPayload(f.segment, pad)
  {
    var proto, length := Protocol(f.net, f.segment), SegmentLength(f.segment);
    var front := EncodeLink(f) + EncodeNetwork(f.net, proto, length);
    var seg := EncodeSegment(f.segment);
    assert EncodeFrame(f) + pad == front + (seg + pad) == front + seg + pad;
    PacketRead(f.dstMac, f.srcMac, f.tag, f.net, proto, length, seg + pad, looksHttp);
    SegmentRead(front + seg + pad, front, f.net, f.segment, pad);
  }
}
