/** What the capture loop of src/main.rs does with one dissected frame. */
module Pipeline {
  import opened Wire
  import opened FlowKeys
  import opened FlowTracker
  import opened FlowRecords
  import opened Frames
  import Dissect
  import Encapsulation
  import IpsRules
  import Ips

  /** The packet handed to the flow tracker; its length is cast to 16 bits. */
  function PacketOf(m: Dissect.Meta): Packet
    requires m.net.srcIp.Some? && m.net.dstIp.Some?
  {
    Packet(FlowKey(m.net.srcIp.value, m.net.dstIp.value, m.l4.srcPort, m.l4.dstPort, m.net.proto),
           m.l4.payloadLen % 0x1_0000, BitsOf(m.l4.tcpFlags), None)
  }

  /** What the rule engine is asked about. */
  function ProbeOf(m: Dissect.Meta): IpsRules.Probe {
    IpsRules.Probe(m.net.srcIp, m.net.dstIp, m.l4.srcPort, m.l4.dstPort, m.net.proto, BitsOf(m.l4.tcpFlags), None, None)
  }

  /** The frame of the opposite direction: addresses and ports exchanged. */
  function MirrorFrame(f: Frame): (g: Frame)
    ensures FrameOk(f) ==> FrameOk(g)
  {
    f.(dstMac := f.srcMac, srcMac := f.dstMac,
       net := if f.net.Ip4? then f.net.(src4 := f.net.dst4, dst4 := f.net.src4)
              else f.net.(src6 := f.net.dst6, dst6 := f.net.src6),
       segment := if f.segment.Icmp? then f.segment
                  else f.segment.(srcPort := f.segment.dstPort, dstPort := f.segment.srcPort))
  }

  function TupleOf(f: Frame): FlowKey {
    FlowKey(SourceIp(f.net), DestIp(f.net), SourcePort(f.segment), DestPort(f.segment), Protocol(f.net, f.segment))
  }

  lemma MirrorTuple(f: Frame)
    ensures TupleOf(MirrorFrame(f)) == Mirror(TupleOf(f))
  {
  }

  function FlagsOf(s: Segment): Flags {
    if s.Tcp? then BitsOf(s.flags) else {}
  }

  lemma NoBits()
    ensures BitsOf(0) == {}
  {
    forall i: Bit ensures !BitAt(0, i) {
      ZeroBits(i);
    }
  }

  /** What an encoded frame becomes for the tracker: its 5-tuple, its payload
      length modulo 65536 and its TCP flags; and for the rule engine. */
  lemma FramePacket(f: Frame, pad: bytes, looksHttp: bool)
    requires FrameOk(f)
    ensures var r := Dissect.Dissected(EncodeFrame(f) + pad, looksHttp);
            && r.Some? && r.value.net.srcIp.Some? && r.value.net.dstIp.Some?
            && PacketOf(r.value) ==
               Packet(TupleOf(f), |Encapsulation.ExpectedPayload(f.segment, pad)| % 0x1_0000, FlagsOf(f.segment), None)
            && ProbeOf(r.value) ==
               IpsRules.Probe(Some(SourceIp(f.net)), Some(DestIp(f.net)), SourcePort(f.segment), DestPort(f.segment),
                              Protocol(f.net, f.segment), FlagsOf(f.segment), None, None)
  {
    Encapsulation.DissectUndoesEncapsulation(f, pad, looksHttp);
    NoBits();
    var data := EncodeFrame(f) + pad;
    var l4 := Dissect.Dissected(data, looksHttp).value.l4;
    assert |Encapsulation.PayloadOf(data, l4)| == l4.payloadLen;
  }

  /** A frame and its mirror image between two different addresses are filed
      under one key, in opposite directions. */
  lemma MirroredFramesMeet(f: Frame, pad: bytes, pad': bytes, looksHttp: bool, looksHttp': bool)
    requires FrameOk(f) && SourceIp(f.net) != DestIp(f.net)
    ensures var r := Dissect.Dissected(EncodeFrame(f) + pad, looksHttp);
            var q := Dissect.Dissected(EncodeFrame(MirrorFrame(f)) + pad', looksHttp');
            && r.Some? && r.value.net.srcIp.Some? && r.value.net.dstIp.Some?
            && q.Some? && q.value.net.srcIp.Some? && q.value.net.dstIp.Some?
            && KeyOf(PacketOf(r.value)) == KeyOf(PacketOf(q.value))
            && IsForward(PacketOf(r.value).tuple) != IsForward(PacketOf(q.value).tuple)
  {
    MirrorTuple(f);
    FramePacket(f, pad, looksHttp);
    FramePacket(MirrorFrame(f), pad', looksHttp');
    SameKeyIff(TupleOf(f), TupleOf(MirrorFrame(f)));
    MirrorFlipsDirection(TupleOf(f));
  }

  /** Fed to any tracker one after the other, the two frames land in one record
      and add one packet to each of its directions. */
  lemma BothDirectionsCounted(cfg: Config, s: Flows, p: Packet, q: Packet, now: nat, born: nat, now': nat, born': nat,
                              s1: Flows, closed1: seq<FlowClosedEvent>, s2: Flows, closed2: seq<FlowClosedEvent>)
    requires KeyOf(p) == KeyOf(q) && IsForward(p.tuple) != IsForward(q.tuple)
    requires Step(cfg, s, Arrival(p, now, born), s1, closed1)
    requires Step(cfg, s1, Arrival(q, now', born'), s2, closed2)
    ensures closed2 == [] && KeyOf(p) in s2
    ensures var k := KeyOf(p);
            && s2[k].fwdPackets == (if k in s then s[k].fwdPackets else 0) + 1
            && s2[k].revPackets == (if k in s then s[k].revPackets else 0) + 1
            && s2[k].fwdBytes + s2[k].revBytes ==
                 (if k in s then s[k].fwdBytes + s[k].revBytes else 0) + p.len + q.len
            && s2[k].tcpFlagsUnion == (if k in s then s[k].tcpFlagsUnion else {}) + p.flags + q.flags
  {
    ArrivalRecords(cfg, s, Arrival(p, now, born), s1, closed1);
    ArrivalRecords(cfg, s1, Arrival(q, now', born'), s2, closed2);
  }

  /** Flag bytes add up in a record like bytes under bitwise or. */
  lemma FlagBytesAccumulate(cfg: Config, r: FlowRecord, p: Packet, now: nat, seen: byte, flags: byte)
    requires r.tcpFlagsUnion == BitsOf(seen) && p.flags == BitsOf(flags)
    ensures Or(seen, flags) < 0x100
    ensures Absorb(cfg, r, p, now).tcpFlagsUnion == BitsOf(Or(seen, flags))
  {
    BitsOfOr(seen, flags);
  }

  const FIN: Bit := 0
  const PSH: Bit := 3
  const URG: Bit := 5

  lemma XmasProbeDropped(p: IpsRules.Probe)
    requires {FIN, PSH, URG} <= p.flags
    ensures IpsRules.Decide(IpsRules.Inline, IpsRules.Pass, Ips.DefaultRules(), p).0 == IpsRules.Drop
  {
    Ips.BuiltInVerdicts(IpsRules.Inline, IpsRules.Pass, p);
  }

  /** With the built-in rules inline, every TCP frame carrying at least FIN, PSH
      and URG is dropped, whatever else it carries. */
  lemma XmasFrameDropped(f: Frame, pad: bytes, looksHttp: bool)
    requires FrameOk(f) && f.segment.Tcp? && {FIN, PSH, URG} <= BitsOf(f.segment.flags)
    ensures var r := Dissect.Dissected(EncodeFrame(f) + pad, looksHttp);
            && r.Some?
            && IpsRules.Decide(IpsRules.Inline, IpsRules.Pass, Ips.DefaultRules(), ProbeOf(r.value)).0 == IpsRules.Drop
  {
    Encapsulation.DissectUndoesEncapsulation(f, pad, looksHttp);
    XmasProbeDropped(ProbeOf(Dissect.Dissected(EncodeFrame(f) + pad, looksHttp).value));
  }
}
