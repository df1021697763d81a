/** What a record means: it is the summary of its key's packets since the key
    was last inserted. */
module FlowRecords {
  import opened Wire
  import opened FlowKeys
  import opened FlowTracker
  import opened FlowRuns

  datatype Hit = Hit(packet: Packet, now: nat, born: nat)

  /** The packets of `k` since `k` was last inserted into the table. */
  function Session(r: Run, k: FlowKey): seq<Hit> {
    if r.Boot? then []
    else if r.event.Arrival? && KeyOf(r.event.packet) == k then
      (if k in Table(r.prev) then Session(r.prev, k) else []) + [Hit(r.event.packet, r.event.now, r.event.born)]
    else Session(r.prev, k)
  }

  function Last<T>(s: seq<T>): T
    requires s != []
  {
    s[|s| - 1]
  }

  function Front<T>(s: seq<T>): seq<T>
    requires s != []
  {
    s[..|s| - 1]
  }

  /** Packets of one direction, forward being from the lower address. */
  function Packets(hits: seq<Hit>, forward: bool): nat {
    if hits == [] then 0
    else Packets(Front(hits), forward) + (if FromLower(Last(hits).packet.tuple) == forward then 1 else 0)
  }

  /** Bytes of one direction. */
  function Bytes(hits: seq<Hit>, forward: bool): nat {
    if hits == [] then 0
    else
      Bytes(Front(hits), forward)
      + (if FromLower(Last(hits).packet.tuple) == forward then Last(hits).packet.len else 0)
  }

  function FlagUnion(hits: seq<Hit>): Flags {
    set i, b | 0 <= i < |hits| && b in hits[i].packet.flags :: b
  }

  function Gaps(hits: seq<Hit>): seq<nat>
    requires hits != []
  {
    seq(|hits| - 1, i requires 0 <= i < |hits| - 1 => DurationSince(hits[i + 1].now, hits[i].now))
  }

  function Sizes(hits: seq<Hit>): seq<u16> {
    seq(|hits|, i requires 0 <= i < |hits| => hits[i].packet.len)
  }

  function Queries(hits: seq<Hit>): seq<string> {
    if hits == [] then []
    else Queries(Front(hits)) + (if Last(hits).packet.query.Some? then [Last(hits).packet.query.value] else [])
  }

  /** The record a key ought to have after these packets. */
  function Summary(cfg: Config, k: FlowKey, hits: seq<Hit>): FlowRecord
    requires hits != []
  {
    FlowRecord(
      k, hits[0].born, Last(hits).now,
      Packets(hits, true), Packets(hits, false),
      Bytes(hits, true), Bytes(hits, false),
      Take(Gaps(hits), cfg.maxSamples),
      Take(Sizes(hits), cfg.maxSamples),
      FlagUnion(hits),
      Take(Queries(hits), 16))
  }

  lemma TakeAppend<T>(s: seq<T>, x: T, cap: nat)
    ensures Take(s + [x], cap) == Capped(Take(s, cap), x, cap)
  {
  }

  lemma SamplesAppend(hits: seq<Hit>, h: Hit)
    ensures Sizes(hits + [h]) == Sizes(hits) + [h.packet.len]
    ensures hits != [] ==> Gaps(hits + [h]) == Gaps(hits) + [DurationSince(h.now, Last(hits).now)]
    ensures FlagUnion(hits + [h]) == FlagUnion(hits) + h.packet.flags
  {
    assert forall i :: 0 <= i < |hits| ==> (hits + [h])[i] == hits[i];
    forall b | b in FlagUnion(hits) + h.packet.flags ensures b in FlagUnion(hits + [h]) {
      if b in h.packet.flags {
        assert (hits + [h])[|hits|] == h;
      }
    }
  }

  lemma CountsAppend(hits: seq<Hit>, h: Hit, forward: bool)
    ensures Packets(hits + [h], forward)
         == Packets(hits, forward) + (if FromLower(h.packet.tuple) == forward then 1 else 0)
    ensures Bytes(hits + [h], forward)
         == Bytes(hits, forward) + (if FromLower(h.packet.tuple) == forward then h.packet.len else 0)
    ensures Queries(hits + [h]) == Queries(hits) + (if h.packet.query.Some? then [h.packet.query.value] else [])
  {
    assert Front(hits + [h]) == hits;
  }

  lemma {:induction false} PacketsTotal(hits: seq<Hit>)
    ensures Packets(hits, true) + Packets(hits, false) == |hits|
  {
    if hits != [] {
      PacketsTotal(Front(hits));
    }
  }

  /** One more packet of a session is one `Absorb` of its record. */
  lemma SummaryAppend(cfg: Config, k: FlowKey, hits: seq<Hit>, h: Hit)
    requires hits != []
    ensures Summary(cfg, k, hits + [h]) == Absorb(cfg, Summary(cfg, k, hits), h.packet, h.now)
  {
    ForwardIff(h.packet.tuple);
    SamplesAppend(hits, h);
    CountsAppend(hits, h, true);
    CountsAppend(hits, h, false);
    PacketsTotal(hits);
    TakeAppend(Gaps(hits), DurationSince(h.now, Last(hits).now), cfg.maxSamples);
    TakeAppend(Sizes(hits), h.packet.len, cfg.maxSamples);
    if h.packet.query.Some? {
      TakeAppend(Queries(hits), h.packet.query.value, MAX_DNS_QUERIES);
    }
  }

  /** The first packet of a session makes a fresh record. */
  lemma SummaryStart(cfg: Config, k: FlowKey, h: Hit)
    ensures Summary(cfg, k, [h]) == Absorb(cfg, NewRecord(k, h.born), h.packet, h.now)
  {
    ForwardIff(h.packet.tuple);
    SamplesAppend([], h);
    CountsAppend([], h, true);
    CountsAppend([], h, false);
    assert [] + [h] == [h];
  }

  /** An arrival rewrites the record of its own key only. */
  lemma ArrivalRecords(cfg: Config, s: Flows, e: Event, s': Flows, closed: seq<FlowClosedEvent>)
    requires e.Arrival? && Step(cfg, s, e, s', closed)
    ensures var a := KeyOf(e.packet);
            a in s' && s'[a] == Absorb(cfg, if a in s then s[a] else NewRecord(a, e.born), e.packet, e.now)
    ensures forall k :: k in s' && k != KeyOf(e.packet) ==> k in s && s'[k] == s[k]
  {
  }

  lemma SweepRecords(cfg: Config, s: Flows, e: Event, s': Flows, closed: seq<FlowClosedEvent>)
    requires e.Sweep? && Step(cfg, s, e, s', closed)
    ensures forall k :: k in s' ==> k in s && s'[k] == s[k]
  {
  }

  /** Record refinement: on every run, whatever the clock does, the record of an
      active key is the summary of its session. */
  lemma {:induction false} RecordIsSummary(cfg: Config, r: Run, k: FlowKey)
    requires IsRun(cfg, r) && k in Table(r)
    ensures Session(r, k) != []
    ensures Table(r)[k] == Summary(cfg, k, Session(r, k))
  {
    var s := Table(r.prev);
    if r.event.Arrival? {
      ArrivalRecords(cfg, s, r.event, r.flows, r.closed);
      if KeyOf(r.event.packet) == k {
        var h := Hit(r.event.packet, r.event.now, r.event.born);
        if k in s {
          RecordIsSummary(cfg, r.prev, k);
          SummaryAppend(cfg, k, Session(r.prev, k), h);
        } else {
          SummaryStart(cfg, k, h);
        }
      } else {
        RecordIsSummary(cfg, r.prev, k);
      }
    } else {
      SweepRecords(cfg, s, r.event, r.flows, r.closed);
      RecordIsSummary(cfg, r.prev, k);
    }
  }

  /** Packets and bytes sent by one address. */
  function SentBy(hits: seq<Hit>, ip: IpAddr): nat {
    if hits == [] then 0
    else SentBy(Front(hits), ip) + (if Last(hits).packet.tuple.srcIp == ip then 1 else 0)
  }

  function BytesSentBy(hits: seq<Hit>, ip: IpAddr): nat {
    if hits == [] then 0
    else
      BytesSentBy(Front(hits), ip)
      + (if Last(hits).packet.tuple.srcIp == ip then Last(hits).packet.len else 0)
  }

  lemma {:induction false} SessionOfKey(r: Run, k: FlowKey)
    ensures forall h :: h in Session(r, k) ==> KeyOf(h.packet) == k
  {
    if r.Then? {
      SessionOfKey(r.prev, k);
    }
  }

  lemma {:induction false} SentByDirection(hits: seq<Hit>, k: FlowKey)
    requires forall h :: h in hits ==> KeyOf(h.packet) == k
    ensures Packets(hits, true) == SentBy(hits, k.srcIp) && Bytes(hits, true) == BytesSentBy(hits, k.srcIp)
    ensures k.srcIp != k.dstIp ==>
              Packets(hits, false) == SentBy(hits, k.dstIp) && Bytes(hits, false) == BytesSentBy(hits, k.dstIp)
    ensures k.srcIp == k.dstIp ==> Packets(hits, false) == Bytes(hits, false) == 0
  {
    if hits != [] {
      assert Last(hits) in hits;
      var t := Last(hits).packet.tuple;
      KeyExact(t, k);
      IpByRank(t.srcIp, t.dstIp);
      IpByRank(k.srcIp, k.dstIp);
      SentByDirection(Front(hits), k);
    }
  }

  /** Direction by address: an active key names its numerically lower address
      first, its forward counters are what that address sent in the session, and
      its reverse counters what the other one sent; a conversation of an address
      with itself has no reverse packets. */
  lemma DirectionsByAddress(cfg: Config, r: Run, k: FlowKey)
    requires IsRun(cfg, r) && k in Table(r)
    ensures Rank(k.srcIp) <= Rank(k.dstIp)
    ensures var hits, rec := Session(r, k), Table(r)[k];
            && rec.fwdPackets == SentBy(hits, k.srcIp) && rec.fwdBytes == BytesSentBy(hits, k.srcIp)
            && (if k.srcIp != k.dstIp
                then rec.revPackets == SentBy(hits, k.dstIp) && rec.revBytes == BytesSentBy(hits, k.dstIp)
                else rec.revPackets == rec.revBytes == 0)
  {
    RecordIsSummary(cfg, r, k);
    SessionOfKey(r, k);
    SentByDirection(Session(r, k), k);
    assert Session(r, k)[0] in Session(r, k);
    KeyExact(Session(r, k)[0].packet.tuple, k);
  }

  function Sum(s: seq<nat>): nat {
    if s == [] then 0 else Sum(Front(s)) + Last(s)
  }

  predicate Increasing(hits: seq<Hit>) {
    forall i, j :: 0 <= i < j < |hits| ==> hits[i].now < hits[j].now
  }

  lemma {:induction false} SessionIncreasing(cfg: Config, r: Run, k: FlowKey)
    requires Lru.Ordered(TraceOf(r))
    ensures Increasing(Session(r, k))
    ensures forall h :: h in Session(r, k) ==> h.now <= Lru.Newest(TraceOf(r))
  {
    if r.Then? {
      SessionIncreasing(cfg, r.prev, k);
    }
  }

  /** Gaps telescope over any prefix of a session. */
  lemma {:induction false} GapsTelescope(hits: seq<Hit>, n: nat)
    requires Increasing(hits) && n < |hits|
    ensures Sum(Gaps(hits)[..n]) == hits[n].now - hits[0].now
  {
    if n > 0 {
      GapsTelescope(hits, n - 1);
      assert Front(Gaps(hits)[..n]) == Gaps(hits)[..n - 1];
      assert Last(Gaps(hits)[..n]) == Gaps(hits)[n - 1] == hits[n].now - hits[n - 1].now;
    }
  }

  /** The recorded gaps add up to the time between the first and the last packet
      of the session exactly while no gap has been discarded, which the packet
      counters tell. */
  lemma GapsSpanSession(cfg: Config, r: Run, k: FlowKey)
    requires IsRun(cfg, r) && Lru.Ordered(TraceOf(r)) && k in Table(r)
    ensures Session(r, k) != []
    ensures var rec := Table(r)[k];
            Sum(rec.interArrivalTimes) == rec.lastSeen - Session(r, k)[0].now
            <==> rec.fwdPackets + rec.revPackets <= cfg.maxSamples + 1
  {
    var hits := Session(r, k);
    RecordIsSummary(cfg, r, k);
    SessionIncreasing(cfg, r, k);
    PacketsTotal(hits);
    var n := Min(|hits| - 1, cfg.maxSamples);
    GapsTelescope(hits, n);
    assert Take(Gaps(hits), cfg.maxSamples) == Gaps(hits)[..n];
  }
}
