/** The capacity-bounded flow table of src/flow/tracker.rs.

    A clock reading is a `nat`.  A call that inserts a flow reads the clock
    twice: `now` at the start of the call and `born` inside the new record. */
module FlowTracker {
  import opened Wire
  import opened FlowKeys

  const MAX_DNS_QUERIES := 16

  datatype Config = Config(maxFlows: nat, idleTimeout: nat, maxSamples: nat)

  datatype Packet = Packet(tuple: FlowKey, len: u16, flags: Flags, query: Option<string>)

  datatype FlowRecord = FlowRecord(
    key: FlowKey,
    firstSeen: nat,
    lastSeen: nat,
    fwdPackets: nat,
    revPackets: nat,
    fwdBytes: nat,
    revBytes: nat,
    interArrivalTimes: seq<nat>,
    packetSizes: seq<u16>,
    tcpFlagsUnion: Flags,
    dnsQueries: seq<string>)

  datatype CloseReason = IdleTimeout | CapacityEviction

  datatype FlowClosedEvent = FlowClosedEvent(record: FlowRecord, reason: CloseReason)

  type Flows = map<FlowKey, FlowRecord>

  /** What the outside world does to a tracker. */
  datatype Event =
    | Arrival(packet: Packet, now: nat, born: nat)
    | Sweep(now: nat)

  function KeyOf(p: Packet): FlowKey {
    Normalized(p.tuple)
  }

  function NewRecord(key: FlowKey, born: nat): FlowRecord {
    FlowRecord(key, born, born, 0, 0, 0, 0, [], [], {}, [])
  }

  /** `Instant::duration_since`: zero when the clock appears to run backwards. */
  function DurationSince(later: nat, earlier: nat): nat {
    if later >= earlier then later - earlier else 0
  }

  predicate Idle(cfg: Config, r: FlowRecord, now: nat) {
    DurationSince(now, r.lastSeen) > cfg.idleTimeout
  }

  /** A record after one more packet. */
  function Absorb(cfg: Config, r: FlowRecord, p: Packet, now: nat): FlowRecord {
    var forward := IsForward(p.tuple);
    FlowRecord(
      r.key, r.firstSeen, now,
      if forward then r.fwdPackets + 1 else r.fwdPackets,
      if forward then r.revPackets else r.revPackets + 1,
      if forward then r.fwdBytes + p.len else r.fwdBytes,
      if forward then r.revBytes else r.revBytes + p.len,
      if r.fwdPackets + r.revPackets > 0
      then Capped(r.interArrivalTimes, DurationSince(now, r.lastSeen), cfg.maxSamples)
      else r.interArrivalTimes,
      Capped(r.packetSizes, p.len, cfg.maxSamples),
      r.tcpFlagsUnion + p.flags,
      if p.query.Some? then Capped(r.dnsQueries, p.query.value, MAX_DNS_QUERIES) else r.dnsQueries)
  }

  /** Append unless the sample list is full. */
  function Capped<T>(s: seq<T>, x: T, cap: nat): seq<T> {
    if |s| < cap then s + [x] else s
  }

  /** The table after a packet of key `k`, once room has been made for it. */
  function Insert(cfg: Config, s: Flows, p: Packet, now: nat, born: nat): Flows {
    var k := KeyOf(p);
    s[k := Absorb(cfg, if k in s then s[k] else NewRecord(k, born), p, now)]
  }

  predicate IsOldest(s: Flows, k: FlowKey) {
    k in s && forall j :: j in s ==> s[k].lastSeen <= s[j].lastSeen
  }

  predicate Distinct<T(==)>(s: seq<T>) {
    forall i, j :: 0 <= i < j < |s| ==> s[i] != s[j]
  }

  /** One call.  Which of several equally old flows is the victim, and in which
      order a sweep reports, is left open: the hash map decides both. */
  ghost predicate Step(cfg: Config, s: Flows, e: Event, s': Flows, closed: seq<FlowClosedEvent>) {
    match e
    case Arrival(p, now, born) =>
      if KeyOf(p) in s || |s| < cfg.maxFlows || s == map[] then
        closed == [] && s' == Insert(cfg, s, p, now, born)
      else
        && |closed| == 1
        && var victim := closed[0].record.key;
        && IsOldest(s, victim)
        && closed[0] == FlowClosedEvent(s[victim], CapacityEviction)
        && s' == Insert(cfg, s - {victim}, p, now, born)
    case Sweep(now) =>
      && s' == (map k | k in s && !Idle(cfg, s[k], now) :: s[k])
      && Distinct(closed)
      && forall ev :: ev in closed <==>
           && ev.reason == IdleTimeout
           && ev.record.key in s
           && s[ev.record.key] == ev.record
           && Idle(cfg, ev.record, now)
  }

  /** Every record is filed under its own key. */
  predicate Keyed(s: Flows) {
    forall k :: k in s ==> s[k].key == k
  }

  lemma StepKeepsKeyed(cfg: Config, s: Flows, e: Event, s': Flows, closed: seq<FlowClosedEvent>)
    requires Keyed(s) && Step(cfg, s, e, s', closed)
    ensures Keyed(s')
  {
  }

  class FlowTracker {
    var flows: Flows
    const config: Config

    constructor (config: Config)
      ensures this.config == config && flows == map[]
    {
      this.config := config;
      flows := map[];
    }

    /** Update or create the flow of a packet and return the flows evicted. */
    method Update(p: Packet, now: nat, born: nat) returns (evicted: seq<FlowClosedEvent>)
      requires Keyed(flows)
      modifies this
      ensures Keyed(flows)
      ensures Step(config, old(flows), Arrival(p, now, born), flows, evicted)
    {
      evicted := [];
      var key := Normalized(p.tuple);

      if key !in flows && |flows| >= config.maxFlows {
        var oldest := FindOldestFlow();
        if oldest.Some? {
          evicted := evicted + [FlowClosedEvent(flows[oldest.value], CapacityEviction)];
          flows := flows - {oldest.value};
        }
      }
      var record := if key in flows then flows[key] else NewRecord(key, born);
      record := RecordPacket(record, p, now);
      flows := flows[key := record];
    }

    /** Lines 180-208 of the source: account for one packet in a record. */
    method RecordPacket(before: FlowRecord, p: Packet, now: nat) returns (record: FlowRecord)
      ensures record == Absorb(config, before, p, now)
    {
      var isForward := IsForward(p.tuple);
      var gaps := before.interArrivalTimes;
      var sizes := before.packetSizes;
      var queries := before.dnsQueries;

      if before.fwdPackets + before.revPackets > 0 {
        var iat := DurationSince(now, before.lastSeen);
        if |gaps| < config.maxSamples {
          gaps := gaps + [iat];
        }
      }

      record := before.(lastSeen := now);

      if isForward {
        record := record.(fwdPackets := before.fwdPackets + 1, fwdBytes := before.fwdBytes + p.len);
      } else {
        record := record.(revPackets := before.revPackets + 1, revBytes := before.revBytes + p.len);
      }

      if |sizes| < config.maxSamples {
        sizes := sizes + [p.len];
      }

      if p.query.Some? {
        if |queries| < MAX_DNS_QUERIES {
          queries := queries + [p.query.value];
        }
      }

      record := record.(
        interArrivalTimes := gaps,
        packetSizes := sizes,
        tcpFlagsUnion := before.tcpFlagsUnion + p.flags,
        dnsQueries := queries);
    }

    /** Drop every flow idle for longer than the timeout and return them. */
    method EvictIdle(now: nat) returns (evicted: seq<FlowClosedEvent>)
      requires Keyed(flows)
      modifies this
      ensures Keyed(flows)
      ensures Step(config, old(flows), Sweep(now), flows, evicted)
    {
      evicted := [];
      var todo := flows.Keys;
      while todo != {}
        invariant todo <= old(flows).Keys
        invariant flows == map k | k in old(flows) && (k in todo || !Idle(config, old(flows)[k], now)) :: old(flows)[k]
        invariant Distinct(evicted)
        invariant forall ev :: ev in evicted <==>
                    && ev.reason == IdleTimeout
                    && ev.record.key in old(flows)
                    && ev.record.key !in todo
                    && old(flows)[ev.record.key] == ev.record
                    && Idle(config, ev.record, now)
        decreases todo
      {
        var k :| k in todo;
        var record := flows[k];
        if DurationSince(now, record.lastSeen) > config.idleTimeout {
          assert FlowClosedEvent(record, IdleTimeout) !in evicted;
          evicted := evicted + [FlowClosedEvent(record, IdleTimeout)];
          flows := flows - {k};
        }
        todo := todo - {k};
      }
    }

    /** A least recently seen flow; ties are settled by iteration order. */
    method FindOldestFlow() returns (oldest: Option<FlowKey>)
      ensures oldest.None? <==> flows == map[]
      ensures oldest.Some? ==> IsOldest(flows, oldest.value)
    {
      oldest := None;
      var todo := flows.Keys;
      while todo != {}
        invariant todo <= flows.Keys
        invariant oldest.None? <==> todo == flows.Keys
        invariant oldest.Some? ==> oldest.value in flows && oldest.value !in todo
        invariant oldest.Some? ==>
                    forall j :: j in flows && j !in todo ==> flows[oldest.value].lastSeen <= flows[j].lastSeen
        decreases todo
      {
        var k :| k in todo;
        if oldest.None? || flows[k].lastSeen < flows[oldest.value].lastSeen {
          oldest := Some(k);
        }
        todo := todo - {k};
      }
    }

    /** Current number of active flows. */
    function ActiveCount(): nat
      reads this
    {
      |flows|
    }

    /** The record of a key, if it is active. */
    function Get(k: FlowKey): Option<FlowRecord>
      reads this
    {
      if k in flows then Some(flows[k]) else None
    }
  }
}
