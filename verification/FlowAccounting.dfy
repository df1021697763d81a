/** Whole-run accounting: nothing a tracker counted is lost or reported twice,
    and a larger table only ever knows more. */
module FlowAccounting {
  import opened FlowKeys
  import opened FlowTracker
  import opened FlowRuns
  import opened FlowRecords
  import opened MapSums
  import FlowLru

  /** The four counters of a record. */
  datatype Counter = FwdPackets | RevPackets | FwdBytes | RevBytes

  function Read(c: Counter, r: FlowRecord): nat {
    match c
    case FwdPackets => r.fwdPackets
    case RevPackets => r.revPackets
    case FwdBytes => r.fwdBytes
    case RevBytes => r.revBytes
  }

  /** What one packet adds to a counter. */
  function Gain(c: Counter, p: Packet): nat {
    var forward := FromLower(p.tuple);
    match c
    case FwdPackets => if forward then 1 else 0
    case RevPackets => if forward then 0 else 1
    case FwdBytes => if forward then p.len else 0
    case RevBytes => if forward then 0 else p.len
  }

  lemma AbsorbGains(c: Counter, cfg: Config, r: FlowRecord, p: Packet, now: nat)
    ensures Read(c, Absorb(cfg, r, p, now)) == Read(c, r) + Gain(c, p)
  {
    ForwardIff(p.tuple);
  }

  /** The counter of an active key, zero when it is not active. */
  function Active(c: Counter, s: Flows, k: FlowKey): nat {
    if k in s then Read(c, s[k]) else 0
  }

  /** What a list of events reports for key `k`. */
  function Reported(c: Counter, closed: seq<FlowClosedEvent>, k: FlowKey): nat {
    if closed == [] then 0
    else Reported(c, closed[1..], k) + (if closed[0].record.key == k then Read(c, closed[0].record) else 0)
  }

  /** How often a list of events reports key `k`. */
  function Reports(closed: seq<FlowClosedEvent>, k: FlowKey): nat {
    if closed == [] then 0
    else Reports(closed[1..], k) + (if closed[0].record.key == k then 1 else 0)
  }

  /** Over a whole run: everything reported so far for `k`. */
  function ReportedSoFar(c: Counter, r: Run, k: FlowKey): nat {
    if r.Boot? then 0 else ReportedSoFar(c, r.prev, k) + Reported(c, r.closed, k)
  }

  /** Over a whole run: everything the packets of `k` brought in. */
  function ArrivedSoFar(c: Counter, r: Run, k: FlowKey): nat {
    if r.Boot? then 0
    else ArrivedSoFar(c, r.prev, k) +
         (if r.event.Arrival? && KeyOf(r.event.packet) == k then Gain(c, r.event.packet) else 0)
  }

  lemma {:induction false} ReportsNone(c: Counter, closed: seq<FlowClosedEvent>, k: FlowKey)
    requires forall ev :: ev in closed ==> ev.record.key != k
    ensures Reported(c, closed, k) == 0 && Reports(closed, k) == 0
  {
    if closed != [] {
      assert closed[0] in closed;
      ReportsNone(c, closed[1..], k);
    }
  }

  lemma {:induction false} ReportsOne(c: Counter, closed: seq<FlowClosedEvent>, ev: FlowClosedEvent)
    requires Distinct(closed) && ev in closed
    requires forall x :: x in closed && x.record.key == ev.record.key ==> x == ev
    ensures Reported(c, closed, ev.record.key) == Read(c, ev.record) && Reports(closed, ev.record.key) == 1
  {
    if closed[0] == ev {
      forall x | x in closed[1..] ensures x.record.key != ev.record.key {
        var i :| 0 <= i < |closed[1..]| && closed[1..][i] == x;
        assert closed[i + 1] == x && x in closed;
      }
      ReportsNone(c, closed[1..], ev.record.key);
    } else {
      assert closed[0] in closed;
      ReportsOne(c, closed[1..], ev);
    }
  }

  /** A sweep reports each idle flow once, with its record, and no other flow. */
  lemma SweepReports(c: Counter, cfg: Config, s: Flows, e: Event, s': Flows, closed: seq<FlowClosedEvent>, k: FlowKey)
    requires Keyed(s) && e.Sweep? && Step(cfg, s, e, s', closed)
    ensures Reported(c, closed, k) + Active(c, s', k) == Active(c, s, k)
    ensures Reports(closed, k) == if k in s && k !in s' then 1 else 0
  {
    assert k in s' <==> k in s && !Idle(cfg, s[k], e.now);
    if k in s && k !in s' {
      var ev := FlowClosedEvent(s[k], IdleTimeout);
      assert ev in closed;
      ReportsOne(c, closed, ev);
    } else {
      ReportsNone(c, closed, k);
    }
  }

  /** An arrival reports the victim once, with its record, and no other flow. */
  lemma ArrivalReports(c: Counter, cfg: Config, s: Flows, e: Event, s': Flows, closed: seq<FlowClosedEvent>, k: FlowKey)
    requires Keyed(s) && e.Arrival? && Step(cfg, s, e, s', closed)
    ensures Reported(c, closed, k) + Active(c, s', k) ==
            Active(c, s, k) + (if KeyOf(e.packet) == k then Gain(c, e.packet) else 0)
    ensures Reports(closed, k) == if k in s && k !in s' then 1 else 0
  {
    var a := KeyOf(e.packet);
    ArrivalRecords(cfg, s, e, s', closed);
    AbsorbGains(c, cfg, if a in s then s[a] else NewRecord(a, e.born), e.packet, e.now);
    ArrivalKeys(cfg, s, e, s', closed);
    if closed != [] {
      assert closed[1..] == [];
    }
  }

  lemma ArrivalKeys(cfg: Config, s: Flows, e: Event, s': Flows, closed: seq<FlowClosedEvent>)
    requires e.Arrival? && Step(cfg, s, e, s', closed)
    ensures closed == [] ==> s'.Keys == s.Keys + {KeyOf(e.packet)}
    ensures closed != [] ==>
              && |closed| == 1
              && var v := closed[0].record.key;
              && v in s && closed[0].record == s[v] && KeyOf(e.packet) !in s
              && s'.Keys == s.Keys - {v} + {KeyOf(e.packet)}
  {
  }

  /** An event carries the record as it was and says why it was closed. */
  lemma EventsAreTrue(cfg: Config, s: Flows, e: Event, s': Flows, closed: seq<FlowClosedEvent>, ev: FlowClosedEvent)
    requires Step(cfg, s, e, s', closed) && ev in closed
    ensures ev.record.key in s && ev.record == s[ev.record.key]
    ensures ev.reason == if e.Sweep? then IdleTimeout else CapacityEviction
    ensures e.Sweep? ==> Idle(cfg, ev.record, e.now)
  {
  }

  /** Each flow that leaves the table is reported in that very step, once, with
      its last record and the reason, and nothing else is reported. */
  lemma EmittedExactlyOnce(cfg: Config, r: Run, k: FlowKey)
    requires r.Then? && IsRun(cfg, r)
    ensures Reports(r.closed, k) == if k in Table(r.prev) && k !in Table(r) then 1 else 0
    ensures forall ev :: ev in r.closed ==>
              && ev.record.key in Table(r.prev) && ev.record == Table(r.prev)[ev.record.key]
              && ev.reason == if r.event.Sweep? then IdleTimeout else CapacityEviction
  {
    RunKeyed(cfg, r.prev);
    forall ev | ev in r.closed
      ensures ev.record.key in Table(r.prev) && ev.record == Table(r.prev)[ev.record.key]
      ensures ev.reason == if r.event.Sweep? then IdleTimeout else CapacityEviction
    {
      EventsAreTrue(cfg, Table(r.prev), r.event, r.flows, r.closed, ev);
    }
    if r.event.Arrival? {
      ArrivalReports(FwdPackets, cfg, Table(r.prev), r.event, r.flows, r.closed, k);
    } else {
      SweepReports(FwdPackets, cfg, Table(r.prev), r.event, r.flows, r.closed, k);
    }
  }

  /** Conservation per key and per counter: what the packets of a key brought in
      is in its active record or in the events emitted for it. */
  lemma {:induction false} KeyConservation(c: Counter, cfg: Config, r: Run, k: FlowKey)
    requires IsRun(cfg, r)
    ensures Active(c, Table(r), k) + ReportedSoFar(c, r, k) == ArrivedSoFar(c, r, k)
  {
    if r.Then? {
      KeyConservation(c, cfg, r.prev, k);
      RunKeyed(cfg, r.prev);
      if r.event.Arrival? {
        ArrivalReports(c, cfg, Table(r.prev), r.event, r.flows, r.closed, k);
      } else {
        SweepReports(c, cfg, Table(r.prev), r.event, r.flows, r.closed, k);
      }
    }
  }

  function Reader(c: Counter): FlowRecord -> nat {
    r => Read(c, r)
  }

  function ReportedTotal(c: Counter, closed: seq<FlowClosedEvent>): nat {
    if closed == [] then 0 else ReportedTotal(c, closed[1..]) + Read(c, closed[0].record)
  }

  function AllReported(c: Counter, r: Run): nat {
    if r.Boot? then 0 else AllReported(c, r.prev) + ReportedTotal(c, r.closed)
  }

  function AllArrived(c: Counter, r: Run): nat {
    if r.Boot? then 0
    else AllArrived(c, r.prev) + (if r.event.Arrival? then Gain(c, r.event.packet) else 0)
  }

  function Updates(r: Run): nat {
    if r.Boot? then 0 else Updates(r.prev) + (if r.event.Arrival? then 1 else 0)
  }

  function BytesOffered(r: Run): nat {
    if r.Boot? then 0 else BytesOffered(r.prev) + (if r.event.Arrival? then r.event.packet.len else 0)
  }

  /** Taking the reported flows out of the table takes out what they weigh. */
  lemma {:induction false} RemoveReported(c: Counter, s: Flows, s': Flows, closed: seq<FlowClosedEvent>)
    requires Distinct(closed) && Keyed(s)
    requires forall ev :: ev in closed ==> ev.record.key in s && s[ev.record.key] == ev.record
    requires forall i, j :: 0 <= i < j < |closed| ==> closed[i].record.key != closed[j].record.key
    requires s' == s - set ev | ev in closed :: ev.record.key
    ensures Total(s, Reader(c)) == Total(s', Reader(c)) + ReportedTotal(c, closed)
  {
    var gone := set ev | ev in closed :: ev.record.key;
    if closed == [] {
      assert s' == s;
    } else {
      var k := closed[0].record.key;
      var rest := closed[1..];
      assert closed[0] in closed;
      TotalRemove(s, k, Reader(c));
      forall ev | ev in rest ensures ev in closed && ev.record.key != k {
        var i :| 0 <= i < |rest| && rest[i] == ev;
        assert closed[i + 1] == ev;
      }
      var goneRest := set ev | ev in rest :: ev.record.key;
      forall x ensures x in gone <==> x == k || x in goneRest {
        if x in gone && x != k {
          var ev :| ev in closed && ev.record.key == x;
          assert ev in rest;
        }
      }
      assert s' == (s - {k}) - goneRest;
      RemoveReported(c, s - {k}, s', rest);
    }
  }

  lemma SweepTotal(c: Counter, cfg: Config, s: Flows, e: Event, s': Flows, closed: seq<FlowClosedEvent>)
    requires Keyed(s) && e.Sweep? && Step(cfg, s, e, s', closed)
    ensures Total(s, Reader(c)) == Total(s', Reader(c)) + ReportedTotal(c, closed)
  {
    var gone := set ev | ev in closed :: ev.record.key;
    forall k ensures k in gone <==> k in s && Idle(cfg, s[k], e.now) {
      if k in s && Idle(cfg, s[k], e.now) {
        assert FlowClosedEvent(s[k], IdleTimeout) in closed;
      }
    }
    forall i, j | 0 <= i < j < |closed| ensures closed[i].record.key != closed[j].record.key {
      assert closed[i] in closed && closed[j] in closed;
    }
    assert s' == s - gone;
    RemoveReported(c, s, s', closed);
  }

  lemma ArrivalTotal(c: Counter, cfg: Config, s: Flows, e: Event, s': Flows, closed: seq<FlowClosedEvent>)
    requires e.Arrival? && Step(cfg, s, e, s', closed)
    ensures Total(s, Reader(c)) + Gain(c, e.packet) == Total(s', Reader(c)) + ReportedTotal(c, closed)
  {
    var a := KeyOf(e.packet);
    if closed == [] {
      InsertTotal(c, cfg, s, e.packet, e.now, e.born);
    } else {
      var v := closed[0].record.key;
      assert closed[1..] == [];
      TotalRemove(s, v, Reader(c));
      InsertTotal(c, cfg, s - {v}, e.packet, e.now, e.born);
    }
  }

  lemma InsertTotal(c: Counter, cfg: Config, s: Flows, p: Packet, now: nat, born: nat)
    ensures Total(Insert(cfg, s, p, now, born), Reader(c)) == Total(s, Reader(c)) + Gain(c, p)
  {
    var k := KeyOf(p);
    var before := if k in s then s[k] else NewRecord(k, born);
    AbsorbGains(c, cfg, before, p, now);
    TotalUpdate(s, k, Absorb(cfg, before, p, now), Reader(c));
    if k in s {
      TotalRemove(s, k, Reader(c));
    } else {
      assert s - {k} == s;
    }
  }

  /** Conservation of each counter over all keys. */
  lemma {:induction false} CounterConservation(c: Counter, cfg: Config, r: Run)
    requires IsRun(cfg, r)
    ensures Total(Table(r), Reader(c)) + AllReported(c, r) == AllArrived(c, r)
  {
    if r.Then? {
      CounterConservation(c, cfg, r.prev);
      RunKeyed(cfg, r.prev);
      if r.event.Arrival? {
        ArrivalTotal(c, cfg, Table(r.prev), r.event, r.flows, r.closed);
      } else {
        SweepTotal(c, cfg, Table(r.prev), r.event, r.flows, r.closed);
      }
    }
  }

  lemma {:induction false} ArrivedTotals(r: Run)
    ensures AllArrived(FwdPackets, r) + AllArrived(RevPackets, r) == Updates(r)
    ensures AllArrived(FwdBytes, r) + AllArrived(RevBytes, r) == BytesOffered(r)
  {
    if r.Then? {
      ArrivedTotals(r.prev);
    }
  }

  /** Conservation: packets in active flows plus packets in emitted events equal
      the number of `update` calls, and bytes equal the packet lengths offered. */
  lemma Conservation(cfg: Config, r: Run)
    requires IsRun(cfg, r)
    ensures Total(Table(r), Reader(FwdPackets)) + Total(Table(r), Reader(RevPackets))
            + AllReported(FwdPackets, r) + AllReported(RevPackets, r) == Updates(r)
    ensures Total(Table(r), Reader(FwdBytes)) + Total(Table(r), Reader(RevBytes))
            + AllReported(FwdBytes, r) + AllReported(RevBytes, r) == BytesOffered(r)
  {
    CounterConservation(FwdPackets, cfg, r);
    CounterConservation(RevPackets, cfg, r);
    CounterConservation(FwdBytes, cfg, r);
    CounterConservation(RevBytes, cfg, r);
    ArrivedTotals(r);
  }

  /** Two runs on the same packets, sweeps and clock readings. */
  predicate SameEvents(r: Run, q: Run) {
    if r.Boot? || q.Boot? then r.Boot? && q.Boot?
    else r.event == q.event && SameEvents(r.prev, q.prev)
  }

  lemma {:induction false} SameTrace(r: Run, q: Run)
    requires SameEvents(r, q)
    ensures TraceOf(r) == TraceOf(q)
  {
    if r.Then? {
      SameTrace(r.prev, q.prev);
    }
  }

  lemma ActiveInclusion(small: Config, large: Config, r: Run, q: Run)
    requires IsRun(small, r) && IsRun(large, q) && SameEvents(r, q) && Lru.Ordered(TraceOf(r))
    requires small.idleTimeout == large.idleTimeout && small.maxFlows <= large.maxFlows
    ensures Table(r).Keys <= Table(q).Keys
  {
    SameTrace(r, q);
    FlowLru.ExactLru(small, r);
    FlowLru.ExactLru(large, q);
  }

  predicate Dominated(a: FlowRecord, b: FlowRecord) {
    && a.fwdPackets <= b.fwdPackets && a.revPackets <= b.revPackets
    && a.fwdBytes <= b.fwdBytes && a.revBytes <= b.revBytes
    && a.tcpFlagsUnion <= b.tcpFlagsUnion
    && a.lastSeen == b.lastSeen
  }

  lemma AbsorbDominated(small: Config, large: Config, a: FlowRecord, b: FlowRecord, p: Packet, now: nat)
    requires Dominated(a.(lastSeen := 0), b.(lastSeen := 0))
    ensures Dominated(Absorb(small, a, p, now), Absorb(large, b, p, now))
  {
  }

  /** Inclusion: fed the same events, the smaller tracker's active flows are
      active in the larger one, with counters and flags at least as large. */
  lemma {:induction false} Inclusion(small: Config, large: Config, r: Run, q: Run, k: FlowKey)
    requires IsRun(small, r) && IsRun(large, q) && SameEvents(r, q) && Lru.Ordered(TraceOf(r))
    requires small.idleTimeout == large.idleTimeout && small.maxFlows <= large.maxFlows
    requires k in Table(r)
    ensures k in Table(q) && Dominated(Table(r)[k], Table(q)[k])
  {
    ActiveInclusion(small, large, r, q);
    if r.event.Arrival? {
      ArrivalRecords(small, Table(r.prev), r.event, r.flows, r.closed);
      ArrivalRecords(large, Table(q.prev), q.event, q.flows, q.closed);
      if k == KeyOf(r.event.packet) {
        var blank := NewRecord(k, r.event.born);
        if k in Table(r.prev) {
          Inclusion(small, large, r.prev, q.prev, k);
        }
        AbsorbDominated(small, large,
                        if k in Table(r.prev) then Table(r.prev)[k] else blank,
                        if k in Table(q.prev) then Table(q.prev)[k] else blank,
                        r.event.packet, r.event.now);
      } else {
        Inclusion(small, large, r.prev, q.prev, k);
      }
    } else {
      SweepRecords(small, Table(r.prev), r.event, r.flows, r.closed);
      SweepRecords(large, Table(q.prev), q.event, q.flows, q.closed);
      Inclusion(small, large, r.prev, q.prev, k);
    }
  }
}
