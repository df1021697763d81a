/** Runs of the flow tracker, and the proof that it is an exact LRU cache. */
module FlowRuns {
  import opened FlowKeys
  import opened FlowTracker
  import Lru

  /** A run records, after each event, the table and the events emitted. */
  datatype Run = Boot | Then(prev: Run, event: Event, flows: Flows, closed: seq<FlowClosedEvent>)

  function Table(r: Run): Flows {
    if r.Boot? then map[] else r.flows
  }

  ghost predicate IsRun(cfg: Config, r: Run) {
    r.Then? ==> IsRun(cfg, r.prev) && Step(cfg, Table(r.prev), r.event, r.flows, r.closed)
  }

  lemma {:induction false} RunKeyed(cfg: Config, r: Run)
    requires IsRun(cfg, r)
    ensures Keyed(Table(r))
  {
    if r.Then? {
      RunKeyed(cfg, r.prev);
      StepKeepsKeyed(cfg, Table(r.prev), r.event, r.flows, r.closed);
    }
  }

  /** What a run does to the keys: which key each packet touches, and when. */
  function AccessOf(e: Event): Lru.Access<FlowKey> {
    match e
    case Arrival(p, now, _) => Lru.Touch(KeyOf(p), now)
    case Sweep(now) => Lru.Sweep(now)
  }

  function TraceOf(r: Run): Lru.Trace<FlowKey> {
    if r.Boot? then Lru.Empty else Lru.More(TraceOf(r.prev), AccessOf(r.event))
  }
}

module FlowLru {
  import opened Wire
  import opened FlowKeys
  import opened FlowTracker
  import opened FlowRuns

  /** A table of capacity zero still holds the newest flow. */
  function Capacity(cfg: Config): nat {
    if cfg.maxFlows == 0 then 1 else cfg.maxFlows
  }

  function Stamps(s: Flows): map<FlowKey, nat> {
    map k | k in s :: s[k].lastSeen
  }

  function Victim(e: Event, closed: seq<FlowClosedEvent>): Option<FlowKey> {
    if e.Sweep? || closed == [] then None else Some(closed[0].record.key)
  }

  lemma StampsAgree(s: Flows)
    ensures Stamps(s).Keys == s.Keys && |Stamps(s)| == |s|
  {
    assert Stamps(s).Keys == s.Keys;
  }

  /** What an arrival does to the stamps. */
  lemma InsertStamps(cfg: Config, s: Flows, p: Packet, now: nat, born: nat)
    ensures Stamps(Insert(cfg, s, p, now, born)) == Stamps(s)[KeyOf(p) := now]
  {
  }

  lemma ArrivalIsCacheStep(cfg: Config, s: Flows, e: Event, s': Flows, closed: seq<FlowClosedEvent>)
    requires e.Arrival? && Step(cfg, s, e, s', closed)
    ensures Lru.CacheStep(Capacity(cfg), cfg.idleTimeout, Stamps(s), AccessOf(e), Stamps(s'), Victim(e, closed))
  {
    StampsAgree(s);
    if KeyOf(e.packet) in s || |s| < cfg.maxFlows || s == map[] {
      InsertStamps(cfg, s, e.packet, e.now, e.born);
    } else {
      var v := closed[0].record.key;
      InsertStamps(cfg, s - {v}, e.packet, e.now, e.born);
      assert Stamps(s - {v}) == Stamps(s) - {v};
      assert Lru.IsOldest(Stamps(s), v);
    }
  }

  lemma SweepIsCacheStep(cfg: Config, s: Flows, e: Event, s': Flows, closed: seq<FlowClosedEvent>)
    requires e.Sweep? && Step(cfg, s, e, s', closed)
    ensures Lru.CacheStep(Capacity(cfg), cfg.idleTimeout, Stamps(s), AccessOf(e), Stamps(s'), Victim(e, closed))
  {
    assert forall k :: k in s' <==> k in s && !Lru.Expired(cfg.idleTimeout, Stamps(s)[k], e.now);
  }

  /** Exact LRU.  After any run at strictly increasing clock readings, a key is
      active if and only if it was seen, its last packet survived every later
      sweep, and fewer than the capacity of distinct keys were seen since. */
  lemma {:induction false} ExactLru(cfg: Config, r: Run)
    requires IsRun(cfg, r) && Lru.Ordered(TraceOf(r))
    ensures forall k :: k in Table(r) <==> Lru.Cached(Capacity(cfg), cfg.idleTimeout, TraceOf(r), k)
    ensures Lru.Exact(Capacity(cfg), cfg.idleTimeout, TraceOf(r), Stamps(Table(r)))
  {
    if r.Then? {
      ExactLru(cfg, r.prev);
      if r.event.Arrival? {
        ArrivalIsCacheStep(cfg, Table(r.prev), r.event, r.flows, r.closed);
      } else {
        SweepIsCacheStep(cfg, Table(r.prev), r.event, r.flows, r.closed);
      }
      Lru.StepKeepsExact(Capacity(cfg), cfg.idleTimeout, TraceOf(r.prev), Stamps(Table(r.prev)),
                         AccessOf(r.event), Stamps(Table(r)), Victim(r.event, r.closed));
    }
    forall k ensures k in Table(r) <==> Lru.Cached(Capacity(cfg), cfg.idleTimeout, TraceOf(r), k) {
      assert k in Stamps(Table(r)) <==> k in Table(r);
      assert Lru.ExactAt(Capacity(cfg), cfg.idleTimeout, TraceOf(r), Stamps(Table(r)), k);
    }
  }

  /** A packet evicts only the oldest flow of a full table. */
  lemma VictimIsOldest(cfg: Config, s: Flows, e: Event, s': Flows, closed: seq<FlowClosedEvent>)
    requires e.Arrival? && Step(cfg, s, e, s', closed) && closed != []
    ensures |closed| == 1 && |s| >= Capacity(cfg)
    ensures Lru.IsOldest(Stamps(s), closed[0].record.key)
  {
    assert IsOldest(s, closed[0].record.key);
  }

  /** A capacity victim is the tail of the move-to-front list of active keys:
      every other active key, and no other key, was seen since its last packet. */
  lemma VictimIsLeastRecent(cfg: Config, r: Run)
    requires r.Then? && r.event.Arrival? && IsRun(cfg, r) && Lru.Ordered(TraceOf(r))
    requires r.closed != []
    ensures var v := r.closed[0].record.key;
            && v in Table(r.prev)
            && Lru.Since(TraceOf(r.prev), v) == Table(r.prev).Keys - {v}
            && |Lru.Since(TraceOf(r.prev), v)| == Capacity(cfg) - 1
  {
    var v := r.closed[0].record.key;
    VictimIsOldest(cfg, Table(r.prev), r.event, r.flows, r.closed);
    ExactLru(cfg, r.prev);
    TailOfList(cfg, TraceOf(r.prev), Table(r.prev), v);
  }

  lemma TailOfList(cfg: Config, t: Lru.Trace<FlowKey>, s: Flows, v: FlowKey)
    requires Lru.Ordered(t) && Lru.Exact(Capacity(cfg), cfg.idleTimeout, t, Stamps(s))
    requires Lru.IsOldest(Stamps(s), v) && |s| >= Capacity(cfg)
    ensures v in s && Lru.Since(t, v) == s.Keys - {v} && |Lru.Since(t, v)| == Capacity(cfg) - 1
  {
    StampsAgree(s);
    Lru.SinceOldest(Capacity(cfg), cfg.idleTimeout, t, Stamps(s), v);
    assert s.Keys == s.Keys - {v} + {v};
  }

  /** The bound on the table holds on every run, whatever the clock does. */
  lemma {:induction false} ActiveCountBounded(cfg: Config, r: Run)
    requires IsRun(cfg, r)
    ensures |Table(r)| <= Capacity(cfg)
  {
    if r.Then? {
      ActiveCountBounded(cfg, r.prev);
      StampsAgree(Table(r.prev));
      StampsAgree(Table(r));
      if r.event.Arrival? {
        ArrivalIsCacheStep(cfg, Table(r.prev), r.event, r.flows, r.closed);
      } else {
        SweepIsCacheStep(cfg, Table(r.prev), r.event, r.flows, r.closed);
      }
      Lru.StepKeepsSize(Capacity(cfg), cfg.idleTimeout, Stamps(Table(r.prev)), AccessOf(r.event),
                        Stamps(Table(r)), Victim(r.event, r.closed));
    }
  }
}
