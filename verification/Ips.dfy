/** The rule engine of src/ips/mod.rs. */
module IpsRules {
  import opened Wire
  import opened FlowKeys

  datatype Verdict = Pass | Drop | Alert

  datatype Mode = Tap | Inline

  /** What a packet is matched on. */
  datatype Probe = Probe(
    srcIp: Option<IpAddr>, dstIp: Option<IpAddr>, srcPort: u16, dstPort: u16, protocol: byte,
    flags: Flags, modbus: Option<byte>, dnp3: Option<byte>)

  datatype Criteria = Criteria(
    srcIp: Option<IpAddr>, dstIp: Option<IpAddr>, srcPort: Option<u16>, dstPort: Option<u16>,
    protocol: Option<byte>, flagsMask: Option<Flags>, flagsValue: Option<Flags>,
    modbusCodes: seq<byte>, dnp3Codes: seq<byte>)

  datatype Rule = Rule(
    id: string, description: string, severity: string, action: Verdict, criteria: Criteria, enabled: bool)

  const ANY := Criteria(None, None, None, None, None, None, None, [], [])

  predicate CodeMatches(codes: seq<byte>, code: Option<byte>) {
    codes != [] ==> code.Some? && code.value in codes
  }

  function Mask(c: Criteria): Flags {
    if c.flagsMask.Some? && c.flagsValue.Some? then c.flagsMask.value else {}
  }

  function Value(c: Criteria): Flags {
    if c.flagsMask.Some? && c.flagsValue.Some? then c.flagsValue.value else {}
  }

  predicate Matches(c: Criteria, p: Probe) {
    && (c.srcIp.Some? ==> p.srcIp == c.srcIp)
    && (c.dstIp.Some? ==> p.dstIp == c.dstIp)
    && (c.srcPort.Some? ==> p.srcPort == c.srcPort.value)
    && (c.dstPort.Some? ==> p.dstPort == c.dstPort.value)
    && (c.protocol.Some? ==> p.protocol == c.protocol.value)
    && (c.flagsMask.Some? && c.flagsValue.Some? ==> p.flags * c.flagsMask.value == c.flagsValue.value)
    && CodeMatches(c.modbusCodes, p.modbus)
    && CodeMatches(c.dnp3Codes, p.dnp3)
  }

  /** The rule that decides: the first enabled one that matches. */
  function FirstMatch(rules: seq<Rule>, p: Probe): Option<Rule> {
    if rules == [] then None
    else if rules[0].enabled && Matches(rules[0].criteria, p) then Some(rules[0])
    else FirstMatch(rules[1..], p)
  }

  /** Tap mode only alerts. */
  function Effective(mode: Mode, action: Verdict): Verdict {
    if mode == Tap && action == Drop then Alert else action
  }

  /** The verdict on a packet and the rule behind it. */
  function Decide(mode: Mode, default: Verdict, rules: seq<Rule>, p: Probe): (Verdict, Option<Rule>) {
    var r := FirstMatch(rules, p);
    (if r.Some? then Effective(mode, r.value.action) else default, r)
  }

  /** What each criterion asks for, one at a time. */
  lemma FieldMeaning(p: Probe, ip: IpAddr, port: u16, protocol: byte, codes: seq<byte>)
    ensures Matches(ANY, p)
    ensures Matches(ANY.(srcIp := Some(ip)), p) <==> p.srcIp == Some(ip)
    ensures Matches(ANY.(dstIp := Some(ip)), p) <==> p.dstIp == Some(ip)
    ensures Matches(ANY.(srcPort := Some(port)), p) <==> p.srcPort == port
    ensures Matches(ANY.(dstPort := Some(port)), p) <==> p.dstPort == port
    ensures Matches(ANY.(protocol := Some(protocol)), p) <==> p.protocol == protocol
    ensures Matches(ANY.(modbusCodes := codes), p) <==>
            |codes| == 0 || exists i :: 0 <= i < |codes| && p.modbus == Some(codes[i])
    ensures Matches(ANY.(dnp3Codes := codes), p) <==>
            |codes| == 0 || exists i :: 0 <= i < |codes| && p.dnp3 == Some(codes[i])
  {
  }

  /** A flag mask is bitwise and on the flag byte. */
  lemma MaskMeaning(p: Probe, flags: byte, mask: byte, value: byte)
    requires p.flags == BitsOf(flags)
    ensures Matches(ANY.(flagsMask := Some(BitsOf(mask)), flagsValue := Some(BitsOf(value))), p) <==>
            And(flags, mask) == value
    ensures Matches(ANY.(flagsMask := Some(BitsOf(mask))), p) && Matches(ANY.(flagsValue := Some(BitsOf(value))), p)
  {
    BitsOfAnd(flags, mask);
    BitsInjective(And(flags, mask), value);
  }

  /** All criteria together ask for what each asks for. */
  lemma MatchesByField(c: Criteria, p: Probe)
    ensures Matches(c, p) <==>
            && Matches(ANY.(srcIp := c.srcIp), p) && Matches(ANY.(dstIp := c.dstIp), p)
            && Matches(ANY.(srcPort := c.srcPort), p) && Matches(ANY.(dstPort := c.dstPort), p)
            && Matches(ANY.(protocol := c.protocol), p)
            && Matches(ANY.(flagsMask := c.flagsMask, flagsValue := c.flagsValue), p)
            && Matches(ANY.(modbusCodes := c.modbusCodes), p) && Matches(ANY.(dnp3Codes := c.dnp3Codes), p)
  {
  }

  /** The verdict in every case. */
  lemma VerdictTable(mode: Mode, default: Verdict, rules: seq<Rule>, p: Probe)
    ensures var (verdict, r) := Decide(mode, default, rules, p);
            && r == FirstMatch(rules, p)
            && (r.None? ==> verdict == default)
            && (r.Some? && r.value.action == Pass ==> verdict == Pass)
            && (r.Some? && r.value.action == Alert ==> verdict == Alert)
            && (r.Some? && r.value.action == Drop ==> verdict == if mode == Inline then Drop else Alert)
  {
  }

  /** `FirstMatch` by position. */
  lemma {:induction false} FirstMatchIff(rules: seq<Rule>, p: Probe, i: nat)
    requires i < |rules| && rules[i].enabled && Matches(rules[i].criteria, p)
    requires forall j :: 0 <= j < i ==> !(rules[j].enabled && Matches(rules[j].criteria, p))
    ensures FirstMatch(rules, p) == Some(rules[i])
  {
    if i > 0 {
      FirstMatchIff(rules[1..], p, i - 1);
    }
  }

  lemma {:induction false} NoMatchIff(rules: seq<Rule>, p: Probe)
    ensures FirstMatch(rules, p) == None <==>
            forall j :: 0 <= j < |rules| ==> !(rules[j].enabled && Matches(rules[j].criteria, p))
  {
    if rules != [] {
      NoMatchIff(rules[1..], p);
      assert forall j :: 1 <= j < |rules| ==> rules[j] == rules[1..][j - 1];
    }
  }

  /** Some packet meets the criteria: the flag value lies within the mask. */
  predicate Satisfiable(c: Criteria) {
    Value(c) <= Mask(c)
  }

  predicate FieldCovers<T(==)>(w: Option<T>, c: Option<T>) {
    w.None? || w == c
  }

  predicate CodesCover(w: seq<byte>, c: seq<byte>) {
    w == [] || (c != [] && forall k :: k in c ==> k in w)
  }

  /** `w` is pointwise weaker than `c`; flag masks are compared bit by bit. */
  predicate Covers(w: Criteria, c: Criteria) {
    && FieldCovers(w.srcIp, c.srcIp) && FieldCovers(w.dstIp, c.dstIp)
    && FieldCovers(w.srcPort, c.srcPort) && FieldCovers(w.dstPort, c.dstPort)
    && FieldCovers(w.protocol, c.protocol)
    && Mask(w) <= Mask(c) && Value(w) == Value(c) * Mask(w)
    && CodesCover(w.modbusCodes, c.modbusCodes) && CodesCover(w.dnp3Codes, c.dnp3Codes)
  }

  /** A packet that meets satisfiable criteria, leaving every free field at a
      chosen default. */
  function Sample(c: Criteria, srcPort: u16, dstPort: u16, protocol: byte): Probe {
    Probe(c.srcIp, c.dstIp,
      if c.srcPort.Some? then c.srcPort.value else srcPort,
      if c.dstPort.Some? then c.dstPort.value else dstPort,
      if c.protocol.Some? then c.protocol.value else protocol,
      Value(c),
      if c.modbusCodes == [] then None else Some(c.modbusCodes[0]),
      if c.dnp3Codes == [] then None else Some(c.dnp3Codes[0]))
  }

  lemma SampleMatches(c: Criteria, srcPort: u16, dstPort: u16, protocol: byte)
    requires Satisfiable(c)
    ensures Matches(c, Sample(c, srcPort, dstPort, protocol))
  {
  }

  lemma UnsatisfiableMatchesNothing(c: Criteria, p: Probe)
    requires !Satisfiable(c)
    ensures !Matches(c, p)
  {
  }

  lemma CoversSound(w: Criteria, c: Criteria, p: Probe)
    requires Covers(w, c) && Matches(c, p)
    ensures Matches(w, p)
  {
    assert p.flags * Mask(w) == p.flags * Mask(c) * Mask(w);
  }

  /** A value the field does not ask for. */
  function Other(field: Option<int>): (x: byte)
    ensures field != Some(x)
  {
    if field == Some(0) then 1 else 0
  }

  /** A packet that meets `c` and avoids what `w` asks of the fields free in `c`. */
  function Avoiding(w: Criteria, c: Criteria): Probe {
    Sample(c, Other(w.srcPort), Other(w.dstPort), Other(w.protocol))
  }

  lemma FieldsCover(w: Criteria, c: Criteria)
    requires Matches(w, Avoiding(w, c))
    ensures FieldCovers(w.srcIp, c.srcIp) && FieldCovers(w.dstIp, c.dstIp)
    ensures FieldCovers(w.srcPort, c.srcPort) && FieldCovers(w.dstPort, c.dstPort)
    ensures FieldCovers(w.protocol, c.protocol)
    ensures Value(c) * Mask(w) == Value(w)
  {
  }

  lemma FlagsWitness(w: Criteria, c: Criteria)
    requires Satisfiable(c) && Value(c) * Mask(w) == Value(w)
    requires !(Mask(w) <= Mask(c) && Value(w) == Value(c) * Mask(w))
    ensures var p := Avoiding(w, c).(flags := Value(c) + (Mask(w) - Mask(c)));
            Matches(c, p) && !Matches(w, p)
  {
    FlagsEscape(w, c, Value(c) + (Mask(w) - Mask(c)));
  }

  lemma ModbusWitness(w: Criteria, c: Criteria) returns (k: byte)
    requires Matches(c, Avoiding(w, c)) && Matches(w, Avoiding(w, c)) && !CodesCover(w.modbusCodes, c.modbusCodes)
    ensures var p := Avoiding(w, c).(modbus := Some(k)); Matches(c, p) && !Matches(w, p)
  {
    k :| k in c.modbusCodes && k !in w.modbusCodes;
  }

  lemma Dnp3Witness(w: Criteria, c: Criteria) returns (k: byte)
    requires Matches(c, Avoiding(w, c)) && Matches(w, Avoiding(w, c)) && !CodesCover(w.dnp3Codes, c.dnp3Codes)
    ensures var p := Avoiding(w, c).(dnp3 := Some(k)); Matches(c, p) && !Matches(w, p)
  {
    k :| k in c.dnp3Codes && k !in w.dnp3Codes;
  }

  /** A packet the stronger criteria admit and the weaker do not. */
  lemma CoversComplete(w: Criteria, c: Criteria) returns (p: Probe)
    requires Satisfiable(c) && !Covers(w, c)
    ensures Matches(c, p) && !Matches(w, p)
  {
    p := Avoiding(w, c);
    SampleMatches(c, Other(w.srcPort), Other(w.dstPort), Other(w.protocol));
    if Matches(w, p) {
      FieldsCover(w, c);
      if !(Mask(w) <= Mask(c) && Value(w) == Value(c) * Mask(w)) {
        FlagsWitness(w, c);
        p := p.(flags := Value(c) + (Mask(w) - Mask(c)));
      } else if !CodesCover(w.modbusCodes, c.modbusCodes) {
        var k := ModbusWitness(w, c);
        p := p.(modbus := Some(k));
      } else {
        var k := Dnp3Witness(w, c);
        p := p.(dnp3 := Some(k));
      }
    }
  }

  lemma FlagsEscape(w: Criteria, c: Criteria, flags: Flags)
    requires Satisfiable(c) && flags == Value(c) + (Mask(w) - Mask(c))
    requires !(Mask(w) <= Mask(c) && Value(w) == Value(c) * Mask(w)) && Value(c) * Mask(w) == Value(w)
    ensures flags * Mask(c) == Value(c) && flags * Mask(w) != Value(w)
  {
    var b :| b in Mask(w) && b !in Mask(c);
    assert b in flags * Mask(w) && b !in Value(w);
  }

  /** Subsumption is decided by the pointwise check: every packet that meets `c`
      meets `w` if and only if nothing meets `c` or `w` is pointwise weaker. */
  lemma CoversExact(w: Criteria, c: Criteria)
    ensures (forall p :: Matches(c, p) ==> Matches(w, p)) <==> (!Satisfiable(c) || Covers(w, c))
  {
    if !Satisfiable(c) {
      forall p ensures !Matches(c, p) {
        UnsatisfiableMatchesNothing(c, p);
      }
    } else if Covers(w, c) {
      forall p | Matches(c, p) ensures Matches(w, p) {
        CoversSound(w, c, p);
      }
    } else {
      var p := CoversComplete(w, c);
    }
  }

  lemma {:induction false} FirstMatchConcat(a: seq<Rule>, b: seq<Rule>, p: Probe)
    ensures FirstMatch(a + b, p) == if FirstMatch(a, p).Some? then FirstMatch(a, p) else FirstMatch(b, p)
  {
    if a == [] {
      assert a + b == b;
    } else {
      FirstMatchConcat(a[1..], b, p);
      assert (a + b)[1..] == a[1..] + b;
    }
  }

  lemma {:induction false} MatchedByMember(rules: seq<Rule>, r: Rule, p: Probe)
    requires r in rules && r.enabled && Matches(r.criteria, p)
    ensures FirstMatch(rules, p).Some?
  {
    if rules[0] != r {
      MatchedByMember(rules[1..], r, p);
    }
  }

  /** Removing a rule shadowed by an earlier one changes no verdict. */
  lemma RemoveShadowed(mode: Mode, default: Verdict, a: seq<Rule>, r: Rule, b: seq<Rule>, w: Rule, p: Probe)
    requires w in a && w.enabled && Covers(w.criteria, r.criteria)
    ensures Decide(mode, default, a + [r] + b, p) == Decide(mode, default, a + b, p)
  {
    FirstMatchConcat(a + [r], b, p);
    FirstMatchConcat(a, [r], p);
    FirstMatchConcat(a, b, p);
    if Matches(r.criteria, p) {
      CoversSound(w.criteria, r.criteria, p);
      MatchedByMember(a, w, p);
    }
  }

  /** Swapping neighbours changes the verdict or the rule reported on `p` only if
      both are enabled, both match, they differ, and no earlier rule decides. */
  lemma SwapNeighbours(mode: Mode, default: Verdict, a: seq<Rule>, r: Rule, s: Rule, b: seq<Rule>, p: Probe)
    ensures Decide(mode, default, a + [r, s] + b, p) == Decide(mode, default, a + [s, r] + b, p) <==>
            !(FirstMatch(a, p).None? && r != s && r.enabled && s.enabled
              && Matches(r.criteria, p) && Matches(s.criteria, p))
  {
    FirstMatchConcat(a + [r, s], b, p);
    FirstMatchConcat(a, [r, s], p);
    FirstMatchConcat(a + [s, r], b, p);
    FirstMatchConcat(a, [s, r], p);
    assert [r, s][1..] == [s] && [s, r][1..] == [r];
  }

  /** A matched verdict in Tap mode is the Inline verdict with Drop replaced by
      Alert; an unmatched one is the default in both modes. */
  lemma TapAgainstInline(default: Verdict, rules: seq<Rule>, p: Probe)
    ensures var (tap, r) := Decide(Tap, default, rules, p);
            var (inline, q) := Decide(Inline, default, rules, p);
            r == q && tap == if r.Some? && inline == Drop then Alert else inline
  {
  }

  /** Tap mode blocks exactly the packets no rule matches under a default of Drop. */
  lemma TapDropsIff(default: Verdict, rules: seq<Rule>, p: Probe)
    ensures Decide(Tap, default, rules, p).0 == Drop <==> FirstMatch(rules, p) == None && default == Drop
  {
  }
}

module Ips {
  import opened Wire
  import opened IpsRules

  datatype Stats = Stats(inspected: nat, passed: nat, dropped: nat, alerted: nat, rulesMatched: nat)

  datatype Engine = Engine(mode: Mode, rules: seq<Rule>, hits: map<string, nat>, default: Verdict, stats: Stats)

  function New(mode: Mode, default: Verdict): Engine {
    Engine(mode, [], map[], default, Stats(0, 0, 0, 0, 0))
  }

  function HitCount(hits: map<string, nat>, id: string): nat {
    if id in hits then hits[id] else 0
  }

  function Count(s: Stats, v: Verdict): Stats {
    match v
    case Pass => s.(passed := s.passed + 1)
    case Drop => s.(dropped := s.dropped + 1)
    case Alert => s.(alerted := s.alerted + 1)
  }

  function Evaluated(e: Engine, p: Probe): Engine {
    var s := e.stats.(inspected := e.stats.inspected + 1);
    var r := FirstMatch(e.rules, p);
    if r.None? then e.(stats := Count(s, Pass))
    else e.(stats := Count(s.(rulesMatched := s.rulesMatched + 1), Effective(e.mode, r.value.action)),
            hits := e.hits[r.value.id := HitCount(e.hits, r.value.id) + 1])
  }

  function Added(e: Engine, r: Rule): Engine {
    e.(rules := e.rules + [r], hits := e.hits[r.id := HitCount(e.hits, r.id)])
  }

  function Without(rules: seq<Rule>, id: string): seq<Rule> {
    if rules == [] then []
    else (if rules[0].id != id then [rules[0]] else []) + Without(rules[1..], id)
  }

  function Ids(rules: seq<Rule>): set<string> {
    set r | r in rules :: r.id
  }

  function Removed(e: Engine, id: string): Engine {
    if id in Ids(e.rules) then e.(rules := Without(e.rules, id), hits := e.hits - {id}) else e
  }

  lemma {:induction false} WithoutShorter(rules: seq<Rule>, id: string)
    ensures |Without(rules, id)| <= |rules|
    ensures |Without(rules, id)| == |rules| <==> id !in Ids(rules)
    ensures id !in Ids(rules) ==> Without(rules, id) == rules
    ensures Ids(Without(rules, id)) == Ids(rules) - {id}
  {
    if rules != [] {
      WithoutShorter(rules[1..], id);
      assert rules == [rules[0]] + rules[1..];
      IdsCons(rules[0], rules[1..]);
      if rules[0].id != id {
        IdsCons(rules[0], Without(rules[1..], id));
      } else {
        assert [] + Without(rules[1..], id) == Without(rules[1..], id);
      }
    }
  }

  function WithoutHead(r: Rule, id: string): seq<Rule> {
    if r.id != id then [r] else []
  }

  lemma WithoutCons(r: Rule, rest: seq<Rule>, id: string)
    ensures Without([r] + rest, id) == WithoutHead(r, id) + Without(rest, id)
  {
    assert ([r] + rest)[1..] == rest;
  }

  lemma FirstApart(a: seq<Rule>, b: seq<Rule>)
    requires a != []
    ensures a == [a[0]] + a[1..] && a + b == [a[0]] + (a[1..] + b)
  {
  }

  lemma Associative(a: seq<Rule>, b: seq<Rule>, c: seq<Rule>)
    ensures a + (b + c) == a + b + c
  {
  }

  lemma {:induction false} WithoutConcat(a: seq<Rule>, b: seq<Rule>, id: string)
    ensures Without(a + b, id) == Without(a, id) + Without(b, id)
  {
    if a == [] {
      assert a + b == b;
    } else {
      WithoutConcat(a[1..], b, id);
      FirstApart(a, b);
      WithoutCons(a[0], a[1..] + b, id);
      WithoutCons(a[0], a[1..], id);
      Associative(WithoutHead(a[0], id), Without(a[1..], id), Without(b, id));
    }
  }

  lemma WithoutOne(r: Rule, id: string)
    ensures Without([r], id) == if r.id == id then [] else [r]
  {
    assert [r][1..] == [];
  }

  /** Wherever a rule stands among others, it stays, in its place, exactly when it
      has another id. */
  lemma WithoutExact(a: seq<Rule>, r: Rule, b: seq<Rule>, id: string)
    ensures Without(a + [r] + b, id) ==
            Without(a, id) + (if r.id == id then [] else [r]) + Without(b, id)
  {
    WithoutConcat(a + [r], b, id);
    WithoutConcat(a, [r], id);
    WithoutOne(r, id);
  }

  lemma IdsCons(r: Rule, rest: seq<Rule>)
    ensures Ids([r] + rest) == {r.id} + Ids(rest)
  {
    forall x ensures x in Ids([r] + rest) <==> x in {r.id} + Ids(rest) {
      if x == r.id {
        assert r in [r] + rest;
      } else if x in Ids(rest) {
        var q :| q in rest && q.id == x;
        assert q in [r] + rest;
      }
    }
  }

  lemma IdsSnoc(rules: seq<Rule>, r: Rule)
    ensures Ids(rules + [r]) == Ids(rules) + {r.id}
  {
    forall x ensures x in Ids(rules + [r]) <==> x in Ids(rules) + {r.id} {
      if x == r.id {
        assert r in rules + [r];
      } else if x in Ids(rules) {
        var q :| q in rules && q.id == x;
        assert q in rules + [r];
      }
    }
  }

  class IpsEngine {
    var mode: Mode
    var rules: seq<Rule>
    var ruleHits: map<string, nat>
    var defaultAction: Verdict
    var stats: Stats

    constructor (mode: Mode, defaultAction: Verdict)
      ensures View() == New(mode, defaultAction)
    {
      this.mode := mode;
      this.defaultAction := defaultAction;
      rules := [];
      ruleHits := map[];
      stats := Stats(0, 0, 0, 0, 0);
    }

    function View(): Engine
      reads this
    {
      Engine(mode, rules, ruleHits, defaultAction, stats)
    }

    method AddRule(rule: Rule)
      modifies this
      ensures View() == Added(old(View()), rule)
    {
      ruleHits := ruleHits[rule.id := HitCount(ruleHits, rule.id)];
      rules := rules + [rule];
    }

    /** Evaluate a packet against the rules in order. */
    method Evaluate(p: Probe) returns (verdict: Verdict, matched: Option<Rule>)
      modifies this
      ensures View() == Evaluated(old(View()), p)
      ensures (verdict, matched) == Decide(old(mode), old(defaultAction), old(rules), p)
    {
      stats := stats.(inspected := stats.inspected + 1);

      for i := 0 to |rules|
        invariant View() == old(View()).(stats := old(stats).(inspected := old(stats).inspected + 1))
        invariant FirstMatch(rules[i..], p) == FirstMatch(rules, p)
      {
        var rule := rules[i];
        assert rules[i..][1..] == rules[i + 1..];
        if rule.enabled {
          if Matches(rule.criteria, p) {
            stats := stats.(rulesMatched := stats.rulesMatched + 1);
            verdict := if mode == Tap then (if rule.action == Drop then Alert else rule.action) else rule.action;
            match verdict {
              case Pass => stats := stats.(passed := stats.passed + 1);
              case Drop => stats := stats.(dropped := stats.dropped + 1);
              case Alert => stats := stats.(alerted := stats.alerted + 1);
            }
            ruleHits := ruleHits[rule.id := HitCount(ruleHits, rule.id) + 1];
            return verdict, Some(rule);
          }
        }
      }

      stats := stats.(passed := stats.passed + 1);
      return defaultAction, None;
    }

    method SetMode(mode: Mode)
      modifies this
      ensures View() == old(View()).(mode := mode)
    {
      if this.mode != mode {
        this.mode := mode;
      }
    }

    /** Remove every rule with this id and forget its hits. */
    method RemoveRule(ruleId: string) returns (removed: bool)
      modifies this
      ensures View() == Removed(old(View()), ruleId)
      ensures removed <==> ruleId in Ids(old(rules))
    {
      var before := |rules|;
      WithoutShorter(rules, ruleId);
      rules := Retain(rules, ruleId);
      removed := |rules| != before;
      if removed {
        ruleHits := ruleHits - {ruleId};
      }
    }

    static method Retain(rules: seq<Rule>, id: string) returns (kept: seq<Rule>)
      ensures kept == Without(rules, id)
    {
      kept := [];
      for i := 0 to |rules|
        invariant kept + Without(rules[i..], id) == Without(rules, id)
      {
        assert rules[i..][1..] == rules[i + 1..];
        if rules[i].id != id {
          kept := kept + [rules[i]];
        }
      }
    }

    function RuleHitCount(ruleId: string): nat
      reads this
    {
      HitCount(ruleHits, ruleId)
    }

    /** The five built-in rules. */
    method LoadDefaultRules()
      modifies this
      ensures View() == AddedAll(old(View()), DefaultRules())
    {
      var defaults := DefaultRules();
      for i := 0 to |defaults|
        invariant AddedAll(View(), defaults[i..]) == AddedAll(old(View()), defaults)
      {
        assert defaults[i..][1..] == defaults[i + 1..];
        AddRule(defaults[i]);
      }
    }
  }

  function AddedAll(e: Engine, rules: seq<Rule>): Engine
    decreases |rules|
  {
    if rules == [] then e else AddedAll(Added(e, rules[0]), rules[1..])
  }

  function DefaultRules(): seq<Rule> {
    [ Rule("GE-NET-001", "SYN scan on port 0 (reconnaissance)", "high", Drop,
           ANY.(dstPort := Some(0), flagsMask := Some(BitsOf(0x02)), flagsValue := Some(BitsOf(0x02))), true),
      Rule("GE-NET-002", "XMAS tree scan detected", "high", Drop,
           ANY.(flagsMask := Some(BitsOf(0x29)), flagsValue := Some(BitsOf(0x29))), true),
      Rule("GE-NET-003", "NULL scan detected (no TCP flags)", "medium", Alert,
           ANY.(protocol := Some(6), flagsMask := Some(BitsOf(0xFF)), flagsValue := Some(BitsOf(0x00))), true),
      Rule("GE-OT-001", "Unauthorized Modbus write operation", "critical", Drop,
           ANY.(dstPort := Some(502), modbusCodes := [0x05, 0x06, 0x0F, 0x10]), true),
      Rule("GE-OT-002", "Unauthorized DNP3 control command", "critical", Drop,
           ANY.(dstPort := Some(20000), dnp3Codes := [0x03, 0x04, 0x05, 0x06, 0x0D, 0x0E]), true) ]
  }

  /** What the built-in rules do to a packet, first match first; the flag bits are
      FIN 0, SYN 1, PSH 3 and URG 5. */
  function BuiltInRule(p: Probe): Option<(string, Verdict)> {
    if p.dstPort == 0 && 1 in p.flags then Some(("GE-NET-001", Drop))
    else if 0 in p.flags && 3 in p.flags && 5 in p.flags then Some(("GE-NET-002", Drop))
    else if p.protocol == 6 && p.flags == {} then Some(("GE-NET-003", Alert))
    else if p.dstPort == 502 && p.modbus.Some? && p.modbus.value in {5, 6, 15, 16} then Some(("GE-OT-001", Drop))
    else if p.dstPort == 20000 && p.dnp3.Some? && p.dnp3.value in {3, 4, 5, 6, 13, 14} then Some(("GE-OT-002", Drop))
    else None
  }

  lemma ScanBits()
    ensures BitsOf(0x02) == {1} && BitsOf(0x29) == {0, 3, 5}
    ensures BitsOf(0xFF) == {0, 1, 2, 3, 4, 5, 6, 7} && BitsOf(0x00) == {}
  {
    assert !BitAt(0x02, 0) && BitAt(0x02, 1) && !BitAt(0x02, 2) && !BitAt(0x02, 3);
    assert !BitAt(0x02, 4) && !BitAt(0x02, 5) && !BitAt(0x02, 6) && !BitAt(0x02, 7);
    assert BitAt(0x29, 0) && !BitAt(0x29, 1) && !BitAt(0x29, 2) && BitAt(0x29, 3);
    assert !BitAt(0x29, 4) && BitAt(0x29, 5) && !BitAt(0x29, 6) && !BitAt(0x29, 7);
    assert BitAt(0xFF, 0) && BitAt(0xFF, 1) && BitAt(0xFF, 2) && BitAt(0xFF, 3);
    assert BitAt(0xFF, 4) && BitAt(0xFF, 5) && BitAt(0xFF, 6) && BitAt(0xFF, 7);
    forall i: Bit ensures !BitAt(0x00, i) {
      ZeroBits(i);
    }
  }

  lemma FlagTests(flags: Flags)
    ensures flags * {1} == {1} <==> 1 in flags
    ensures flags * {0, 3, 5} == {0, 3, 5} <==> 0 in flags && 3 in flags && 5 in flags
    ensures flags * {0, 1, 2, 3, 4, 5, 6, 7} == flags
  {
  }

  /** Which of the built-in rules match, one by one. */
  lemma BuiltInMatches(p: Probe)
    ensures var rules := DefaultRules();
            && (Matches(rules[0].criteria, p) <==> p.dstPort == 0 && 1 in p.flags)
            && (Matches(rules[1].criteria, p) <==> 0 in p.flags && 3 in p.flags && 5 in p.flags)
            && (Matches(rules[2].criteria, p) <==> p.protocol == 6 && p.flags == {})
            && (Matches(rules[3].criteria, p) <==>
                  p.dstPort == 502 && p.modbus.Some? && p.modbus.value in {5, 6, 15, 16})
            && (Matches(rules[4].criteria, p) <==>
                  p.dstPort == 20000 && p.dnp3.Some? && p.dnp3.value in {3, 4, 5, 6, 13, 14})
  {
    ScanBits();
    FlagTests(p.flags);
  }

  /** The built-in rules decide as the table says, in both modes. */
  lemma BuiltInVerdicts(mode: Mode, default: Verdict, p: Probe)
    ensures var (verdict, r) := Decide(mode, default, DefaultRules(), p);
            match BuiltInRule(p)
            case None => r == None && verdict == default
            case Some((id, action)) =>
              r.Some? && r.value.id == id && verdict == if mode == Tap then Alert else action
  {
    var rules := DefaultRules();
    BuiltInMatches(p);
    if i :| 0 <= i < 5 && Matches(rules[i].criteria, p) && forall j :: 0 <= j < i ==> !Matches(rules[j].criteria, p) {
      FirstMatchIff(rules, p, i);
    } else {
      NoMatchIff(rules, p);
    }
  }
}

/** Whole runs of the engine. */
module IpsRuns {
  import opened Wire
  import opened IpsRules
  import opened Ips
  import opened MapSums

  datatype Op = Evaluate(probe: Probe) | AddRule(rule: Rule) | RemoveRule(id: string) | SetMode(mode: Mode)

  function Apply(e: Engine, op: Op): Engine {
    match op
    case Evaluate(p) => Evaluated(e, p)
    case AddRule(r) => Added(e, r)
    case RemoveRule(id) => Removed(e, id)
    case SetMode(m) => e.(mode := m)
  }

  function RunOps(e: Engine, ops: seq<Op>): Engine
    decreases |ops|
  {
    if ops == [] then e else RunOps(Apply(e, ops[0]), ops[1..])
  }

  /** Hits forgotten by removals during a run. */
  function Forgotten(e: Engine, ops: seq<Op>): nat
    decreases |ops|
  {
    if ops == [] then 0
    else (if ops[0].RemoveRule? then HitCount(e.hits, ops[0].id) else 0) + Forgotten(Apply(e, ops[0]), ops[1..])
  }

  function Self(): nat -> nat {
    n => n
  }

  /** The books: every inspected packet has one verdict counter, and every match
      is a hit of a loaded rule or was forgotten with it. */
  ghost predicate Balanced(e: Engine, forgotten: nat) {
    && e.stats.inspected == e.stats.passed + e.stats.dropped + e.stats.alerted
    && e.stats.rulesMatched == Total(e.hits, Self()) + forgotten
    && e.hits.Keys == Ids(e.rules)
  }

  lemma HitsUpdated(hits: map<string, nat>, id: string, n: nat)
    ensures Total(hits[id := n], Self()) + HitCount(hits, id) == Total(hits, Self()) + n
  {
    TotalUpdate(hits, id, n, Self());
    if id in hits {
      TotalRemove(hits, id, Self());
    } else {
      assert hits - {id} == hits;
    }
  }

  lemma {:induction false} FirstMatchIsLoaded(rules: seq<Rule>, p: Probe)
    ensures FirstMatch(rules, p).Some? ==> FirstMatch(rules, p).value in rules
  {
    if rules != [] {
      FirstMatchIsLoaded(rules[1..], p);
    }
  }

  lemma EvaluateKeepsBooks(e: Engine, forgotten: nat, p: Probe)
    requires Balanced(e, forgotten)
    ensures Balanced(Evaluated(e, p), forgotten)
  {
    var r := FirstMatch(e.rules, p);
    if r.Some? {
      FirstMatchIsLoaded(e.rules, p);
      HitsUpdated(e.hits, r.value.id, HitCount(e.hits, r.value.id) + 1);
    }
  }

  lemma ApplyKeepsBooks(e: Engine, forgotten: nat, op: Op)
    requires Balanced(e, forgotten)
    ensures Balanced(Apply(e, op), forgotten + if op.RemoveRule? then HitCount(e.hits, op.id) else 0)
  {
    match op {
      case Evaluate(p) => EvaluateKeepsBooks(e, forgotten, p);
      case AddRule(r) =>
        HitsUpdated(e.hits, r.id, HitCount(e.hits, r.id));
        IdsSnoc(e.rules, r);
      case RemoveRule(id) =>
        WithoutShorter(e.rules, id);
        if id in e.hits {
          TotalRemove(e.hits, id, Self());
        }
      case SetMode(_) =>
    }
  }

  lemma {:induction false} RunKeepsBooks(e: Engine, forgotten: nat, ops: seq<Op>)
    requires Balanced(e, forgotten)
    ensures Balanced(RunOps(e, ops), forgotten + Forgotten(e, ops))
    decreases |ops|
  {
    if ops != [] {
      var more := if ops[0].RemoveRule? then HitCount(e.hits, ops[0].id) else 0;
      ApplyKeepsBooks(e, forgotten, ops[0]);
      RunKeepsBooks(Apply(e, ops[0]), forgotten + more, ops[1..]);
    }
  }

  /** Accounting over any run from a new engine. */
  lemma Accounting(mode: Mode, default: Verdict, ops: seq<Op>)
    ensures var e := RunOps(New(mode, default), ops);
            && e.stats.inspected == e.stats.passed + e.stats.dropped + e.stats.alerted
            && e.stats.rulesMatched == Total(e.hits, Self()) + Forgotten(New(mode, default), ops)
            && e.hits.Keys == Ids(e.rules)
  {
    RunKeepsBooks(New(mode, default), 0, ops);
  }

  /** While the engine stays in Tap mode the drop counter does not move. */
  lemma {:induction false} TapNeverCountsDrops(e: Engine, ops: seq<Op>)
    requires e.mode == Tap && forall op :: op in ops && op.SetMode? ==> op.mode == Tap
    ensures RunOps(e, ops).stats.dropped == e.stats.dropped && RunOps(e, ops).mode == Tap
    decreases |ops|
  {
    if ops != [] {
      assert ops[0] in ops;
      TapNeverCountsDrops(Apply(e, ops[0]), ops[1..]);
    }
  }

  /** The counter that moves is the returned verdict's own, except on unmatched
      packets under a default other than Pass, which count as passed. */
  lemma CountedAsReturned(e: Engine, p: Probe)
    ensures var (verdict, r) := Decide(e.mode, e.default, e.rules, p);
            var s, t := e.stats, Evaluated(e, p).stats;
            && t.passed == s.passed + (if verdict == Pass then 1 else 0)
            && t.dropped == s.dropped + (if verdict == Drop then 1 else 0)
            && t.alerted == s.alerted + (if verdict == Alert then 1 else 0)
            <==> r.Some? || e.default == Pass
  {
  }

  /** The rules and the mode in force, apart from all counting. */
  datatype Setup = Setup(mode: Mode, rules: seq<Rule>)

  function Change(s: Setup, op: Op): Setup {
    match op
    case Evaluate(_) => s
    case AddRule(r) => s.(rules := s.rules + [r])
    case RemoveRule(id) => s.(rules := Without(s.rules, id))
    case SetMode(m) => s.(mode := m)
  }

  datatype Kind = Inspections | Passes | Drops | Alerts | RuleMatches

  /** What one evaluation is counted as, given the mode and the deciding rule. */
  predicate CountsAs(k: Kind, mode: Mode, r: Option<Rule>) {
    match k
    case Inspections => true
    case Passes => r.None? || r.value.action == Pass
    case Drops => r.Some? && r.value.action == Drop && mode == Inline
    case Alerts => r.Some? && (r.value.action == Alert || (r.value.action == Drop && mode == Tap))
    case RuleMatches => r.Some?
  }

  /** How many evaluations of a run are of a kind. */
  function Tally(k: Kind, s: Setup, ops: seq<Op>): nat
    decreases |ops|
  {
    if ops == [] then 0
    else
      Tally(k, Change(s, ops[0]), ops[1..])
      + (if ops[0].Evaluate? && CountsAs(k, s.mode, FirstMatch(s.rules, ops[0].probe)) then 1 else 0)
  }

  /** The hits of `id` after a run that starts with `n`: its matches since it was
      last removed. */
  function HitsOf(id: string, n: nat, s: Setup, ops: seq<Op>): nat
    decreases |ops|
  {
    if ops == [] then n
    else
      var r := if ops[0].Evaluate? then FirstMatch(s.rules, ops[0].probe) else None;
      var n' := if r.Some? && r.value.id == id then n + 1
                else if ops[0] == RemoveRule(id) && id in Ids(s.rules) then 0
                else n;
      HitsOf(id, n', Change(s, ops[0]), ops[1..])
  }

  /** One step of the engine against the setup and the kinds. */
  lemma StepCounts(e: Engine, op: Op, id: string)
    ensures var e', s := Apply(e, op), Setup(e.mode, e.rules);
            var r := if op.Evaluate? then FirstMatch(s.rules, op.probe) else None;
            var of := (k: Kind) => if op.Evaluate? && CountsAs(k, s.mode, r) then 1 else 0;
            && Setup(e'.mode, e'.rules) == Change(s, op) && e'.default == e.default
            && e'.stats.inspected == e.stats.inspected + of(Inspections)
            && e'.stats.passed == e.stats.passed + of(Passes)
            && e'.stats.dropped == e.stats.dropped + of(Drops)
            && e'.stats.alerted == e.stats.alerted + of(Alerts)
            && e'.stats.rulesMatched == e.stats.rulesMatched + of(RuleMatches)
            && HitCount(e'.hits, id) ==
               if r.Some? && r.value.id == id then HitCount(e.hits, id) + 1
               else if op == RemoveRule(id) && id in Ids(s.rules) then 0
               else HitCount(e.hits, id)
  {
    if op.RemoveRule? {
      WithoutShorter(e.rules, op.id);
    }
  }

  /** Every counter is what it is meant to count, over any run. */
  lemma {:induction false} RunCounts(e: Engine, ops: seq<Op>, id: string)
    ensures var e', s := RunOps(e, ops), Setup(e.mode, e.rules);
            && e'.stats.inspected == e.stats.inspected + Tally(Inspections, s, ops)
            && e'.stats.passed == e.stats.passed + Tally(Passes, s, ops)
            && e'.stats.dropped == e.stats.dropped + Tally(Drops, s, ops)
            && e'.stats.alerted == e.stats.alerted + Tally(Alerts, s, ops)
            && e'.stats.rulesMatched == e.stats.rulesMatched + Tally(RuleMatches, s, ops)
            && HitCount(e'.hits, id) == HitsOf(id, HitCount(e.hits, id), s, ops)
    decreases |ops|
  {
    if ops != [] {
      StepCounts(e, ops[0], id);
      RunCounts(Apply(e, ops[0]), ops[1..], id);
    }
  }

  /** From a new engine: inspections count the evaluations; passes those decided by
      a Pass rule or by none; drops those decided by a Drop rule while inline;
      alerts those decided by an Alert rule, or by a Drop rule while in Tap mode;
      and a rule's hits are its matches since it was last removed. */
  lemma CountersExact(mode: Mode, default: Verdict, ops: seq<Op>, id: string)
    ensures var e, s := RunOps(New(mode, default), ops), Setup(mode, []);
            && e.stats.inspected == Tally(Inspections, s, ops)
            && e.stats.passed == Tally(Passes, s, ops)
            && e.stats.dropped == Tally(Drops, s, ops)
            && e.stats.alerted == Tally(Alerts, s, ops)
            && e.stats.rulesMatched == Tally(RuleMatches, s, ops)
            && HitCount(e.hits, id) == HitsOf(id, 0, s, ops)
  {
    RunCounts(New(mode, default), ops, id);
  }

  /** Every rule called `id` stands behind an enabled rule called `keeper` that is
      pointwise weaker; `guards` are the criteria of keepers already passed. */
  predicate Guarded(rules: seq<Rule>, guards: set<Criteria>, keeper: string, id: string) {
    rules == [] ||
    ((rules[0].id == id ==> exists g :: g in guards && Covers(g, rules[0].criteria)) &&
     Guarded(rules[1..],
             if rules[0].id == keeper && rules[0].enabled then guards + {rules[0].criteria} else guards, keeper, id))
  }

  lemma {:induction false} GuardedNeverDecides(rules: seq<Rule>, guards: set<Criteria>, keeper: string, id: string,
                                               p: Probe)
    requires Guarded(rules, guards, keeper, id) && forall g :: g in guards ==> !Matches(g, p)
    ensures FirstMatch(rules, p).Some? ==> FirstMatch(rules, p).value.id != id
  {
    if rules != [] {
      if rules[0].enabled && Matches(rules[0].criteria, p) {
        if rules[0].id == id {
          var g :| g in guards && Covers(g, rules[0].criteria);
          CoversSound(g, rules[0].criteria, p);
          assert false;
        }
      } else {
        GuardedNeverDecides(rules[1..],
          if rules[0].id == keeper && rules[0].enabled then guards + {rules[0].criteria} else guards, keeper, id, p);
      }
    }
  }

  lemma {:induction false} GuardedWithout(rules: seq<Rule>, guards: set<Criteria>, keeper: string, id: string,
                                          gone: string)
    requires Guarded(rules, guards, keeper, id) && gone != keeper
    ensures Guarded(Without(rules, gone), guards, keeper, id)
  {
    if rules != [] {
      var guards' := if rules[0].id == keeper && rules[0].enabled then guards + {rules[0].criteria} else guards;
      GuardedWithout(rules[1..], guards', keeper, id, gone);
      if rules[0].id != gone {
        assert ([rules[0]] + Without(rules[1..], gone))[1..] == Without(rules[1..], gone);
      } else {
        assert [] + Without(rules[1..], gone) == Without(rules[1..], gone);
      }
    }
  }

  lemma {:induction false} GuardedAppend(rules: seq<Rule>, guards: set<Criteria>, keeper: string, id: string, r: Rule)
    requires Guarded(rules, guards, keeper, id) && r.id != id
    ensures Guarded(rules + [r], guards, keeper, id)
  {
    if rules != [] {
      var guards' := if rules[0].id == keeper && rules[0].enabled then guards + {rules[0].criteria} else guards;
      GuardedAppend(rules[1..], guards', keeper, id, r);
      assert (rules + [r])[1..] == rules[1..] + [r];
    }
  }

  /** A run that neither removes the keeper nor loads another rule called `id`. */
  predicate Keeps(ops: seq<Op>, keeper: string, id: string) {
    forall op :: op in ops ==>
      (op.AddRule? ==> op.rule.id != id) && (op.RemoveRule? ==> op.id != keeper)
  }

  /** A shadowed rule never gains a hit in any run that keeps the earlier rule. */
  lemma {:induction false} ShadowedNeverHit(e: Engine, ops: seq<Op>, keeper: string, id: string)
    requires Guarded(e.rules, {}, keeper, id) && Keeps(ops, keeper, id)
    ensures HitCount(RunOps(e, ops).hits, id) <= HitCount(e.hits, id)
    ensures Guarded(RunOps(e, ops).rules, {}, keeper, id)
    decreases |ops|
  {
    if ops != [] {
      assert ops[0] in ops;
      match ops[0] {
        case Evaluate(p) => GuardedNeverDecides(e.rules, {}, keeper, id, p);
        case AddRule(r) => GuardedAppend(e.rules, {}, keeper, id, r);
        case RemoveRule(gone) => GuardedWithout(e.rules, {}, keeper, id, gone);
        case SetMode(_) =>
      }
      ShadowedNeverHit(Apply(e, ops[0]), ops[1..], keeper, id);
    }
  }

  predicate UniqueIds(rules: seq<Rule>) {
    forall i, j :: 0 <= i < j < |rules| ==> rules[i].id != rules[j].id
  }

  /** The dashboard refuses to add a rule whose id is already loaded. */
  function DashboardAdd(e: Engine, r: Rule): Engine {
    if r.id in Ids(e.rules) then e else Added(e, r)
  }

  /** The dashboard's total: the hits of each listed rule, added up. */
  function ListedHits(rules: seq<Rule>, hits: map<string, nat>): nat {
    if rules == [] then 0 else HitCount(hits, rules[0].id) + ListedHits(rules[1..], hits)
  }

  lemma {:induction false} ListedWithoutKey(rules: seq<Rule>, hits: map<string, nat>, id: string)
    requires id !in Ids(rules)
    ensures ListedHits(rules, hits) == ListedHits(rules, hits - {id})
  {
    if rules != [] {
      assert rules[0] in rules;
      assert forall r :: r in rules[1..] ==> r in rules;
      ListedWithoutKey(rules[1..], hits, id);
    }
  }

  /** With unique ids the listed total is the sum of all hit counters. */
  lemma {:induction false} ListedTotal(rules: seq<Rule>, hits: map<string, nat>)
    requires UniqueIds(rules) && hits.Keys == Ids(rules)
    ensures ListedHits(rules, hits) == Total(hits, Self())
  {
    if rules == [] {
      assert hits == map[];
    } else {
      var id := rules[0].id;
      assert rules == [rules[0]] + rules[1..];
      IdsCons(rules[0], rules[1..]);
      assert id !in Ids(rules[1..]);
      ListedTotal(rules[1..], hits - {id});
      ListedWithoutKey(rules[1..], hits, id);
      TotalRemove(hits, id, Self());
    }
  }

  lemma UniqueAfterAdd(e: Engine, r: Rule)
    requires UniqueIds(e.rules)
    ensures UniqueIds(DashboardAdd(e, r).rules)
  {
    if r.id !in Ids(e.rules) {
      forall i | 0 <= i < |e.rules| ensures e.rules[i].id != r.id {
        assert e.rules[i] in e.rules;
      }
    }
  }

  lemma {:induction false} UniqueWithout(rules: seq<Rule>, id: string)
    requires UniqueIds(rules)
    ensures UniqueIds(Without(rules, id))
  {
    if rules != [] {
      UniqueWithout(rules[1..], id);
      var rest := Without(rules[1..], id);
      WithoutShorter(rules[1..], id);
      if rules[0].id != id {
        forall i | 0 <= i < |rest| ensures rest[i].id != rules[0].id {
          assert rest[i] in rest;
          assert rest[i].id in Ids(rest);
          var r :| r in rules[1..] && r.id == rest[i].id;
          var j :| 0 <= j < |rules[1..]| && rules[1..][j] == r;
          assert rules[j + 1].id == r.id;
        }
      } else {
        assert [] + rest == rest;
      }
    }
  }

  lemma DefaultIdsUnique()
    ensures UniqueIds(DefaultRules())
  {
    var rs := DefaultRules();
    assert rs[0].id[7..] == "001" && rs[1].id[7..] == "002" && rs[2].id[7..] == "003";
    assert rs[3].id[3] == 'O' && rs[4].id[3] == 'O' && rs[0].id[3] == 'N' && rs[1].id[3] == 'N' && rs[2].id[3] == 'N';
    assert rs[3].id[8] == '1' && rs[4].id[8] == '2';
    assert rs[0].id[9] == '1' && rs[1].id[9] == '2' && rs[2].id[9] == '3';
  }

  /** What the dashboard and the capture loop do to the engine. */
  function Serve(e: Engine, op: Op): Engine {
    if op.AddRule? then DashboardAdd(e, op.rule) else Apply(e, op)
  }

  function ServeAll(e: Engine, ops: seq<Op>): Engine
    decreases |ops|
  {
    if ops == [] then e else ServeAll(Serve(e, ops[0]), ops[1..])
  }

  lemma {:induction false} ServeKeepsUnique(e: Engine, forgotten: nat, ops: seq<Op>)
    requires UniqueIds(e.rules) && Balanced(e, forgotten)
    ensures var e' := ServeAll(e, ops);
            UniqueIds(e'.rules) && ListedHits(e'.rules, e'.hits) == Total(e'.hits, Self())
    decreases |ops|
  {
    if ops == [] {
      ListedTotal(e.rules, e.hits);
    } else {
      var op := ops[0];
      if op.AddRule? {
        UniqueAfterAdd(e, op.rule);
      } else if op.RemoveRule? {
        UniqueWithout(e.rules, op.id);
      }
      ApplyKeepsBooks(e, forgotten, op);
      var more := if op.RemoveRule? then HitCount(e.hits, op.id) else 0;
      ServeKeepsUnique(Serve(e, op), if Serve(e, op) == e then forgotten else forgotten + more, ops[1..]);
    }
  }

  lemma AddingKeepsBooks(e: Engine, r: Rule)
    requires Balanced(e, 0)
    ensures Balanced(Added(e, r), 0)
  {
    ApplyKeepsBooks(e, 0, AddRule(r));
  }

  lemma Snoc(a: seq<Rule>, b: seq<Rule>)
    requires b != []
    ensures a + [b[0]] + b[1..] == a + b
  {
    assert b == [b[0]] + b[1..];
  }

  lemma {:induction false} LoadingKeepsBooks(e: Engine, rules: seq<Rule>)
    requires Balanced(e, 0)
    ensures Balanced(AddedAll(e, rules), 0) && AddedAll(e, rules).rules == e.rules + rules
    decreases |rules|
  {
    if rules == [] {
      assert e.rules + [] == e.rules;
    } else {
      AddingKeepsBooks(e, rules[0]);
      LoadingKeepsBooks(Added(e, rules[0]), rules[1..]);
      Snoc(e.rules, rules);
    }
  }

  /** In every run of the sensor, started with the built-in rules and served by
      the dashboard, rule ids are unique and the dashboard's hit total is the sum
      of all hit counters. */
  lemma DashboardTotals(mode: Mode, default: Verdict, ops: seq<Op>)
    ensures var e := ServeAll(AddedAll(New(mode, default), DefaultRules()), ops);
            UniqueIds(e.rules) && ListedHits(e.rules, e.hits) == Total(e.hits, Self())
  {
    var e := AddedAll(New(mode, default), DefaultRules());
    LoadingKeepsBooks(New(mode, default), DefaultRules());
    DefaultIdsUnique();
    assert e.rules == DefaultRules();
    ServeKeepsUnique(e, 0, ops);
  }
}
