/** The name parser of src/dissectors/dns.rs against RFC 1035 section 4.1.4. */
module Dns {
  import opened Wire
  import opened Text

  const DNS_HEADER_LEN := 12
  const MAX_JUMPS := 10
  const INVALID: bytes := [0x3C, 0x69, 0x6E, 0x76, 0x61, 0x6C, 0x69, 0x64, 0x3E]
  const DOT: byte := 0x2E

  datatype DnsInfo = DnsInfo(
    transactionId: u16,
    isResponse: bool,
    questionCount: u16,
    answerCount: u16,
    queryName: bytes,
    queryType: u16)

  /** What one run of the label loop comes to: a malformed segment, the end of
      the name, or a pointer; `next` is the offset reported to the caller. */
  datatype Segment =
    | Malformed
    | Ended(parts: seq<bytes>, next: nat)
    | Jumped(parts: seq<bytes>, target: nat, next: nat)

  function Pointer(hi: byte, lo: byte): (target: nat)
    requires hi >= 0xC0
    ensures target < 0x4000
  {
    (hi - 0xC0) * 0x100 + lo
  }

  /** The label loop; the source's `jumps` counts the labels read so far. */
  function ReadSegment(data: bytes, offset: nat, parts: seq<bytes>): (s: Segment)
    decreases |data| - offset
  {
    if offset >= |data| || |parts| > MAX_JUMPS then Malformed
    else
      var len := data[offset];
      if len == 0 then Ended(parts, offset + 1)
      else if len >= 0xC0 then
        if offset + 1 >= |data| then Malformed
        else Jumped(parts, Pointer(len, data[offset + 1]), if parts == [] then offset + 2 else offset)
      else if offset + 1 + len > |data| then Malformed
      else ReadSegment(data, offset + 1 + len, parts + [DecodeOr(data[offset + 1..offset + 1 + len], INVALID)])
  }

  /** The recursion ends within `hops` pointers. */
  predicate Halts(data: bytes, start: nat, hops: nat)
    decreases hops
  {
    var s := ReadSegment(data, start, []);
    s.Jumped? ==> hops > 0 && Halts(data, s.target, hops - 1)
  }

  function Join(parts: seq<bytes>): bytes {
    if parts == [] then []
    else if |parts| == 1 then parts[0]
    else parts[0] + [DOT] + Join(parts[1..])
  }

  /** The parsed name and the reported offset. */
  function NameOf(data: bytes, start: nat, hops: nat): Option<(bytes, nat)>
    requires Halts(data, start, hops)
    decreases hops
  {
    match ReadSegment(data, start, [])
    case Malformed => None
    case Ended(parts, next) => Some((Join(parts), next))
    case Jumped(parts, target, next) =>
      var tail := NameOf(data, target, hops - 1);
      if tail.None? then Some((Join(parts), next))
      else if parts == [] then Some((tail.value.0, next))
      else Some((Join(parts + [tail.value.0]), next))
  }

  /** The parser.  It returns exactly on the inputs whose pointer chain ends. */
  method ParseDnsName(data: bytes, start: nat, ghost hops: nat) returns (r: Option<(bytes, nat)>)
    requires Halts(data, start, hops)
    ensures r == NameOf(data, start, hops)
    decreases hops
  {
    var nameParts := [];
    var offset := start;
    var jumps := 0;

    while true
      invariant jumps == |nameParts|
      invariant ReadSegment(data, offset, nameParts) == ReadSegment(data, start, [])
      decreases |data| - offset
    {
      if offset >= |data| || jumps > MAX_JUMPS {
        return None;
      }
      var len := data[offset];
      if len == 0 {
        offset := offset + 1;
        break;
      }
      if len >= 0xC0 {
        if offset + 1 >= |data| {
          return None;
        }
        var pointer := Pointer(len, data[offset + 1]);
        if jumps == 0 {
          offset := offset + 2;
        }
        var tail := ParseDnsName(data, pointer, hops - 1);
        if tail.Some? {
          if nameParts != [] {
            nameParts := nameParts + [tail.value.0];
          } else {
            return Some((tail.value.0, offset));
          }
        }
        return Some((Join(nameParts), offset));
      }
      offset := offset + 1;
      if offset + len > |data| {
        return None;
      }
      nameParts := nameParts + [DecodeOr(data[offset..offset + len], INVALID)];
      offset := offset + len;
      jumps := jumps + 1;
    }

    r := Some((Join(nameParts), offset));
  }

  predicate HasQuestion(p: bytes) {
    |p| >= DNS_HEADER_LEN && At16(p, 4) > 0
  }

  /** What the dissector makes of a UDP payload. */
  function Dissected(p: bytes, hops: nat): Option<DnsInfo>
    requires HasQuestion(p) ==> Halts(p, DNS_HEADER_LEN, hops)
  {
    if |p| < DNS_HEADER_LEN then None
    else
      var name := if HasQuestion(p) then NameOf(p, DNS_HEADER_LEN, hops) else None;
      Some(DnsInfo(At16(p, 0), At16(p, 2) >= 0x8000, At16(p, 4), At16(p, 6),
        if name.Some? then name.value.0 else [],
        if name.Some? && name.value.1 + 2 <= |p| then At16(p, name.value.1) else 0))
  }

  method DissectDns(data: bytes, payloadOffset: nat, ghost hops: nat) returns (r: Option<DnsInfo>)
    requires payloadOffset <= |data| && HasQuestion(data[payloadOffset..]) ==>
               Halts(data[payloadOffset..], DNS_HEADER_LEN, hops)
    ensures r == if payloadOffset > |data| then None else Dissected(data[payloadOffset..], hops)
  {
    if payloadOffset > |data| {
      return None;
    }
    var payload := data[payloadOffset..];
    if |payload| < DNS_HEADER_LEN {
      return None;
    }

    var info := DnsInfo(
      FromBe16(payload[0], payload[1]),
      FromBe16(payload[2], payload[3]) >= 0x8000,
      FromBe16(payload[4], payload[5]),
      FromBe16(payload[6], payload[7]),
      [],
      0);

    if info.questionCount > 0 {
      var parsed := ParseDnsName(payload, DNS_HEADER_LEN, hops);
      if parsed.Some? {
        var (name, endOffset) := parsed.value;
        info := info.(queryName := name);
        if |payload| >= endOffset + 2 {
          info := info.(queryType := FromBe16(payload[endOffset], payload[endOffset + 1]));
        }
      }
    }

    r := Some(info);
  }
}

/** When the parser returns at all. */
module DnsTermination {
  import opened Wire
  import opened Dns

  const MAX_HOPS := 0x4000

  lemma {:induction false} HaltsMore(data: bytes, start: nat, n: nat, m: nat)
    requires Halts(data, start, n) && n <= m
    ensures Halts(data, start, m) && NameOf(data, start, m) == NameOf(data, start, n)
    decreases n
  {
    var s := ReadSegment(data, start, []);
    if s.Jumped? {
      HaltsMore(data, s.target, n - 1, m - 1);
    }
  }

  /** The number of pointers on the chain from `start`. */
  function Hops(data: bytes, start: nat, n: nat): nat
    requires Halts(data, start, n)
    decreases n
  {
    var s := ReadSegment(data, start, []);
    if s.Jumped? then 1 + Hops(data, s.target, n - 1) else 0
  }

  lemma {:induction false} HopsUnique(data: bytes, start: nat, n: nat, m: nat)
    requires Halts(data, start, n) && Halts(data, start, m)
    ensures Hops(data, start, n) == Hops(data, start, m)
    decreases n
  {
    var s := ReadSegment(data, start, []);
    if s.Jumped? {
      HopsUnique(data, s.target, n - 1, m - 1);
    }
  }

  lemma {:induction false} SegmentTarget(data: bytes, offset: nat, parts: seq<bytes>)
    ensures var s := ReadSegment(data, offset, parts); s.Jumped? ==> s.target < MAX_HOPS
    decreases |data| - offset
  {
    if offset < |data| && |parts| <= MAX_JUMPS && 0 < data[offset] < 0xC0 && offset + 1 + data[offset] <= |data| {
      SegmentTarget(data, offset + 1 + data[offset],
                    parts + [Text.DecodeOr(data[offset + 1..offset + 1 + data[offset]], INVALID)]);
    }
  }

  lemma {:induction false} BelowSize(s: set<nat>, bound: nat)
    requires forall x :: x in s ==> x < bound
    ensures |s| <= bound
  {
    if bound > 0 {
      BelowSize(s - {bound - 1}, bound - 1);
    } else {
      assert s == {};
    }
  }

  /** Every pointer on the chain aims strictly before its own segment. */
  predicate Backward(data: bytes, start: nat) {
    var s := ReadSegment(data, start, []);
    s.Jumped? ==> s.target < start && Backward(data, s.target)
  }

  /** Strictly backward pointers make the parser return. */
  lemma {:induction false} BackwardHalts(data: bytes, start: nat)
    requires Backward(data, start)
    ensures Halts(data, start, start)
  {
    var s := ReadSegment(data, start, []);
    if s.Jumped? {
      BackwardHalts(data, s.target);
      HaltsMore(data, s.target, s.target, start - 1);
    }
  }

  /** `b` is reached from `a` after `k` pointers. */
  predicate Reaches(data: bytes, a: nat, b: nat, k: nat)
    decreases k
  {
    if k == 0 then a == b
    else var s := ReadSegment(data, a, []); s.Jumped? && Reaches(data, s.target, b, k - 1)
  }

  lemma {:induction false} ReachesHops(data: bytes, a: nat, b: nat, k: nat, n: nat)
    requires Reaches(data, a, b, k) && Halts(data, a, n)
    ensures Halts(data, b, n) && Hops(data, a, n) == Hops(data, b, n) + k
    decreases k
  {
    if k > 0 {
      var s := ReadSegment(data, a, []);
      ReachesHops(data, s.target, b, k - 1, n - 1);
      HaltsMore(data, b, n - 1, n);
      HopsUnique(data, b, n - 1, n);
    }
  }

  /** A chain that comes back to an offset never ends: the label counter is local
      to each recursive call and does not bound the recursion. */
  lemma CycleNeverHalts(data: bytes, start: nat, b: nat, i: nat, k: nat, n: nat)
    requires Reaches(data, start, b, i) && Reaches(data, b, b, k) && k > 0
    ensures !Halts(data, start, n)
  {
    if Halts(data, start, n) {
      ReachesHops(data, start, b, i, n);
      ReachesHops(data, b, b, k, n);
    }
  }

  /** From `start` the chain comes, after `i` pointers, to an offset `b` that it
      comes back to after another `k`. */
  predicate CycleAt(data: bytes, start: nat, b: nat, i: nat, k: nat) {
    k > 0 && Reaches(data, start, b, i) && Reaches(data, b, b, k)
  }

  ghost predicate Cyclic(data: bytes, start: nat) {
    exists b: nat, i: nat, k: nat :: CycleAt(data, start, b, i, k)
  }

  lemma {:induction false} ReachesNext(data: bytes, a: nat, b: nat, k: nat)
    requires Reaches(data, a, b, k) && ReadSegment(data, b, []).Jumped?
    ensures Reaches(data, a, ReadSegment(data, b, []).target, k + 1)
    decreases k
  {
    if k > 0 {
      ReachesNext(data, ReadSegment(data, a, []).target, b, k - 1);
    } else {
      assert Reaches(data, ReadSegment(data, b, []).target, ReadSegment(data, b, []).target, 0);
    }
  }

  /** The chain from `start` passes `x` on its way to `at`. */
  ghost predicate Passes(data: bytes, start: nat, x: nat, at: nat) {
    exists i: nat, k: nat :: Reaches(data, start, x, i) && Reaches(data, x, at, k)
  }

  lemma PassesNext(data: bytes, start: nat, x: nat, at: nat)
    requires Passes(data, start, x, at) && ReadSegment(data, at, []).Jumped?
    ensures var t := ReadSegment(data, at, []).target;
            Passes(data, start, x, t) && (x == t ==> Cyclic(data, start))
  {
    var i: nat, k: nat :| Reaches(data, start, x, i) && Reaches(data, x, at, k);
    ReachesNext(data, x, at, k);
    assert x == ReadSegment(data, at, []).target ==> CycleAt(data, start, x, i, k + 1);
  }

  /** A chain without a cycle visits a new target with every pointer, and there
      are only as many as two pointer bytes can name. */
  lemma {:induction false} AcyclicHalts(data: bytes, start: nat, at: nat, i: nat, visited: set<nat>, room: nat)
    requires !Cyclic(data, start) && Reaches(data, start, at, i)
    requires forall x :: x in visited ==> x < MAX_HOPS && Passes(data, start, x, at)
    requires |visited| + room == MAX_HOPS
    ensures Halts(data, at, room)
    decreases room
  {
    var s := ReadSegment(data, at, []);
    if s.Jumped? {
      SegmentTarget(data, at, []);
      forall x | x in visited ensures x != s.target && Passes(data, start, x, s.target) {
        PassesNext(data, start, x, at);
      }
      BelowSize(visited + {s.target}, MAX_HOPS);
      ReachesNext(data, start, at, i);
      assert Reaches(data, s.target, s.target, 0);
      AcyclicHalts(data, start, s.target, i + 1, visited + {s.target}, room - 1);
    }
  }

  /** The recursion ends at some depth. */
  ghost predicate Returns(data: bytes, start: nat) {
    exists n: nat :: Halts(data, start, n)
  }

  lemma HaltsReturns(data: bytes, start: nat, n: nat)
    requires Halts(data, start, n)
    ensures Returns(data, start)
  {
  }

  /** Exactly when the parser returns: its pointer chain never comes back to an
      offset it has been at. */
  lemma ReturnsIffAcyclic(data: bytes, start: nat)
    ensures Returns(data, start) <==> !Cyclic(data, start)
    ensures !Cyclic(data, start) ==> Halts(data, start, MAX_HOPS)
  {
    if Cyclic(data, start) {
      var b: nat, i: nat, k: nat :| CycleAt(data, start, b, i, k);
      forall n: nat ensures !Halts(data, start, n) {
        CycleNeverHalts(data, start, b, i, k, n);
      }
    } else {
      assert Reaches(data, start, start, 0);
      AcyclicHalts(data, start, start, 0, {}, MAX_HOPS);
      HaltsReturns(data, start, MAX_HOPS);
    }
  }

  /** So a caller can decide it: following 16384 pointers, one per offset that a
      pointer can name, is enough. */
  lemma ReturnsIffWithinMaxHops(data: bytes, start: nat)
    ensures Returns(data, start) <==> Halts(data, start, MAX_HOPS)
  {
    ReturnsIffAcyclic(data, start);
  }

  /** A query whose first name points at itself: the dissector never returns. */
  lemma SelfPointerWitness(n: nat)
    ensures var p: bytes := [0, 0, 0, 0, 0, 1, 0, 0, 0, 0, 0, 0, 0xC0, 0x0C];
            HasQuestion(p) && !Halts(p, DNS_HEADER_LEN, n)
  {
    var p: bytes := [0, 0, 0, 0, 0, 1, 0, 0, 0, 0, 0, 0, 0xC0, 0x0C];
    assert ReadSegment(p, 12, []) == Jumped([], 12, 14);
    assert Reaches(p, 12, 12, 0);
    CycleNeverHalts(p, 12, 12, 0, 1, n);
  }
}

/** What the parser returns on names laid out as the RFC describes. */
module DnsNames {
  import opened Wire
  import opened Text
  import opened Dns
  import DnsTermination

  /** A name as it lies in a message: labels, then the root or a pointer to the
      rest of the name. */
  datatype WireName =
    | Root
    | Label(text: bytes, rest: WireName)
    | Compressed(target: nat, rest: WireName)

  /** `w` is written in `data` at `off`. */
  predicate Written(data: bytes, off: nat, w: WireName)
    decreases w
  {
    match w
    case Root => off < |data| && data[off] == 0
    case Label(text, rest) =>
      && 1 <= |text| <= 63 && off + 1 + |text| <= |data|
      && data[off] == |text| && data[off + 1..off + 1 + |text|] == text
      && Written(data, off + 1 + |text|, rest)
    case Compressed(target, rest) =>
      && off + 1 < |data| && data[off] >= 0xC0 && Pointer(data[off], data[off + 1]) == target
      && Written(data, target, rest)
  }

  /** At most ten labels between two pointers, `used` of them already read. */
  predicate ShortSegments(w: WireName, used: nat) {
    match w
    case Root => true
    case Label(_, rest) => used < 10 && ShortSegments(rest, used + 1)
    case Compressed(_, rest) => ShortSegments(rest, 0)
  }

  /** The character codes of a text. */
  function Codes(s: string): bytes
    requires forall i :: 0 <= i < |s| ==> s[i] as int < 0x100
  {
    seq(|s|, i requires 0 <= i < |s| => s[i] as int)
  }

  /** A label as text: its own bytes when they are UTF-8. */
  function LabelText(text: bytes): (t: bytes)
    ensures text != [] ==> t != []
  {
    if IsUtf8(text) then text else Codes("<invalid>")
  }

  lemma LabelDecoded(text: bytes)
    ensures DecodeOr(text, INVALID) == LabelText(text)
  {
    assert INVALID == Codes("<invalid>");
  }

  /** All labels along the pointer chain, as text. */
  function Labels(w: WireName): seq<bytes> {
    match w
    case Root => []
    case Label(text, rest) => [LabelText(text)] + Labels(rest)
    case Compressed(_, rest) => Labels(rest)
  }

  /** The labels before the first pointer. */
  function SegmentLabels(w: WireName): seq<bytes> {
    match w
    case Root => []
    case Label(text, rest) => [LabelText(text)] + SegmentLabels(rest)
    case Compressed(_, _) => []
  }

  /** The pointer that ends the first segment, or the root. */
  function SegmentEnd(w: WireName): (e: WireName)
    ensures !e.Label? && (e == w || e < w)
  {
    match w
    case Label(_, rest) => SegmentEnd(rest)
    case _ => w
  }

  /** The offset just past the name. */
  function EndOffset(w: WireName, off: nat): (end: nat)
    ensures end > off && (SegmentEnd(w).Compressed? ==> end > off + 1)
  {
    match w
    case Root => off + 1
    case Label(text, rest) => EndOffset(rest, off + 1 + |text|)
    case Compressed(_, _) => off + 2
  }

  function Pointers(w: WireName): nat {
    match w
    case Root => 0
    case Label(_, rest) => Pointers(rest)
    case Compressed(_, rest) => 1 + Pointers(rest)
  }

  /** The last label is followed by a pointer to nothing but the root. */
  predicate Dangling(w: WireName) {
    match w
    case Root => false
    case Label(_, rest) => (rest.Compressed? && Labels(rest) == []) || Dangling(rest)
    case Compressed(_, rest) => Dangling(rest)
  }

  predicate LabelThenPointer(w: WireName) {
    w.Label? && SegmentEnd(w).Compressed?
  }

  /** The dotted name the parser builds. */
  function Dotted(w: WireName): bytes {
    Join(Labels(w)) + if Dangling(w) then [DOT] else []
  }

  /** One turn of the label loop. */
  lemma ReadLabel(data: bytes, off: nat, text: bytes, parts: seq<bytes>)
    requires 1 <= |text| <= 63 && off + 1 + |text| <= |data| && |parts| <= 10
    requires data[off] == |text| && data[off + 1..off + 1 + |text|] == text
    ensures ReadSegment(data, off, parts) == ReadSegment(data, off + 1 + |text|, parts + [LabelText(text)])
  {
    LabelDecoded(text);
  }

  /** Its last turn, at the root or a pointer. */
  lemma ReadLast(data: bytes, off: nat, w: WireName, parts: seq<bytes>)
    requires Written(data, off, w) && !w.Label? && |parts| <= 10
    ensures var s := ReadSegment(data, off, parts);
            match w
            case Root => s == Ended(parts, off + 1)
            case Compressed(target, _) => s == Jumped(parts, target, if parts == [] then off + 2 else off)
            case Label(_, _) => false
  {
  }

  /** What the label loop makes of the first segment of `w` after `parts`. */
  function SegmentRead(w: WireName, off: nat, parts: seq<bytes>): Segment {
    var read, e := parts + SegmentLabels(w), SegmentEnd(w);
    if e.Compressed? then Jumped(read, e.target, EndOffset(w, off) - if read == [] then 0 else 2)
    else Ended(read, EndOffset(w, off))
  }

  lemma SegmentStep(w: WireName, off: nat, parts: seq<bytes>, next: nat)
    requires w.Label? && next == off + 1 + |w.text|
    ensures SegmentRead(w.rest, next, parts + [LabelText(w.text)]) == SegmentRead(w, off, parts)
  {
    assert parts + [LabelText(w.text)] + SegmentLabels(w.rest) == parts + ([LabelText(w.text)] + SegmentLabels(w.rest));
  }

  /** The label loop reads the first segment of a written name. */
  lemma {:induction false} SegmentOfName(data: bytes, off: nat, w: WireName, parts: seq<bytes>)
    requires Written(data, off, w) && |parts| + |SegmentLabels(w)| <= 10
    ensures ReadSegment(data, off, parts) == SegmentRead(w, off, parts)
    decreases w
  {
    if w.Label? {
      var word, next := LabelText(w.text), off + 1 + |w.text|;
      ReadLabel(data, off, w.text, parts);
      SegmentOfName(data, next, w.rest, parts + [word]);
      SegmentStep(w, off, parts, next);
    } else {
      ReadLast(data, off, w, parts);
      assert parts + SegmentLabels(w) == parts;
    }
  }

  /** An eleventh label in one segment is more than it reads. */
  lemma {:induction false} SegmentTooLong(data: bytes, off: nat, w: WireName, parts: seq<bytes>)
    requires Written(data, off, w) && |parts| <= 10 < |parts| + |SegmentLabels(w)|
    ensures ReadSegment(data, off, parts) == Malformed
    decreases w
  {
    ReadLabel(data, off, w.text, parts);
    if |parts| < 10 {
      SegmentTooLong(data, off + 1 + |w.text|, w.rest, parts + [LabelText(w.text)]);
    }
  }

  /** Segment by segment: the first has room, and the rest of the name is short. */
  lemma {:induction false} ShortIff(w: WireName, used: nat)
    requires used <= 10
    ensures ShortSegments(w, used) <==>
            used + |SegmentLabels(w)| <= 10 && (SegmentEnd(w).Compressed? ==> ShortSegments(SegmentEnd(w).rest, 0))
  {
    if w.Label? && used < 10 {
      ShortIff(w.rest, used + 1);
    }
  }

  lemma {:induction false} TailOfName(data: bytes, off: nat, w: WireName)
    requires Written(data, off, w)
    ensures var e := SegmentEnd(w);
            e.Compressed? ==>
              && Written(data, e.target, e.rest)
              && Pointers(w) == 1 + Pointers(e.rest)
              && Labels(w) == SegmentLabels(w) + Labels(e.rest)
    ensures SegmentEnd(w).Root? ==> Pointers(w) == 0 && Labels(w) == SegmentLabels(w) && !Dangling(w)
    decreases w
  {
    if w.Label? {
      var e := SegmentEnd(w);
      TailOfName(data, off + 1 + |w.text|, w.rest);
      assert e == SegmentEnd(w.rest);
      if e.Compressed? {
        Regroup([LabelText(w.text)], SegmentLabels(w.rest), Labels(e.rest), []);
        assert Labels(w) == [LabelText(w.text)] + (SegmentLabels(w.rest) + Labels(e.rest));
        assert SegmentLabels(w) + Labels(e.rest)
            == [LabelText(w.text)] + SegmentLabels(w.rest) + Labels(e.rest);
      }
    }
  }

  lemma {:induction false} DanglingIff(w: WireName)
    requires SegmentEnd(w).Compressed?
    ensures Dangling(w) <==> Dangling(SegmentEnd(w).rest) || (w.Label? && Labels(SegmentEnd(w).rest) == [])
    ensures w.Label? <==> SegmentLabels(w) != []
    ensures Labels(SegmentEnd(w).rest) == [] ==> !Dangling(SegmentEnd(w).rest)
  {
    NoLabelsNoDangling(SegmentEnd(w).rest);
    if w.Label? {
      DanglingIff(w.rest);
    }
  }

  lemma {:induction false} NoLabelsNoDangling(w: WireName)
    ensures Labels(w) == [] ==> !Dangling(w)
  {
    if w.Compressed? {
      NoLabelsNoDangling(w.rest);
    }
  }

  lemma {:induction false} JoinTail(parts: seq<bytes>, tail: bytes)
    requires parts != []
    ensures Join(parts + [tail]) == Join(parts) + [DOT] + tail
  {
    if |parts| == 1 {
      assert (parts + [tail])[1..] == [tail];
    } else {
      JoinTail(parts[1..], tail);
      assert (parts + [tail])[1..] == parts[1..] + [tail];
    }
  }

  lemma {:induction false} JoinConcat(a: seq<bytes>, b: seq<bytes>)
    requires a != [] && b != []
    ensures Join(a + b) == Join(a) + [DOT] + Join(b)
  {
    if |a| == 1 {
      assert (a + b)[1..] == b;
    } else {
      JoinConcat(a[1..], b);
      assert (a + b)[1..] == a[1..] + b;
    }
  }

  /** Joining a segment to the parsed tail gives the dotted name. */
  lemma DottedStep(w: WireName, e: WireName)
    requires e == SegmentEnd(w) && e.Compressed? && Labels(w) == SegmentLabels(w) + Labels(e.rest)
    ensures SegmentLabels(w) == [] ==> !w.Label? && Dotted(w) == Dotted(e.rest)
    ensures SegmentLabels(w) != [] ==> w.Label? && Dotted(w) == Join(SegmentLabels(w) + [Dotted(e.rest)])
  {
    DanglingIff(w);
    var own, rest := SegmentLabels(w), Labels(e.rest);
    if own == [] {
      assert Labels(w) == rest;
    } else {
      JoinTail(own, Dotted(e.rest));
      if rest != [] {
        JoinConcat(own, rest);
      } else {
        assert own + rest == own;
        assert Dotted(e.rest) == [];
        assert Join(own) + [DOT] + [] == Join(own) + [DOT];
      }
    }
  }

  /** The text a segment and what its pointer leads to add up to. */
  function Joined(parts: seq<bytes>, tail: Option<(bytes, nat)>): bytes {
    if tail.None? then Join(parts)
    else if parts == [] then tail.value.0
    else Join(parts + [tail.value.0])
  }

  lemma NameStep(data: bytes, off: nat, parts: seq<bytes>, target: nat, next: nat, hops: nat)
    requires ReadSegment(data, off, []) == Jumped(parts, target, next) && Halts(data, target, hops)
    ensures Halts(data, off, hops + 1)
    ensures NameOf(data, off, hops + 1) == Some((Joined(parts, NameOf(data, target, hops)), next))
  {
  }

  lemma NameEnds(data: bytes, off: nat, parts: seq<bytes>, next: nat)
    requires ReadSegment(data, off, []) == Ended(parts, next)
    ensures Halts(data, off, 0) && NameOf(data, off, 0) == Some((Join(parts), next))
  {
  }

  /** The offset reported for a name. */
  function Reported(w: WireName, off: nat): (next: nat)
    ensures next <= EndOffset(w, off)
  {
    EndOffset(w, off) - if LabelThenPointer(w) then 2 else 0
  }

  /** The label loop's verdict on a name that goes on behind a pointer. */
  lemma SegmentJumps(data: bytes, off: nat, w: WireName)
    requires Written(data, off, w) && |SegmentLabels(w)| <= 10 && SegmentEnd(w).Compressed?
    ensures ReadSegment(data, off, []) == Jumped(SegmentLabels(w), SegmentEnd(w).target, Reported(w, off))
  {
    SegmentOfName(data, off, w, []);
    DanglingIff(w);
    assert [] + SegmentLabels(w) == SegmentLabels(w);
  }

  /** The case of a name that goes on behind a pointer. */
  lemma NameJumps(data: bytes, off: nat, w: WireName)
    requires Written(data, off, w) && |SegmentLabels(w)| <= 10 && SegmentEnd(w).Compressed?
    requires Halts(data, SegmentEnd(w).target, Pointers(SegmentEnd(w).rest))
    ensures Halts(data, off, Pointers(w))
    ensures var e := SegmentEnd(w);
            NameOf(data, off, Pointers(w)) ==
            Some((Joined(SegmentLabels(w), NameOf(data, e.target, Pointers(e.rest))), Reported(w, off)))
  {
    var e := SegmentEnd(w);
    SegmentJumps(data, off, w);
    TailOfName(data, off, w);
    NameStep(data, off, SegmentLabels(w), e.target, Reported(w, off), Pointers(e.rest));
  }

  /** The case of a name without pointers. */
  lemma NameStops(data: bytes, off: nat, w: WireName)
    requires Written(data, off, w) && |SegmentLabels(w)| <= 10 && SegmentEnd(w).Root?
    ensures Pointers(w) == 0 && Halts(data, off, 0)
    ensures NameOf(data, off, 0) == Some((Dotted(w), Reported(w, off)))
  {
    TailOfName(data, off, w);
    SegmentOfName(data, off, w, []);
    assert [] + SegmentLabels(w) == SegmentLabels(w);
    NameEnds(data, off, SegmentLabels(w), EndOffset(w, off));
    assert Join(Labels(w)) + [] == Join(Labels(w));
  }

  /** The case of a first segment of eleven labels or more. */
  lemma NameRefused(data: bytes, off: nat, w: WireName, hops: nat)
    requires Written(data, off, w) && |SegmentLabels(w)| > 10
    ensures Halts(data, off, hops) && NameOf(data, off, hops) == None
  {
    SegmentTooLong(data, off, w, []);
  }

  /** The parser returns on every written name; it refuses exactly those with
      more than ten labels before the first pointer, and otherwise reports an
      offset that is two short exactly when labels precede that pointer. */
  lemma {:induction false} OffsetOfName(data: bytes, off: nat, w: WireName)
    requires Written(data, off, w)
    ensures Halts(data, off, Pointers(w))
    ensures var r := NameOf(data, off, Pointers(w));
            && (r.Some? <==> |SegmentLabels(w)| <= 10)
            && (r.Some? ==> r.value.1 == Reported(w, off))
    decreases Pointers(w)
  {
    if |SegmentLabels(w)| > 10 {
      NameRefused(data, off, w, Pointers(w));
    } else if SegmentEnd(w).Compressed? {
      TailOfName(data, off, w);
      OffsetOfName(data, SegmentEnd(w).target, SegmentEnd(w).rest);
      NameJumps(data, off, w);
    } else {
      NameStops(data, off, w);
    }
  }

  /** Decompression: on a written name with at most ten labels per segment the
      parser returns the labels along the whole pointer chain, dotted. */
  lemma {:induction false} Decompression(data: bytes, off: nat, w: WireName)
    requires Written(data, off, w) && ShortSegments(w, 0)
    ensures Halts(data, off, Pointers(w))
    ensures NameOf(data, off, Pointers(w)) == Some((Dotted(w), Reported(w, off)))
    decreases Pointers(w)
  {
    TailOfName(data, off, w);
    ShortIff(w, 0);
    var e := SegmentEnd(w);
    if e.Compressed? {
      Decompression(data, e.target, e.rest);
      NameJumps(data, off, w);
      DottedStep(w, e);
    } else {
      NameStops(data, off, w);
    }
  }

  lemma {:induction false} FirstLabel(data: bytes, off: nat, w: WireName)
    requires Written(data, off, w) && Labels(w) != []
    ensures Labels(w)[0] != []
    decreases w
  {
    if w.Compressed? {
      FirstLabel(data, w.target, w.rest);
    }
  }

  lemma JoinNonEmpty(parts: seq<bytes>)
    requires parts != [] && parts[0] != []
    ensures Join(parts) != []
  {
  }

  lemma {:induction false} LongHasLabels(w: WireName, used: nat)
    requires used <= 10 && !ShortSegments(w, used)
    ensures Labels(w) != []
  {
    if w.Compressed? {
      LongHasLabels(w.rest, 0);
    }
  }

  /** A tail that is cut short or refused makes the whole text too short. */
  lemma JoinedShorter(own: seq<bytes>, rest: seq<bytes>, tail: Option<(bytes, nat)>)
    requires rest != [] && rest[0] != []
    requires tail.Some? ==> |tail.value.0| < |Join(rest)|
    ensures |Joined(own, tail)| < |Join(own + rest)|
  {
    JoinNonEmpty(rest);
    if own == [] {
      assert own + rest == rest;
    } else {
      JoinConcat(own, rest);
      if tail.Some? {
        JoinTail(own, tail.value.0);
      }
    }
  }

  /** A name with a longer segment is refused, or cut where that segment starts. */
  lemma {:induction false} LongNameCut(data: bytes, off: nat, w: WireName)
    requires Written(data, off, w) && !ShortSegments(w, 0)
    ensures Halts(data, off, Pointers(w))
    ensures var r := NameOf(data, off, Pointers(w)); r.Some? ==> |r.value.0| < |Join(Labels(w))|
    decreases Pointers(w)
  {
    ShortIff(w, 0);
    TailOfName(data, off, w);
    if |SegmentLabels(w)| > 10 {
      NameRefused(data, off, w, Pointers(w));
    } else {
      var e := SegmentEnd(w);
      LongNameCut(data, e.target, e.rest);
      NameJumps(data, off, w);
      LongHasLabels(e.rest, 0);
      FirstLabel(data, e.target, e.rest);
      JoinedShorter(SegmentLabels(w), Labels(e.rest), NameOf(data, e.target, Pointers(e.rest)));
    }
  }

  /** On every written name: the parser returns exactly the dotted labels if and
      only if no segment has more than ten of them and no label is followed by
      pointers to the bare root, and exactly the end of the name if and only if
      no labels precede its first pointer. */
  lemma ExactNameAndOffset(data: bytes, off: nat, w: WireName)
    requires Written(data, off, w)
    ensures Halts(data, off, Pointers(w))
    ensures var r := NameOf(data, off, Pointers(w));
            && (r.Some? <==> |SegmentLabels(w)| <= 10)
            && (r.Some? && r.value.0 == Join(Labels(w)) <==> ShortSegments(w, 0) && !Dangling(w))
            && (r.Some? ==> (r.value.1 == EndOffset(w, off) <==> !LabelThenPointer(w)))
  {
    OffsetOfName(data, off, w);
    if ShortSegments(w, 0) {
      Decompression(data, off, w);
    } else {
      LongNameCut(data, off, w);
    }
  }

  /** Pointers to a prior occurrence only: each segment ends in a pointer that
      aims strictly before `start`, where the segment begins. */
  predicate PriorOccurrence(w: WireName, start: nat) {
    var e := SegmentEnd(w);
    e.Compressed? ==> e.target < start && PriorOccurrence(e.rest, e.target)
  }

  /** What RFC 1035 asks of pointers is what makes the parser return. */
  lemma {:induction false} PriorOccurrenceIsBackward(data: bytes, off: nat, w: WireName)
    requires Written(data, off, w) && PriorOccurrence(w, off)
    ensures DnsTermination.Backward(data, off)
    decreases off
  {
    if |SegmentLabels(w)| > 10 {
      SegmentTooLong(data, off, w, []);
    } else {
      SegmentOfName(data, off, w, []);
      TailOfName(data, off, w);
      var e := SegmentEnd(w);
      if e.Compressed? {
        PriorOccurrenceIsBackward(data, e.target, e.rest);
      }
    }
  }

  /** The bytes of the first segment of a name. */
  function Encode(w: WireName): bytes
    requires Encodable(w)
  {
    match w
    case Root => [0]
    case Label(text, rest) => [|text|] + text + Encode(rest)
    case Compressed(target, _) => [0xC0 + target / 0x100, target % 0x100]
  }

  predicate Encodable(w: WireName) {
    match w
    case Root => true
    case Label(text, rest) => 1 <= |text| <= 63 && Encodable(rest)
    case Compressed(target, _) => target < 0x4000
  }

  lemma LabelBytes(data: bytes, off: nat, text: bytes, rest: bytes)
    requires 1 <= |text| <= 63 && off + 1 + |text| + |rest| <= |data|
    requires data[off..off + 1 + |text| + |rest|] == [|text|] + text + rest
    ensures data[off] == |text| && data[off + 1..off + 1 + |text|] == text
    ensures data[off + 1 + |text|..off + 1 + |text| + |rest|] == rest
  {
    var end := off + 1 + |text| + |rest|;
    ChunkAt([|text|] + text + rest, [|text|], text, rest);
    assert data[off] == data[off..end][0];
    SliceOfSlice(data, off, end, 1, 1 + |text|);
    SliceOfSlice(data, off, end, 1 + |text|, 1 + |text| + |rest|);
  }

  lemma PointerBytes(target: nat)
    requires target < 0x4000
    ensures Pointer(0xC0 + target / 0x100, target % 0x100) == target
  {
  }

  lemma LabelWritten(data: bytes, off: nat, text: bytes, rest: WireName)
    requires 1 <= |text| <= 63 && off + 1 + |text| <= |data|
    requires data[off] == |text| && data[off + 1..off + 1 + |text|] == text
    requires Written(data, off + 1 + |text|, rest)
    ensures Written(data, off, Label(text, rest))
  {
  }

  lemma EncodedLabel(data: bytes, off: nat, text: bytes, rest: WireName)
    requires var w := Label(text, rest);
             Encodable(w) && off + |Encode(w)| <= |data| && data[off..off + |Encode(w)|] == Encode(w)
    ensures var next := off + 1 + |text|;
            && |Encode(Label(text, rest))| == 1 + |text| + |Encode(rest)|
            && data[off] == |text| && data[off + 1..next] == text
            && next + |Encode(rest)| <= |data| && data[next..next + |Encode(rest)|] == Encode(rest)
  {
    LabelBytes(data, off, text, Encode(rest));
  }

  lemma EncodedRoot(data: bytes, off: nat)
    requires off + 1 <= |data| && data[off..off + 1] == Encode(Root)
    ensures Written(data, off, Root)
  {
    assert data[off] == data[off..off + 1][0];
  }

  lemma EncodedPointer(data: bytes, off: nat, target: nat, rest: WireName)
    requires target < 0x4000 && off + 2 <= |data| && data[off..off + 2] == Encode(Compressed(target, rest))
    requires Written(data, target, rest)
    ensures Written(data, off, Compressed(target, rest))
  {
    assert data[off] == data[off..off + 2][0] && data[off + 1] == data[off..off + 2][1];
    PointerBytes(target);
  }

  /** Where an encoded segment is followed up by its pointer, the name is written. */
  lemma {:induction false} EncodedIsWritten(data: bytes, off: nat, w: WireName)
    requires Encodable(w) && off + |Encode(w)| <= |data| && data[off..off + |Encode(w)|] == Encode(w)
    requires SegmentEnd(w).Compressed? ==> Written(data, SegmentEnd(w).target, SegmentEnd(w).rest)
    ensures Written(data, off, w)
    ensures EndOffset(w, off) == off + |Encode(w)|
    decreases w
  {
    match w {
      case Root => EncodedRoot(data, off);
      case Label(text, rest) =>
        EncodedLabel(data, off, text, rest);
        EncodedIsWritten(data, off + 1 + |text|, rest);
        LabelWritten(data, off, text, rest);
      case Compressed(target, rest) => EncodedPointer(data, off, target, rest);
    }
  }

  /** A plain name: labels and the root. */
  function Plain(labels: seq<bytes>): WireName {
    if labels == [] then Root else Label(labels[0], Plain(labels[1..]))
  }

  predicate LabelsOk(labels: seq<bytes>) {
    forall l :: l in labels ==> 1 <= |l| <= 63 && IsUtf8(l)
  }

  lemma {:induction false} PlainName(labels: seq<bytes>, used: nat)
    requires LabelsOk(labels) && |labels| + used <= 10
    ensures var w := Plain(labels);
            && Encodable(w) && ShortSegments(w, used) && SegmentEnd(w) == Root && Pointers(w) == 0
            && Labels(w) == labels && !Dangling(w) && !LabelThenPointer(w)
  {
    if labels != [] {
      assert labels[0] in labels;
      PlainName(labels[1..], used + 1);
      assert labels == [labels[0]] + labels[1..];
    }
  }

  /** A query message: the header fields the dissector reads, four counts it does
      not, one plain question name, its type, and anything after it. */
  function EncodeQuery(id: u16, flags: u16, questions: u16, answers: u16, others: bytes,
                       labels: seq<bytes>, qtype: u16, after: bytes): bytes
    requires LabelsOk(labels) && |labels| <= 10
  {
    PlainName(labels, 0);
    Head(id, flags, questions, answers) + others + Encode(Plain(labels)) + Be16(qtype) + after
  }

  function Head(id: u16, flags: u16, questions: u16, answers: u16): (b: bytes)
    ensures |b| == 8
  {
    Be16(id) + Be16(flags) + Be16(questions) + Be16(answers)
  }

  /** The fixed header fields of an encoded query. */
  lemma HeaderFields(p: bytes, id: u16, flags: u16, questions: u16, answers: u16)
    requires |p| >= 8 && p[..8] == Head(id, flags, questions, answers)
    ensures At16(p, 0) == id && At16(p, 2) == flags && At16(p, 4) == questions && At16(p, 6) == answers
  {
    var h := p[..8];
    assert h[0..2] == Be16(id) && h[2..4] == Be16(flags) && h[4..6] == Be16(questions) && h[6..8] == Be16(answers);
    assert p[0..2] == h[0..2] && p[2..4] == h[2..4] && p[4..6] == h[4..6] && p[6..8] == h[6..8];
    Be16At(p, 0, id);
    Be16At(p, 2, flags);
    Be16At(p, 4, questions);
    Be16At(p, 6, answers);
  }

  lemma QuestionPlaced(p: bytes, head: bytes, name: bytes, qtype: bytes, after: bytes)
    requires p == head + name + qtype + after
    ensures var at := |head| + |name|;
            && at + |qtype| <= |p|
            && p[|head|..at] == name && p[at..at + |qtype|] == qtype
  {
    assert p == head + name + (qtype + after);
    ChunkAt(p, head, name, qtype + after);
    ChunkAt(p, head + name, qtype, after);
  }

  /** A question after twelve header bytes. */
  lemma QuestionWritten(p: bytes, head: bytes, w: WireName, qtype: u16, after: bytes)
    requires |head| == 12 && Encodable(w) && SegmentEnd(w) == Root
    requires p == head + Encode(w) + Be16(qtype) + after
    ensures Written(p, 12, w) && EndOffset(w, 12) + 2 <= |p| && At16(p, EndOffset(w, 12)) == qtype
  {
    QuestionPlaced(p, head, Encode(w), Be16(qtype), after);
    EncodedIsWritten(p, 12, w);
    Be16At(p, 12 + |Encode(w)|, qtype);
  }

  /** The dissector on a message whose first name is written as `w`. */
  lemma DissectedWritten(p: bytes, w: WireName, text: bytes, next: nat, hops: nat)
    requires HasQuestion(p) && Written(p, DNS_HEADER_LEN, w) && ShortSegments(w, 0)
    requires text == Dotted(w) && next == Reported(w, DNS_HEADER_LEN) && hops == Pointers(w) && next + 2 <= |p|
    ensures Halts(p, DNS_HEADER_LEN, hops)
    ensures Dissected(p, hops) ==
            Some(DnsInfo(At16(p, 0), At16(p, 2) >= 0x8000, At16(p, 4), At16(p, 6), text, At16(p, next)))
  {
    Decompression(p, DNS_HEADER_LEN, w);
  }

  /** The dissector on a question whose name is followed by its type. */
  lemma DissectedQuestion(p: bytes, w: WireName)
    requires HasQuestion(p) && Written(p, DNS_HEADER_LEN, w) && ShortSegments(w, 0)
    requires Pointers(w) == 0 && !Dangling(w) && !LabelThenPointer(w)
    requires EndOffset(w, DNS_HEADER_LEN) + 2 <= |p|
    ensures Halts(p, DNS_HEADER_LEN, 0)
    ensures Dissected(p, 0) == Some(DnsInfo(At16(p, 0), At16(p, 2) >= 0x8000, At16(p, 4), At16(p, 6),
              Join(Labels(w)), At16(p, EndOffset(w, DNS_HEADER_LEN))))
  {
    assert Join(Labels(w)) + [] == Join(Labels(w));
    DissectedWritten(p, w, Join(Labels(w)), EndOffset(w, DNS_HEADER_LEN), 0);
  }

  /** A message made of a header, a name without pointers and its type. */
  lemma MessageRead(p: bytes, id: u16, flags: u16, questions: u16, answers: u16, others: bytes,
                    w: WireName, qtype: u16, after: bytes)
    requires |others| == 4 && questions > 0
    requires Encodable(w) && ShortSegments(w, 0) && SegmentEnd(w) == Root && Pointers(w) == 0
    requires !Dangling(w) && !LabelThenPointer(w)
    requires p == Head(id, flags, questions, answers) + others + Encode(w) + Be16(qtype) + after
    ensures Halts(p, DNS_HEADER_LEN, 0)
    ensures Dissected(p, 0) == Some(DnsInfo(id, flags >= 0x8000, questions, answers, Join(Labels(w)), qtype))
  {
    var head := Head(id, flags, questions, answers);
    assert p[..8] == head;
    HeaderFields(p, id, flags, questions, answers);
    QuestionWritten(p, head + others, w, qtype, after);
    DissectedQuestion(p, w);
  }

  /** Round trip: the dissector gives back every field of an encoded query. */
  lemma QueryRoundTrip(id: u16, flags: u16, questions: u16, answers: u16, others: bytes,
                       labels: seq<bytes>, qtype: u16, after: bytes)
    requires LabelsOk(labels) && |labels| <= 10 && |others| == 4 && questions > 0
    ensures var p := EncodeQuery(id, flags, questions, answers, others, labels, qtype, after);
            && Halts(p, DNS_HEADER_LEN, 0)
            && Dissected(p, 0) == Some(DnsInfo(id, flags >= 0x8000, questions, answers, Join(labels), qtype))
  {
    PlainName(labels, 0);
    MessageRead(EncodeQuery(id, flags, questions, answers, others, labels, qtype, after),
                id, flags, questions, answers, others, Plain(labels), qtype, after);
  }

  /** A text cut at every occurrence of a byte. */
  function Split(s: bytes, at: byte): (parts: seq<bytes>)
    ensures parts != []
  {
    if s == [] then [[]]
    else
      var rest := Split(s[1..], at);
      if s[0] == at then [[]] + rest else [[s[0]] + rest[0]] + rest[1..]
  }

  lemma {:induction false} SplitAtDot(part: bytes, rest: bytes, at: byte)
    requires at !in part
    ensures Split(part + [at] + rest, at) == [part] + Split(rest, at)
    ensures Split(part, at) == [part]
  {
    if part == [] {
      assert ([at] + rest)[1..] == rest;
      assert part + [at] + rest == [at] + rest;
    } else {
      SplitAtDot(part[1..], rest, at);
      assert (part + [at] + rest)[1..] == part[1..] + [at] + rest;
      assert [part[0]] + part[1..] == part;
    }
  }

  /** The dotted name gives the labels back: it is cut at the dots. */
  lemma {:induction false} DotsSeparate(labels: seq<bytes>)
    requires labels != [] && forall l :: l in labels ==> '.' as int !in l
    ensures Split(Join(labels), '.' as int) == labels
  {
    assert labels[0] in labels;
    if |labels| == 1 {
      SplitAtDot(labels[0], [], '.' as int);
    } else {
      assert forall l :: l in labels[1..] ==> l in labels;
      DotsSeparate(labels[1..]);
      SplitAtDot(labels[0], Join(labels[1..]), '.' as int);
      assert labels == [labels[0]] + labels[1..];
    }
  }

  /** A message that announces no question: the counts are reported, and no name
      and no type, whatever follows the header. */
  lemma NoQuestionRead(id: u16, flags: u16, answers: u16, rest: bytes, hops: nat)
    requires |rest| >= 4
    ensures var p := Head(id, flags, 0, answers) + rest;
            !HasQuestion(p) && Dissected(p, hops) == Some(DnsInfo(id, flags >= 0x8000, 0, answers, [], 0))
  {
    var p := Head(id, flags, 0, answers) + rest;
    assert p[..8] == Head(id, flags, 0, answers);
    HeaderFields(p, id, flags, 0, answers);
  }

  /** Fewer than twelve bytes are no message, and twelve always are. */
  lemma MessageIff(p: bytes, hops: nat)
    requires HasQuestion(p) ==> Halts(p, DNS_HEADER_LEN, hops)
    ensures Dissected(p, hops) == None <==> |p| < 12
  {
  }

  /** A name the parser refuses leaves name and type empty. */
  lemma RefusedNameRead(p: bytes, hops: nat)
    requires HasQuestion(p) && Halts(p, DNS_HEADER_LEN, hops) && NameOf(p, DNS_HEADER_LEN, hops) == None
    ensures Dissected(p, hops) == Some(DnsInfo(At16(p, 0), At16(p, 2) >= 0x8000, At16(p, 4), At16(p, 6), [], 0))
  {
  }

  /** Where the dissector looks for the type. */
  lemma TypeReadAt(p: bytes, hops: nat)
    requires HasQuestion(p) && Halts(p, DNS_HEADER_LEN, hops)
    ensures Dissected(p, hops).Some?
    ensures var name := NameOf(p, DNS_HEADER_LEN, hops);
            Dissected(p, hops).value.queryType ==
            if name.Some? && name.value.1 + 2 <= |p| then At16(p, name.value.1) else 0
  {
  }

  lemma WordAt(p: bytes, i: nat, hi: byte, lo: byte)
    requires i + 2 <= |p| && p[i] == hi && p[i + 1] == lo
    ensures At16(p, i) == hi * 0x100 + lo
  {
  }

  lemma {:induction false} PointerBeforeEnd(data: bytes, off: nat, w: WireName)
    requires Written(data, off, w) && SegmentEnd(w).Compressed?
    ensures EndOffset(w, off) <= |data| && At16(data, EndOffset(w, off) - 2) == 0xC000 + SegmentEnd(w).target
    decreases w
  {
    if w.Label? {
      PointerBeforeEnd(data, off + 1 + |w.text|, w.rest);
    } else {
      WordAt(data, off, data[off], data[off + 1]);
    }
  }

  lemma TypeFieldIff(p: bytes, off: nat, w: WireName)
    requires Written(p, off, w) && EndOffset(w, off) + 2 <= |p|
    ensures At16(p, Reported(w, off)) == At16(p, EndOffset(w, off)) <==>
            (LabelThenPointer(w) ==> At16(p, EndOffset(w, off)) == 0xC000 + SegmentEnd(w).target)
  {
    if LabelThenPointer(w) {
      PointerBeforeEnd(p, off, w);
    }
  }

  lemma QueryTypeAt(p: bytes, w: WireName)
    requires HasQuestion(p) && Written(p, DNS_HEADER_LEN, w)
    requires EndOffset(w, DNS_HEADER_LEN) + 2 <= |p|
    ensures Halts(p, DNS_HEADER_LEN, Pointers(w)) && Dissected(p, Pointers(w)).Some?
    ensures Dissected(p, Pointers(w)).value.queryType ==
            if |SegmentLabels(w)| > 10 then 0 else At16(p, Reported(w, DNS_HEADER_LEN))
  {
    OffsetOfName(p, DNS_HEADER_LEN, w);
    TypeReadAt(p, Pointers(w));
  }

  /** The type field lies just past the question name.  Behind a name with more
      than ten labels before its first pointer it is taken for 0, and behind a
      name with fewer labels before a pointer it is taken from that pointer; in
      all other cases it is reported as it stands. */
  lemma QueryTypeIff(p: bytes, w: WireName)
    requires HasQuestion(p) && Written(p, DNS_HEADER_LEN, w)
    requires EndOffset(w, DNS_HEADER_LEN) + 2 <= |p|
    ensures Halts(p, DNS_HEADER_LEN, Pointers(w)) && Dissected(p, Pointers(w)).Some?
    ensures var queryType := At16(p, EndOffset(w, DNS_HEADER_LEN));
            Dissected(p, Pointers(w)).value.queryType == queryType <==>
            if |SegmentLabels(w)| > 10 then queryType == 0
            else LabelThenPointer(w) ==> queryType == 0xC000 + SegmentEnd(w).target
  {
    QueryTypeAt(p, w);
    TypeFieldIff(p, DNS_HEADER_LEN, w);
  }

  /** A query for the name "a" of type 1, the label followed by a pointer to a
      zero byte in the header. */
  function PointerQuery(): (p: bytes)
    ensures |p| == 18
  {
    [0, 0, 1, 0, 0, 1, 0, 0, 0, 0, 0, 0, 1, 97, 0xC0, 0, 0, 1]
  }

  function PointerName(): WireName {
    Label([97], Compressed(0, Root))
  }

  lemma PointerNameWritten()
    ensures Written(PointerQuery(), DNS_HEADER_LEN, PointerName())
    ensures PriorOccurrence(PointerName(), DNS_HEADER_LEN)
  {
    var p := PointerQuery();
    assert p[13..14] == [97];
    assert Written(p, 0, Root);
    assert Written(p, 14, Compressed(0, Root));
  }

  lemma PointerNameText()
    ensures Labels(PointerName()) == [[97]] && Dotted(PointerName()) == [97, DOT]
    ensures ShortSegments(PointerName(), 0) && Pointers(PointerName()) == 1
    ensures EndOffset(PointerName(), DNS_HEADER_LEN) == 16 && Reported(PointerName(), DNS_HEADER_LEN) == 14
  {
    AsciiIsUtf8([97]);
    assert Labels(Compressed(0, Root)) == [];
    assert Labels(PointerName()) == [[97]];
    assert Join([[97]]) == [97];
  }

  lemma PointerQueryFields()
    ensures var p := PointerQuery();
            && At16(p, 0) == 0 && At16(p, 2) == 0x100 && At16(p, 4) == 1 && At16(p, 6) == 0
            && At16(p, 14) == 0xC000 && At16(p, 16) == 1
  {
    var p := PointerQuery();
    WordAt(p, 0, 0, 0);
    WordAt(p, 2, 1, 0);
    WordAt(p, 4, 0, 1);
    WordAt(p, 6, 0, 0);
    WordAt(p, 14, 0xC0, 0);
    WordAt(p, 16, 0, 1);
  }

  /** Its type is 1; the dissector answers with the name "a." and takes the
      pointer for the type. */
  lemma PointerAsTypeWitness()
    ensures HasQuestion(PointerQuery()) && Written(PointerQuery(), DNS_HEADER_LEN, PointerName())
    ensures Labels(PointerName()) == [[97]] && At16(PointerQuery(), EndOffset(PointerName(), DNS_HEADER_LEN)) == 1
    ensures Halts(PointerQuery(), DNS_HEADER_LEN, 1)
    ensures Dissected(PointerQuery(), 1) == Some(DnsInfo(0, false, 1, 0, [97, DOT], 0xC000))
  {
    PointerNameWritten();
    PointerNameText();
    PointerQueryFields();
    DissectedWritten(PointerQuery(), PointerName(), [97, DOT], 14, 1);
  }
}
