/** Addresses and the normalised 5-tuple key of src/flow/tracker.rs. */
module FlowKeys {
  import opened Wire

  type Octets4 = s: bytes | |s| == 4 witness [0, 0, 0, 0]
  type Octets16 = s: bytes | |s| == 16 witness seq(16, _ => 0)

  datatype IpAddr = V4(v4: Octets4) | V6(v6: Octets16)

  /** A 5-tuple; a flow key is a 5-tuple in normal form. */
  datatype FlowKey = FlowKey(srcIp: IpAddr, dstIp: IpAddr, srcPort: u16, dstPort: u16, protocol: byte)

  /** Lexicographic order, the order the standard library gives octet arrays. */
  predicate LexLe(a: bytes, b: bytes) {
    if a == [] then true
    else if b == [] then false
    else a[0] < b[0] || (a[0] == b[0] && LexLe(a[1..], b[1..]))
  }

  /** The derived order of addresses: every IPv4 address is below every IPv6 address. */
  predicate IpLe(a: IpAddr, b: IpAddr) {
    match (a, b)
    case (V4(x), V4(y)) => LexLe(x, y)
    case (V4(_), V6(_)) => true
    case (V6(_), V4(_)) => false
    case (V6(x), V6(y)) => LexLe(x, y)
  }

  predicate IsForward(t: FlowKey) {
    IpLe(t.srcIp, t.dstIp) || (t.srcIp == t.dstIp && t.srcPort <= t.dstPort)
  }

  function Mirror(t: FlowKey): FlowKey {
    FlowKey(t.dstIp, t.srcIp, t.dstPort, t.srcPort, t.protocol)
  }

  function Normalized(t: FlowKey): FlowKey {
    if IsForward(t) then t else Mirror(t)
  }

  lemma {:induction false} LexTotal(a: bytes, b: bytes)
    ensures LexLe(a, b) || LexLe(b, a)
    ensures LexLe(a, b) && LexLe(b, a) ==> a == b
  {
    if a != [] && b != [] {
      LexTotal(a[1..], b[1..]);
      if a[0] == b[0] && a[1..] == b[1..] {
        assert a == [a[0]] + a[1..] == [b[0]] + b[1..] == b;
      }
    }
  }

  lemma IpTotal(a: IpAddr, b: IpAddr)
    ensures IpLe(a, b) || IpLe(b, a)
    ensures IpLe(a, b) && IpLe(b, a) ==> a == b
    ensures a == b ==> IpLe(a, b)
  {
    match (a, b) {
      case (V4(x), V4(y)) => LexTotal(x, y);
      case (V6(x), V6(y)) => LexTotal(x, y);
      case _ =>
    }
  }

  /** A longer numeral with a smaller leading digit is smaller. */
  lemma LeadingDigit(a: byte, b: byte, p: nat, s: nat, t: nat)
    requires s < p && t < p
    ensures a < b ==> a * p + s < b * p + t
    ensures a == b ==> (a * p + s <= b * p + t <==> s <= t)
  {
    if a < b {
      assert (a + 1) * p <= b * p;
    }
  }

  lemma {:induction false} ValueBound(a: bytes)
    ensures BeValue(a) < PowerOf256(|a|)
  {
    if a != [] {
      ValueBound(a[1..]);
      LeadingDigit(a[0], 0xFF, PowerOf256(|a| - 1), BeValue(a[1..]), PowerOf256(|a| - 1) - 1);
    }
  }

  /** Octet strings of one length are ordered like the numbers they denote. */
  lemma {:induction false} LexByValue(a: bytes, b: bytes)
    requires |a| == |b|
    ensures LexLe(a, b) <==> BeValue(a) <= BeValue(b)
  {
    if a != [] {
      LexByValue(a[1..], b[1..]);
      ValueBound(a[1..]);
      ValueBound(b[1..]);
      LeadingDigit(a[0], b[0], PowerOf256(|a| - 1), BeValue(a[1..]), BeValue(b[1..]));
      LeadingDigit(b[0], a[0], PowerOf256(|a| - 1), BeValue(b[1..]), BeValue(a[1..]));
    }
  }

  /** The numeric order of addresses: the address as a number, with every IPv6
      address above every IPv4 address. */
  function Rank(ip: IpAddr): nat {
    match ip
    case V4(x) => BeValue(x)
    case V6(x) => 0x1_0000_0000 + BeValue(x)
  }

  lemma IpByRank(a: IpAddr, b: IpAddr)
    ensures IpLe(a, b) <==> Rank(a) <= Rank(b)
    ensures Rank(a) == Rank(b) <==> a == b
  {
    IpTotal(a, b);
    assert PowerOf256(4) == 0x1_0000_0000;
    match (a, b) {
      case (V4(x), V4(y)) => LexByValue(x, y); LexByValue(y, x);
      case (V6(x), V6(y)) => LexByValue(x, y); LexByValue(y, x);
      case (V4(x), V6(_)) => ValueBound(x);
      case (V6(_), V4(y)) => ValueBound(y);
    }
  }

  /** The sender's address is the numerically lower one, or the only one. */
  predicate FromLower(t: FlowKey) {
    Rank(t.srcIp) <= Rank(t.dstIp)
  }

  lemma ForwardIff(t: FlowKey)
    ensures IsForward(t) <==> FromLower(t)
  {
    IpByRank(t.srcIp, t.dstIp);
  }

  /** What a key looks like: the numerically lower address comes first, with its
      port, and the key is the 5-tuple itself or, between two different
      addresses, the one with both ends exchanged. */
  lemma KeyExact(t: FlowKey, k: FlowKey)
    ensures Normalized(t) == k <==>
            && Rank(k.srcIp) <= Rank(k.dstIp)
            && (t == k || (k.srcIp != k.dstIp && t == FlowKey(k.dstIp, k.srcIp, k.dstPort, k.srcPort, k.protocol)))
  {
    IpByRank(t.srcIp, t.dstIp);
    IpByRank(t.dstIp, t.srcIp);
    IpByRank(k.srcIp, k.dstIp);
    IpTotal(t.srcIp, t.dstIp);
  }

  /** Two 5-tuples share a key exactly when they are identical or mirror images
      between two different addresses; a conversation of a host with itself on
      two ports keeps one key per direction. */
  lemma SameKeyIff(a: FlowKey, b: FlowKey)
    ensures Normalized(a) == Normalized(b) <==> a == b || (a == Mirror(b) && a.srcIp != a.dstIp)
  {
    IpTotal(a.srcIp, a.dstIp);
    IpTotal(b.srcIp, b.dstIp);
  }

  lemma NormalizedIdempotent(t: FlowKey)
    ensures IsForward(Normalized(t))
    ensures Normalized(Normalized(t)) == Normalized(t)
  {
    IpTotal(t.srcIp, t.dstIp);
  }

  /** The two directions of one conversation are told apart exactly when the
      addresses differ. */
  lemma MirrorFlipsDirection(t: FlowKey)
    ensures IsForward(Mirror(t)) == !IsForward(t) <==> t.srcIp != t.dstIp
  {
    IpTotal(t.srcIp, t.dstIp);
  }
}
