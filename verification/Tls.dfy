/** The ClientHello walker of src/dissectors/tls.rs: RFC 5246 section 7.4.1.2 for
    the message, RFC 6066 section 3 for the server name extension. */
module TlsWire {
  import opened Wire

  datatype ServerName = ServerName(nameType: byte, name: bytes)

  datatype Extension =
    | ServerNames(names: seq<ServerName>)
    | Other(extType: u16, body: bytes)

  /** A ClientHello; the extensions block as a whole is optional. */
  datatype ClientHello = ClientHello(
    recordVersion: (byte, byte),
    clientVersion: (byte, byte),
    random: bytes,
    sessionId: bytes,
    cipherSuites: bytes,
    compression: bytes,
    block: Option<seq<Extension>>)

  /** A 16-bit length and the bytes it counts. */
  function Vector16(b: bytes): bytes
    requires |b| < 0x1_0000
  {
    Be16(|b|) + b
  }

  /** An 8-bit length and the bytes it counts. */
  function Vector8(b: bytes): bytes
    requires |b| < 0x100
  {
    [|b|] + b
  }

  function NamesLength(names: seq<ServerName>): nat {
    if names == [] then 0 else 3 + |names[0].name| + NamesLength(names[1..])
  }

  predicate NamesOk(names: seq<ServerName>) {
    && NamesLength(names) < 0x1_0000
    && forall n :: n in names ==> |n.name| < 0x1_0000
  }

  function EncodeNames(names: seq<ServerName>): (b: bytes)
    requires forall n :: n in names ==> |n.name| < 0x1_0000
    ensures |b| == NamesLength(names)
  {
    if names == [] then []
    else [names[0].nameType] + Vector16(names[0].name) + EncodeNames(names[1..])
  }

  function BodyLength(x: Extension): nat {
    match x
    case ServerNames(names) => 2 + NamesLength(names)
    case Other(_, body) => |body|
  }

  predicate ExtensionOk(x: Extension) {
    && BodyLength(x) < 0x1_0000
    && (x.ServerNames? ==> NamesOk(x.names))
    && (x.Other? ==> x.extType != 0)
  }

  function EncodeBody(x: Extension): (b: bytes)
    requires ExtensionOk(x)
    ensures |b| == BodyLength(x)
  {
    match x
    case ServerNames(names) => Vector16(EncodeNames(names))
    case Other(_, body) => body
  }

  function EncodeExtension(x: Extension): (b: bytes)
    requires ExtensionOk(x)
    ensures |b| == 4 + BodyLength(x)
  {
    Be16(if x.ServerNames? then 0 else x.extType) + Vector16(EncodeBody(x))
  }

  function ExtensionsLength(xs: seq<Extension>): nat {
    if xs == [] then 0 else 4 + BodyLength(xs[0]) + ExtensionsLength(xs[1..])
  }

  predicate ExtensionsOk(xs: seq<Extension>) {
    forall x :: x in xs ==> ExtensionOk(x)
  }

  function EncodeExtensions(xs: seq<Extension>): (b: bytes)
    requires ExtensionsOk(xs)
    ensures |b| == ExtensionsLength(xs)
  {
    if xs == [] then [] else EncodeExtension(xs[0]) + EncodeExtensions(xs[1..])
  }

  function Extensions(h: ClientHello): seq<Extension> {
    if h.block.Some? then h.block.value else []
  }

  /** Length of the ClientHello body. */
  function HelloLength(h: ClientHello): nat {
    2 + 32 + 1 + |h.sessionId| + 2 + |h.cipherSuites| + 1 + |h.compression| +
    (if h.block.Some? then 2 + ExtensionsLength(h.block.value) else 0)
  }

  /** The hello fits one record. */
  predicate HelloOk(h: ClientHello) {
    && |h.random| == 32
    && |h.sessionId| < 0x100 && |h.cipherSuites| < 0x1_0000 && |h.compression| < 0x100
    && ExtensionsOk(Extensions(h)) && ExtensionsLength(Extensions(h)) < 0x1_0000
    && 4 + HelloLength(h) < 0x1_0000
  }

  /** Record and handshake headers, version and random: 43 bytes. */
  function EncodeFixed(h: ClientHello): (b: bytes)
    requires HelloOk(h)
    ensures |b| == 43
  {
    [22, h.recordVersion.0, h.recordVersion.1] + Be16(4 + HelloLength(h)) +
    [1, 0] + Be16(HelloLength(h)) +
    [h.clientVersion.0, h.clientVersion.1] + h.random
  }

  /** The hello up to and including the session id, the cipher suites, and the
      compression methods. */
  function UpToSession(h: ClientHello): (b: bytes)
    requires HelloOk(h)
    ensures |b| == 44 + |h.sessionId|
  {
    EncodeFixed(h) + Vector8(h.sessionId)
  }

  function UpToSuites(h: ClientHello): (b: bytes)
    requires HelloOk(h)
    ensures |b| == 46 + |h.sessionId| + |h.cipherSuites|
  {
    UpToSession(h) + Vector16(h.cipherSuites)
  }

  function UpToCompression(h: ClientHello): (b: bytes)
    requires HelloOk(h)
    ensures |b| == 47 + |h.sessionId| + |h.cipherSuites| + |h.compression|
  {
    UpToSuites(h) + Vector8(h.compression)
  }

  /** A single-record ClientHello. */
  function EncodeHello(h: ClientHello): (b: bytes)
    requires HelloOk(h)
    ensures |b| == 9 + HelloLength(h)
  {
    UpToCompression(h) + (if h.block.Some? then Vector16(EncodeExtensions(h.block.value)) else [])
  }
}

module Tls {
  import opened Wire
  import opened Text

  datatype TlsInfo = TlsInfo(contentType: byte, version: (byte, byte), handshakeType: byte, sni: bytes)

  const TLS_HANDSHAKE: byte := 22
  const TLS_CLIENT_HELLO: byte := 1
  const EXT_SNI: u16 := 0

  /** The host name the extension at `off` (header already consumed) yields. */
  function HostAt(p: bytes, extType: u16, extLen: nat, off: nat, end: nat): Option<bytes>
    requires end <= |p|
  {
    if extType == EXT_SNI && extLen > 5 && off + extLen <= end && p[off + 2] == 0 &&
       off + 5 + At16(p, off + 3) <= end
    then Some(DecodeOr(p[off + 5..off + 5 + At16(p, off + 3)], []))
    else None
  }

  /** The extension loop. */
  function WalkExtensions(p: bytes, off: nat, end: nat): bytes
    requires end <= |p|
    decreases end - off
  {
    if off + 4 > end then []
    else
      var extType := At16(p, off);
      var extLen := At16(p, off + 2);
      var host := HostAt(p, extType, extLen, off + 4, end);
      if host.Some? then host.value else WalkExtensions(p, off + 4 + extLen, end)
  }

  /** Where the extensions block of a ClientHello starts, past its length field. */
  function ExtensionsStart(p: bytes, max: nat): Option<nat>
    requires max <= |p|
  {
    if 43 >= max then None
    else
      var o1: nat := 43 + 1 + p[43] as int;
      if o1 + 2 > max then None
      else
        var o2 := o1 + 2 + At16(p, o1);
        if o2 + 1 > max then None
        else
          var o3 := o2 + 1 + p[o2];
          if o3 + 2 > max then None else Some(o3 + 2)
  }

  lemma StartBounds(p: bytes, max: nat)
    requires max <= |p|
    ensures ExtensionsStart(p, max).Some? ==> 2 <= ExtensionsStart(p, max).value <= max
  {
  }

  /** What the dissector makes of a TCP payload. */
  function Dissected(p: bytes): Option<TlsInfo> {
    if |p| < 9 || p[0] != TLS_HANDSHAKE then None
    else if p[5] != TLS_CLIENT_HELLO then Some(TlsInfo(p[0], (p[1], p[2]), p[5], []))
    else
      var max := Min(5 + At16(p, 3), |p|);
      var start := ExtensionsStart(p, max);
      if start.None? then None
      else
        StartBounds(p, max);
        var end := Min(start.value + At16(p, start.value - 2), max);
        Some(TlsInfo(p[0], (p[1], p[2]), p[5], WalkExtensions(p, start.value, end)))
  }

  /** The walker, on arbitrary bytes. */
  method DissectTls(data: bytes, payloadOffset: nat) returns (info: Option<TlsInfo>)
    ensures payloadOffset > |data| ==> info == None
    ensures payloadOffset <= |data| ==> info == Dissected(data[payloadOffset..])
  {
    if payloadOffset > |data| {
      return None;
    }
    var payload := data[payloadOffset..];

    if |payload| < 5 {
      return None;
    }
    var contentType := payload[0];
    if contentType != TLS_HANDSHAKE {
      return None;
    }
    var version := (payload[1], payload[2]);
    var recordLen := FromBe16(payload[3], payload[4]);

    if |payload| < 5 + 4 {
      return None;
    }
    var handshakeType := payload[5];
    if handshakeType != TLS_CLIENT_HELLO {
      return Some(TlsInfo(contentType, version, handshakeType, []));
    }

    var offset := 9;
    var maxOffset := Min(5 + recordLen as int, |payload|);
    offset := offset + 2 + 32;
    if offset >= maxOffset {
      return None;
    }

    var sessionIdLen := payload[offset];
    offset := offset + 1 + sessionIdLen;
    if offset + 2 > maxOffset {
      return None;
    }

    var cipherSuitesLen := FromBe16(payload[offset], payload[offset + 1]);
    offset := offset + 2 + cipherSuitesLen;
    if offset + 1 > maxOffset {
      return None;
    }

    var compressionLen := payload[offset];
    offset := offset + 1 + compressionLen;
    if offset + 2 > maxOffset {
      return None;
    }

    var extensionsLen := FromBe16(payload[offset], payload[offset + 1]);
    offset := offset + 2;
    assert ExtensionsStart(payload, maxOffset) == Some(offset);
    var extensionsEnd := Min(offset + extensionsLen, maxOffset);

    var sni := FindSni(payload, offset, extensionsEnd);
    info := Some(TlsInfo(contentType, version, handshakeType, sni));
  }

  /** Walk the extensions looking for a host name. */
  method FindSni(payload: bytes, start: nat, extensionsEnd: nat) returns (sni: bytes)
    requires extensionsEnd <= |payload|
    ensures sni == WalkExtensions(payload, start, extensionsEnd)
  {
    var offset := start;
    while offset + 4 <= extensionsEnd
      invariant WalkExtensions(payload, offset, extensionsEnd) == WalkExtensions(payload, start, extensionsEnd)
      decreases extensionsEnd - offset
    {
      var extType := FromBe16(payload[offset], payload[offset + 1]);
      var extLen := FromBe16(payload[offset + 2], payload[offset + 3]);
      offset := offset + 4;

      if extType == EXT_SNI && extLen > 5 && offset + extLen <= extensionsEnd {
        var nameType := payload[offset + 2];
        if nameType == 0 {
          var nameLen := FromBe16(payload[offset + 3], payload[offset + 4]);
          if offset + 5 + nameLen <= extensionsEnd {
            return DecodeOr(payload[offset + 5..offset + 5 + nameLen], []);
          }
        }
      }

      offset := offset + extLen;
    }
    sni := [];
  }
}

module TlsTheorems {
  import opened Wire
  import opened Text
  import opened TlsWire
  import opened Tls

  /** An extension that names a host first; a single empty name is no name. */
  predicate NamesHost(x: Extension) {
    x.ServerNames? && x.names != [] && x.names[0].nameType == 0 && x.names != [ServerName(0, [])]
  }

  /** The text of a name: all its bytes when they are UTF-8, otherwise none. */
  function NameText(name: bytes): bytes {
    if IsUtf8(name) then name else []
  }

  /** The true server name: the host name of the first extension that names a
      host first; empty when there is none or the name is not UTF-8. */
  function TrueSni(xs: seq<Extension>): bytes {
    if xs == [] then []
    else if NamesHost(xs[0]) then NameText(xs[0].names[0].name)
    else TrueSni(xs[1..])
  }

  /** The fields of the first entry of a server name extension. */
  lemma FirstNameFields(names: seq<ServerName>)
    requires names != [] && ExtensionOk(ServerNames(names))
    ensures var body := EncodeBody(ServerNames(names));
            var len := |names[0].name|;
            && |body| >= 5 + len && len < 0x1_0000
            && (|body| > 5 <==> names != [ServerName(names[0].nameType, [])])
            && body[2] == names[0].nameType && body[3..5] == Be16(len) && body[5..5 + len] == names[0].name
  {
    var n := names[0];
    assert n in names;
    var body := EncodeBody(ServerNames(names));
    var front := Be16(NamesLength(names)) + [n.nameType];
    var back := EncodeNames(names[1..]);
    assert body == front + Be16(|n.name|) + (n.name + back);
    ChunkAt(body, front, Be16(|n.name|), n.name + back);
    assert body == (front + Be16(|n.name|)) + n.name + back;
    ChunkAt(body, front + Be16(|n.name|), n.name, back);
  }

  lemma HostFromFields(p: bytes, off: nat, end: nat, len: nat, n: ServerName)
    requires end <= |p| && off + len <= end && len >= 5 + |n.name| && |n.name| < 0x1_0000
    requires p[off + 2] == n.nameType && p[off + 3..off + 5] == Be16(|n.name|)
    requires p[off + 5..off + 5 + |n.name|] == n.name
    ensures HostAt(p, 0, len, off, end) == if n.nameType == 0 && len > 5 then Some(NameText(n.name)) else None
  {
    Be16At(p, off + 3, |n.name|);
  }

  /** A complete extension yields its host, if it names one first. */
  lemma HostOfExtension(p: bytes, off: nat, end: nat, x: Extension)
    requires end <= |p| && ExtensionOk(x)
    requires off + BodyLength(x) <= end && p[off..off + BodyLength(x)] == EncodeBody(x)
    ensures HostAt(p, if x.ServerNames? then 0 else x.extType, BodyLength(x), off, end)
            == if NamesHost(x) then Some(NameText(x.names[0].name)) else None
  {
    if x.ServerNames? && x.names != [] {
      FirstNameFields(x.names);
      var len := BodyLength(x);
      var body := EncodeBody(x);
      var n := x.names[0];
      assert p[off + 2] == p[off..off + len][2];
      SliceOfSlice(p, off, off + len, 3, 5);
      SliceOfSlice(p, off, off + len, 5, 5 + |n.name|);
      HostFromFields(p, off, end, len, n);
    }
  }

  /** An extension cut short yields nothing. */
  lemma HostOfCutExtension(p: bytes, extType: u16, extLen: nat, off: nat, end: nat)
    requires end <= |p| && off + extLen > end
    ensures HostAt(p, extType, extLen, off, end) == None
    ensures WalkExtensions(p, off + extLen, end) == []
  {
  }

  function TypeCode(x: Extension): u16 {
    if x.ServerNames? then 0 else x.extType
  }

  lemma ExtensionFields(x: Extension)
    requires ExtensionOk(x)
    ensures var b := EncodeExtension(x);
            b[0..2] == Be16(TypeCode(x)) && b[2..4] == Be16(BodyLength(x)) && b[4..] == EncodeBody(x)
  {
    TwoFields(Be16(TypeCode(x)), Be16(BodyLength(x)), EncodeBody(x));
  }

  lemma TwoFields(a: bytes, b: bytes, rest: bytes)
    requires |a| == |b| == 2
    ensures var all := a + (b + rest); all[0..2] == a && all[2..4] == b && all[4..] == rest
  {
  }

  /** The header of the first extension of a list that is not cut inside it. */
  lemma ReadHeader(p: bytes, off: nat, end: nat, xs: seq<Extension>)
    requires off + 4 <= end <= |p| && ExtensionsOk(xs) && p[off..end] <= EncodeExtensions(xs)
    ensures xs != [] && xs[0] in xs
    ensures At16(p, off) == TypeCode(xs[0]) && At16(p, off + 2) == BodyLength(xs[0])
  {
    var all := EncodeExtensions(xs);
    assert xs[0] in xs;
    ExtensionFields(xs[0]);
    var b := EncodeExtension(xs[0]);
    assert all == b + EncodeExtensions(xs[1..]);
    assert all[0..2] == b[0..2] && all[2..4] == b[2..4];
    SliceOfSlice(p, off, end, 0, 2);
    SliceOfSlice(p, off, end, 2, 4);
    assert p[off..end] == all[..end - off];
    Be16At(p, off, TypeCode(xs[0]));
    Be16At(p, off + 2, BodyLength(xs[0]));
  }

  /** The body of the first extension, and what follows it. */
  lemma ReadBody(p: bytes, off: nat, end: nat, xs: seq<Extension>)
    requires off + 4 <= end <= |p| && ExtensionsOk(xs) && p[off..end] <= EncodeExtensions(xs)
    requires xs != [] && xs[0] in xs && off + 4 + BodyLength(xs[0]) <= end
    ensures var next := off + 4 + BodyLength(xs[0]);
            p[off + 4..next] == EncodeBody(xs[0]) && p[next..end] <= EncodeExtensions(xs[1..])
  {
    ExtensionFields(xs[0]);
    CutTransfer(p, off, end, EncodeExtension(xs[0]), EncodeExtensions(xs[1..]));
  }

  /** A window of `p` that shows the front of two parts shows all of the first. */
  lemma CutTransfer(p: bytes, off: nat, end: nat, b: bytes, rest: bytes)
    requires 4 <= |b| && off + |b| <= end <= |p| && p[off..end] <= b + rest
    ensures p[off + 4..off + |b|] == b[4..] && p[off + |b|..end] <= rest
  {
    SplitShown(p[off..end], b, rest);
    SliceOfSlice(p, off, end, 0, |b|);
    SliceOfSlice(p, off, off + |b|, 4, |b|);
    SliceOfSlice(p, off, end, |b|, end - off);
  }

  /** What a cut of a concatenation shows of its two parts. */
  lemma SplitShown(cut: bytes, b: bytes, rest: bytes)
    requires cut <= b + rest && |b| <= |cut|
    ensures cut[..|b|] == b && cut[|b|..] <= rest
  {
    assert cut == (b + rest)[..|cut|];
    assert cut[|b|..] == rest[..|cut| - |b|];
  }

  /** The walk from `off` finds the true name of `xs`, or nothing; and the true
      name when there is room for all of `xs`. */
  predicate Finds(p: bytes, off: nat, end: nat, xs: seq<Extension>)
    requires off <= end <= |p|
  {
    var sni := WalkExtensions(p, off, end);
    (sni == [] && end - off < ExtensionsLength(xs)) || sni == TrueSni(xs)
  }

  /** One turn of the extension loop over a complete extension. */
  lemma WalkOver(p: bytes, off: nat, end: nat, xs: seq<Extension>, next: nat)
    requires xs != [] && next == off + 4 + BodyLength(xs[0]) <= end <= |p|
    requires At16(p, off) == TypeCode(xs[0]) && At16(p, off + 2) == BodyLength(xs[0])
    requires HostAt(p, TypeCode(xs[0]), BodyLength(xs[0]), off + 4, end)
             == if NamesHost(xs[0]) then Some(NameText(xs[0].names[0].name)) else None
    requires Finds(p, next, end, xs[1..])
    ensures Finds(p, off, end, xs)
  {
    assert ExtensionsLength(xs) == next - off + ExtensionsLength(xs[1..]);
  }

  /** One turn of the extension loop over an extension cut short. */
  lemma WalkOff(p: bytes, off: nat, end: nat, xs: seq<Extension>, next: nat)
    requires xs != [] && off + 4 <= end <= |p| && next == off + 4 + BodyLength(xs[0]) > end
    requires At16(p, off) == TypeCode(xs[0]) && At16(p, off + 2) == BodyLength(xs[0])
    requires HostAt(p, TypeCode(xs[0]), BodyLength(xs[0]), off + 4, end) == None && WalkExtensions(p, next, end) == []
    ensures Finds(p, off, end, xs)
  {
    assert ExtensionsLength(xs) == next - off + ExtensionsLength(xs[1..]);
  }

  /** On the first `end - off` bytes of an extension list the walk finds the true
      name, or nothing when the list is cut. */
  lemma {:induction false} WalkFindsSni(p: bytes, off: nat, end: nat, xs: seq<Extension>)
    requires off <= end <= |p| && ExtensionsOk(xs)
    requires p[off..end] <= EncodeExtensions(xs)
    ensures Finds(p, off, end, xs)
    decreases xs
  {
    if off + 4 <= end {
      ReadHeader(p, off, end, xs);
      var next := off + 4 + BodyLength(xs[0]);
      if next <= end {
        ReadBody(p, off, end, xs);
        HostOfExtension(p, off + 4, end, xs[0]);
        WalkFindsSni(p, next, end, xs[1..]);
        WalkOver(p, off, end, xs, next);
      } else {
        HostOfCutExtension(p, TypeCode(xs[0]), BodyLength(xs[0]), off + 4, end);
        WalkOff(p, off, end, xs, next);
      }
    }
  }

  /** The bytes before the extensions block. */
  lemma FixedFields(h: ClientHello)
    requires HelloOk(h)
    ensures var b := EncodeFixed(h);
            && b[0] == 22 && b[1] == h.recordVersion.0 && b[2] == h.recordVersion.1
            && b[3..5] == Be16(4 + HelloLength(h)) && b[5] == 1
  {
  }

  /** `p` shows the first `m` bytes of the hello. */
  predicate Shows(p: bytes, h: ClientHello, m: nat)
    requires HelloOk(h)
  {
    m <= |p| && p[..m] <= EncodeHello(h)
  }

  lemma PrefixOf(a: bytes, b: bytes, c: bytes)
    requires a <= b && b <= c
    ensures a <= c
  {
    assert a == b[..|a|] == c[..|b|][..|a|] == c[..|a|];
  }

  lemma PrefixCat(a: bytes, b: bytes, c: bytes)
    requires a + b <= c
    ensures a <= c && c[|a|..|a| + |b|] == b
  {
    assert c[..|a| + |b|] == a + b;
    assert c[..|a|] == (a + b)[..|a|] == a;
    assert c[|a|..|a| + |b|] == (a + b)[|a|..] == b;
  }

  /** Each part of the hello is a prefix of the next. */
  lemma HelloPrefixes(h: ClientHello)
    requires HelloOk(h)
    ensures UpToSession(h) <= EncodeHello(h) && UpToSuites(h) <= EncodeHello(h) && UpToCompression(h) <= EncodeHello(h)
  {
    PrefixOf(UpToSuites(h), UpToCompression(h), EncodeHello(h));
    PrefixOf(UpToSession(h), UpToSuites(h), EncodeHello(h));
  }

  /** A field can be read wherever it is shown. */
  lemma FieldAt(p: bytes, m: nat, e: bytes, before: bytes, field: bytes)
    requires m <= |p| && p[..m] <= e && before + field <= e && m >= |before| + |field|
    ensures p[|before|..|before| + |field|] == field
    ensures field != [] ==> p[|before|] == field[0]
  {
    var lo, hi := |before|, |before| + |field|;
    PrefixCat(before, field, e);
    assert p[..m] == e[..m];
    assert p[lo..hi] == p[..m][lo..hi] == e[..m][lo..hi] == e[lo..hi];
    if field != [] {
      assert p[lo] == p[lo..hi][0];
    }
  }

  /** Offsets of the length fields that follow the session id, the cipher suites
      and the compression methods. */
  function SuitesAt(h: ClientHello): nat {
    44 + |h.sessionId|
  }

  function CompressionAt(h: ClientHello): nat {
    SuitesAt(h) + 2 + |h.cipherSuites|
  }

  function BlockAt(h: ClientHello): nat {
    CompressionAt(h) + 1 + |h.compression|
  }

  lemma SessionField(p: bytes, h: ClientHello, m: nat)
    requires HelloOk(h) && Shows(p, h, m) && m > 43
    ensures p[43] == |h.sessionId|
  {
    HelloPrefixes(h);
    LengthPrefix(EncodeFixed(h), [|h.sessionId|], h.sessionId, EncodeHello(h));
    FieldAt(p, m, EncodeHello(h), EncodeFixed(h), [|h.sessionId|]);
  }

  /** The length field of a vector follows what precedes the vector. */
  lemma LengthPrefix(before: bytes, len: bytes, b: bytes, e: bytes)
    requires before + (len + b) <= e
    ensures before + len <= e
  {
    assert before + (len + b) == (before + len) + b;
    PrefixCat(before + len, b, e);
  }

  lemma SuitesField(p: bytes, h: ClientHello, m: nat)
    requires HelloOk(h) && Shows(p, h, m) && m >= SuitesAt(h) + 2
    ensures At16(p, SuitesAt(h)) == |h.cipherSuites|
  {
    HelloPrefixes(h);
    LengthPrefix(UpToSession(h), Be16(|h.cipherSuites|), h.cipherSuites, EncodeHello(h));
    FieldAt(p, m, EncodeHello(h), UpToSession(h), Be16(|h.cipherSuites|));
    Be16At(p, SuitesAt(h), |h.cipherSuites|);
  }

  lemma CompressionField(p: bytes, h: ClientHello, m: nat)
    requires HelloOk(h) && Shows(p, h, m) && m > CompressionAt(h)
    ensures p[CompressionAt(h)] == |h.compression|
  {
    HelloPrefixes(h);
    LengthPrefix(UpToSuites(h), [|h.compression|], h.compression, EncodeHello(h));
    FieldAt(p, m, EncodeHello(h), UpToSuites(h), [|h.compression|]);
  }

  lemma BlockField(p: bytes, h: ClientHello, m: nat)
    requires HelloOk(h) && Shows(p, h, m) && m >= BlockAt(h) + 2
    ensures h.block.Some?
    ensures At16(p, BlockAt(h)) == ExtensionsLength(Extensions(h))
    ensures p[BlockAt(h) + 2..m] <= EncodeExtensions(Extensions(h))
  {
    var xs := EncodeExtensions(Extensions(h));
    LengthPrefix(UpToCompression(h), Be16(|xs|), xs, EncodeHello(h));
    FieldAt(p, m, EncodeHello(h), UpToCompression(h), Be16(|xs|));
    Be16At(p, BlockAt(h), |xs|);
    RestShown(p, m, UpToCompression(h), Be16(|xs|), xs);
  }

  /** What is shown past the last length field is the front of the block. */
  lemma RestShown(p: bytes, m: nat, before: bytes, len: bytes, xs: bytes)
    requires m <= |p| && p[..m] <= before + (len + xs) && m >= |before| + |len|
    ensures p[|before| + |len|..m] <= xs
  {
    var lo := |before| + |len|;
    assert before + (len + xs) == (before + len) + xs;
    SplitShown(p[..m], before + len, xs);
    assert p[..m][lo..] == p[lo..m];
  }

  /** The chain of lengths, apart from the encoding. */
  lemma StartFromLengths(p: bytes, m: nat, o1: nat, o2: nat, o3: nat)
    requires m <= |p| && 44 <= o1 && o1 + 2 <= o2 && o2 + 1 <= o3
    requires m > 43 ==> p[43] == o1 - 44
    requires m >= o1 + 2 ==> At16(p, o1) == o2 - o1 - 2
    requires m > o2 ==> p[o2] == o3 - o2 - 1
    ensures ExtensionsStart(p, m) == if m >= o3 + 2 then Some(o3 + 2) else None
  {
  }

  /** As far as they are shown, the length fields are what the encoder wrote. */
  lemma LengthsShown(p: bytes, h: ClientHello, m: nat)
    requires HelloOk(h) && Shows(p, h, m)
    ensures m > 43 ==> p[43] == SuitesAt(h) - 44
    ensures m >= SuitesAt(h) + 2 ==> At16(p, SuitesAt(h)) == CompressionAt(h) - SuitesAt(h) - 2
    ensures m > CompressionAt(h) ==> p[CompressionAt(h)] == BlockAt(h) - CompressionAt(h) - 1
  {
    if m > 43 {
      SessionField(p, h, m);
    }
    if m >= SuitesAt(h) + 2 {
      SuitesField(p, h, m);
    }
    if m > CompressionAt(h) {
      CompressionField(p, h, m);
    }
  }

  /** The walker finds the extensions block where the encoder put it. */
  lemma StartOfBlock(p: bytes, h: ClientHello, m: nat)
    requires HelloOk(h) && Shows(p, h, m)
    ensures ExtensionsStart(p, m) == if m >= BlockAt(h) + 2 then Some(BlockAt(h) + 2) else None
  {
    LengthsShown(p, h, m);
    StartFromLengths(p, m, SuitesAt(h), CompressionAt(h), BlockAt(h));
  }

  /** Two sequences that agree on a longer prefix agree on its first nine bytes. */
  lemma SamePrefix(p: bytes, m: nat, e: bytes, front: bytes)
    requires 9 <= m <= |p| && p[..m] <= e && front <= e && |front| >= 9
    ensures forall i :: 0 <= i < 9 ==> p[i] == front[i]
    ensures p[3..5] == front[3..5]
  {
    forall i | 0 <= i < 9 ensures p[i] == front[i] {
      assert p[i] == p[..m][i] == e[i] == front[i];
    }
  }

  lemma FixedShown(p: bytes, h: ClientHello, m: nat)
    requires HelloOk(h) && Shows(p, h, m) && m >= 9
    ensures p[0] == 22 && (p[1], p[2]) == h.recordVersion && p[5] == 1
    ensures At16(p, 3) == 4 + HelloLength(h)
  {
    FixedFields(h);
    HelloPrefixes(h);
    PrefixOf(EncodeFixed(h), UpToSession(h), EncodeHello(h));
    SamePrefix(p, m, EncodeHello(h), EncodeFixed(h));
    Be16At(p, 3, 4 + HelloLength(h));
  }

  /** The dissector, once its header checks pass. */
  lemma DissectedAt(p: bytes, m: nat, start: nat)
    requires |p| >= 9 && p[0] == 22 && p[5] == 1
    requires m == Min(5 + At16(p, 3), |p|) && 2 <= start
    ensures ExtensionsStart(p, m) == None ==> Dissected(p) == None
    ensures ExtensionsStart(p, m) == Some(start) ==>
              && start <= m
              && Dissected(p) == Some(TlsInfo(22, (p[1], p[2]), 1,
                   WalkExtensions(p, start, Min(start + At16(p, start - 2), m))))
  {
    StartBounds(p, m);
  }

  /** The header checks pass, the block is expected at `start`, and what is shown
      of it, up to `m`, is the front of `xs`. */
  predicate Leads(p: bytes, version: (byte, byte), m: nat, start: nat, xs: seq<Extension>) {
    && |p| >= 9 && p[0] == 22 && p[5] == 1 && (p[1], p[2]) == version
    && m == Min(5 + At16(p, 3), |p|) && start >= 2
    && ExtensionsStart(p, m) == (if m >= start then Some(start) else None)
    && ExtensionsOk(xs) && m <= start + ExtensionsLength(xs)
    && (m >= start ==> At16(p, start - 2) == ExtensionsLength(xs) && p[start..m] <= EncodeExtensions(xs))
  }

  lemma HelloLeads(p: bytes, h: ClientHello, m: nat)
    requires HelloOk(h) && Shows(p, h, m) && 9 <= m == Min(|p|, 9 + HelloLength(h))
    ensures Leads(p, h.recordVersion, m, BlockAt(h) + 2, Extensions(h))
    ensures m >= BlockAt(h) + 2 ==> h.block.Some?
  {
    FixedShown(p, h, m);
    StartOfBlock(p, h, m);
    if m >= BlockAt(h) + 2 {
      BlockField(p, h, m);
    }
  }

  /** The dissector's outcome from the fields it reads. */
  lemma DissectOutcome(p: bytes, version: (byte, byte), m: nat, start: nat, xs: seq<Extension>)
    requires Leads(p, version, m, start, xs)
    ensures m < start ==> Dissected(p) == None
    ensures m >= start ==>
              Dissected(p) == Some(TlsInfo(22, version, 1, [])) ||
              Dissected(p) == Some(TlsInfo(22, version, 1, TrueSni(xs)))
    ensures m == start + ExtensionsLength(xs) ==> Dissected(p) == Some(TlsInfo(22, version, 1, TrueSni(xs)))
  {
    DissectedAt(p, m, start);
    if m >= start {
      assert Min(start + At16(p, start - 2), m) == m;
      WalkFindsSni(p, start, m, xs);
    }
  }

  /** The dissector's answer to a whole hello: the true name, or nothing when the
      hello has no extensions block. */
  function Answer(h: ClientHello): Option<TlsInfo> {
    if h.block.None? then None else Some(TlsInfo(22, h.recordVersion, 1, TrueSni(h.block.value)))
  }

  lemma AnswerFromLeads(p: bytes, h: ClientHello, m: nat)
    requires Leads(p, h.recordVersion, m, BlockAt(h) + 2, Extensions(h))
    requires m >= BlockAt(h) + 2 ==> h.block.Some?
    ensures || Dissected(p) == None
            || Dissected(p) == Some(TlsInfo(22, h.recordVersion, 1, []))
            || Dissected(p) == Answer(h)
    ensures m == 9 + HelloLength(h) ==> Dissected(p) == Answer(h)
  {
    DissectOutcome(p, h.recordVersion, m, BlockAt(h) + 2, Extensions(h));
  }

  /** On whatever part of the hello a payload shows: nothing, no name, or the
      answer to the whole hello; and that answer when all of it is shown. */
  lemma DissectShown(p: bytes, h: ClientHello)
    requires HelloOk(h) && Shows(p, h, Min(|p|, 9 + HelloLength(h)))
    ensures || Dissected(p) == None
            || Dissected(p) == Some(TlsInfo(22, h.recordVersion, 1, []))
            || Dissected(p) == Answer(h)
    ensures |p| >= 9 + HelloLength(h) ==> Dissected(p) == Answer(h)
  {
    var m := Min(|p|, 9 + HelloLength(h));
    if m >= 9 {
      HelloLeads(p, h, m);
      AnswerFromLeads(p, h, m);
    }
  }

  /** Round trip: on an encoded hello at any offset, followed by anything, the
      walker returns the true server name, or nothing when the hello has no
      extensions block. */
  lemma RoundTrip(before: bytes, h: ClientHello, after: bytes)
    requires HelloOk(h)
    ensures Dissected((before + EncodeHello(h) + after)[|before|..]) == Answer(h)
  {
    var data := before + EncodeHello(h) + after;
    var p := data[|before|..];
    assert p == EncodeHello(h) + after;
    assert p[..9 + HelloLength(h)] == EncodeHello(h);
    DissectShown(p, h);
  }

  /** Truncation: on any prefix of an encoded hello the walker returns nothing,
      no name or the true name, never part of a name or another name. */
  lemma Truncation(h: ClientHello, n: nat)
    requires HelloOk(h) && n <= 9 + HelloLength(h)
    ensures var r := Dissected(EncodeHello(h)[..n]);
            r == None || (r.value.sni == [] || r.value.sni == TrueSni(Extensions(h)))
  {
    var p := EncodeHello(h)[..n];
    assert p[..n] == p;
    DissectShown(p, h);
  }

  lemma {:induction false} SniOfFirst(xs: seq<Extension>, i: nat)
    requires i <= |xs| && forall j :: 0 <= j < i ==> !NamesHost(xs[j])
    ensures i < |xs| && NamesHost(xs[i]) ==> TrueSni(xs) == NameText(xs[i].names[0].name)
    ensures i == |xs| ==> TrueSni(xs) == []
  {
    if i > 0 {
      SniOfFirst(xs[1..], i - 1);
    }
  }

  /** The reported name, spelled out.  On a hello with an extensions block it is the
      first name of the first extension that names a host first, byte for byte and
      whatever its length, when those bytes are encoded scalar values, so for every
      ASCII name; it is empty when they are not. */
  lemma SniExact(before: bytes, h: ClientHello, after: bytes, i: nat)
    requires HelloOk(h) && h.block.Some? && i < |h.block.value| && NamesHost(h.block.value[i])
    requires forall j :: 0 <= j < i ==> !NamesHost(h.block.value[j])
    ensures var r := Dissected((before + EncodeHello(h) + after)[|before|..]);
            var name := h.block.value[i].names[0].name;
            && r.Some? && r.value.handshakeType == 1 && r.value.contentType == 22
            && (IsEncoded(name) ==> r.value.sni == name)
            && (!IsEncoded(name) ==> r.value.sni == [])
            && ((forall k :: 0 <= k < |name| ==> name[k] < 0x80) ==> r.value.sni == name)
  {
    RoundTrip(before, h, after);
    SniOfFirst(h.block.value, i);
    var name := h.block.value[i].names[0].name;
    Utf8Iff(name);
    if forall k :: 0 <= k < |name| ==> name[k] < 0x80 {
      AsciiIsUtf8(name);
    }
  }

  /** When no extension names a host first, no name is reported. */
  lemma SniAbsent(before: bytes, h: ClientHello, after: bytes)
    requires HelloOk(h) && h.block.Some? && forall x :: x in h.block.value ==> !NamesHost(x)
    ensures var r := Dissected((before + EncodeHello(h) + after)[|before|..]);
            r.Some? && r.value.sni == []
  {
    RoundTrip(before, h, after);
    SniOfFirst(h.block.value, |h.block.value|);
  }

  /** On arbitrary bytes: an answer is given only to a handshake record, with its
      own first bytes, and to a handshake that is no ClientHello without a name. */
  lemma HeaderDecides(p: bytes)
    ensures Dissected(p).Some? ==>
              && |p| >= 9 && p[0] == 22
              && Dissected(p).value.contentType == 22 && Dissected(p).value.version == (p[1], p[2])
              && Dissected(p).value.handshakeType == p[5]
    ensures |p| >= 9 && p[0] == 22 && p[5] != 1 ==> Dissected(p).Some? && Dissected(p).value.sni == []
  {
  }

  lemma At16Within(p: bytes, q: bytes, i: nat)
    requires q <= p && i + 2 <= |q|
    ensures At16(p, i) == At16(q, i)
  {
    assert p[i] == q[i] && p[i + 1] == q[i + 1];
  }

  lemma {:induction false} WalkWithin(p: bytes, q: bytes, off: nat, end: nat)
    requires end <= |q| && q <= p
    ensures WalkExtensions(p, off, end) == WalkExtensions(q, off, end)
    decreases end - off
  {
    if off + 4 <= end {
      At16Within(p, q, off);
      At16Within(p, q, off + 2);
      var extType, extLen := At16(p, off), At16(p, off + 2);
      HostWithin(p, q, extType, extLen, off + 4, end);
      WalkWithin(p, q, off + 4 + extLen, end);
    }
  }

  lemma HostWithin(p: bytes, q: bytes, extType: u16, extLen: nat, off: nat, end: nat)
    requires end <= |q| && q <= p
    ensures HostAt(p, extType, extLen, off, end) == HostAt(q, extType, extLen, off, end)
  {
    if extType == 0 && extLen > 5 && off + extLen <= end {
      assert q == p[..|q|];
      assert p[off + 3] == q[off + 3] && p[off + 4] == q[off + 4];
      var lo, hi := off + 5, off + 5 + At16(q, off + 3);
      if hi <= end {
        assert q[lo..hi] == p[..|q|][lo..hi] == p[lo..hi];
      }
    }
  }

  lemma StartWithin(p: bytes, q: bytes)
    requires q <= p
    ensures ExtensionsStart(p, |q|) == ExtensionsStart(q, |q|)
  {
    assert forall i :: 0 <= i < |q| ==> p[i] == q[i];
  }

  /** Whatever follows the first record plays no part in the answer. */
  lemma RecordConfines(p: bytes)
    requires |p| >= 9 && 5 + At16(p, 3) >= 9
    ensures var m := Min(5 + At16(p, 3), |p|);
            Dissected(p) == Dissected(p[..m])
  {
    var m := Min(5 + At16(p, 3), |p|);
    var q := p[..m];
    StartWithin(p, q);
    StartBounds(p, m);
    if p[0] == 22 && p[5] == 1 && ExtensionsStart(p, m).Some? {
      var start := ExtensionsStart(p, m).value;
      DissectedAt(p, m, start);
      DissectedAt(q, m, start);
      assert At16(p, start - 2) == At16(q, start - 2);
      WalkWithin(p, q, start, Min(start + At16(p, start - 2), m));
    }
  }
}
