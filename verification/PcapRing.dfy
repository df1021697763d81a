/** The byte-bounded packet ring of src/pcap_store/ring_buffer.rs and the
    savefile it writes. */
module PcapWindow {
  import opened Wire

  const RECORD_HEADER := 16

  datatype RingEntry = RingEntry(tsSec: u32, tsUsec: u32, capLen: u32, origLen: u32, data: bytes)

  /** The entry `push` builds; the lengths are the data length cast to 32 bits. */
  function MakeEntry(tsSec: u32, tsUsec: u32, data: bytes): RingEntry {
    RingEntry(tsSec, tsUsec, |data| % 0x1_0000_0000, |data| % 0x1_0000_0000, data)
  }

  /** The entry was built by `push`. */
  predicate Made(e: RingEntry) {
    e == MakeEntry(e.tsSec, e.tsUsec, e.data)
  }

  predicate AllMade(es: seq<RingEntry>) {
    forall i {:trigger Made(es[i])} :: 0 <= i < |es| ==> Made(es[i])
  }

  function EntrySize(e: RingEntry): nat {
    |e.data| + RECORD_HEADER
  }

  function SizeOf(es: seq<RingEntry>): nat {
    if es == [] then 0 else EntrySize(es[0]) + SizeOf(es[1..])
  }

  /** The last `n` entries. */
  function Newest(es: seq<RingEntry>, n: nat): seq<RingEntry>
    requires n <= |es|
  {
    es[|es| - n..]
  }

  /** The reference definition: of everything pushed, the longest suffix that
      fits in `maxBytes`, or the newest entry alone when even that does not fit. */
  predicate IsLongestSuffix(pushed: seq<RingEntry>, maxBytes: nat, n: nat) {
    && n <= |pushed|
    && (pushed != [] ==> n >= 1)
    && (n > 1 ==> SizeOf(Newest(pushed, n)) <= maxBytes)
    && (n < |pushed| ==> SizeOf(Newest(pushed, n + 1)) > maxBytes)
  }

  lemma {:induction false} SizeOfAppend(es: seq<RingEntry>, e: RingEntry)
    ensures SizeOf(es + [e]) == SizeOf(es) + EntrySize(e)
  {
    if es != [] {
      SizeOfAppend(es[1..], e);
      assert (es + [e])[1..] == es[1..] + [e];
    }
  }

  lemma NewestHead(es: seq<RingEntry>, n: nat)
    requires 0 < n <= |es|
    ensures SizeOf(Newest(es, n)) == EntrySize(es[|es| - n]) + SizeOf(Newest(es, n - 1))
  {
    assert Newest(es, n)[1..] == Newest(es, n - 1);
  }

  /** A longer suffix is a larger one. */
  lemma {:induction false} NewestGrows(es: seq<RingEntry>, n: nat, m: nat)
    requires n <= m <= |es|
    ensures SizeOf(Newest(es, n)) <= SizeOf(Newest(es, m))
    ensures n < m ==> SizeOf(Newest(es, n)) < SizeOf(Newest(es, m))
    decreases m
  {
    if n < m {
      NewestHead(es, m);
      NewestGrows(es, n, m - 1);
    }
  }

  /** The definition pins the window down. */
  lemma LongestSuffixUnique(pushed: seq<RingEntry>, maxBytes: nat, n: nat, m: nat)
    requires IsLongestSuffix(pushed, maxBytes, n) && IsLongestSuffix(pushed, maxBytes, m)
    ensures n == m
  {
    if n < m {
      NewestGrows(pushed, n + 1, m);
    } else if m < n {
      NewestGrows(pushed, m + 1, n);
    }
  }

  /** How many of the newest `n` entries stay when `size` more bytes come in. */
  function Keep(es: seq<RingEntry>, n: nat, size: nat, maxBytes: nat): (kept: nat)
    requires n <= |es|
    ensures kept <= n
  {
    if n > 0 && SizeOf(Newest(es, n)) + size > maxBytes then Keep(es, n - 1, size, maxBytes) else n
  }

  /** The kept entries fit, and one more would not. */
  lemma {:induction false} KeepFits(es: seq<RingEntry>, n: nat, size: nat, maxBytes: nat)
    requires n <= |es|
    ensures var kept := Keep(es, n, size, maxBytes);
            && (kept > 0 ==> SizeOf(Newest(es, kept)) + size <= maxBytes)
            && (kept < n ==> SizeOf(Newest(es, kept + 1)) + size > maxBytes)
  {
    if n > 0 && SizeOf(Newest(es, n)) + size > maxBytes {
      KeepFits(es, n - 1, size, maxBytes);
    }
  }

  lemma SizeWithNew(pushed: seq<RingEntry>, n: nat, e: RingEntry)
    requires n <= |pushed|
    ensures Newest(pushed + [e], n + 1) == Newest(pushed, n) + [e]
    ensures SizeOf(Newest(pushed + [e], n + 1)) == SizeOf(Newest(pushed, n)) + EntrySize(e)
  {
    assert Newest(pushed + [e], n + 1) == Newest(pushed, n) + [e];
    SizeOfAppend(Newest(pushed, n), e);
  }

  /** What is kept fits; one entry more would not, whether it was evicted now or
      lay outside the window before. */
  lemma KeptIsMaximal(pushed: seq<RingEntry>, maxBytes: nat, n: nat, size: nat, kept: nat)
    requires IsLongestSuffix(pushed, maxBytes, n) && kept == Keep(pushed, n, size, maxBytes)
    ensures kept > 0 ==> SizeOf(Newest(pushed, kept)) + size <= maxBytes
    ensures kept < |pushed| ==> SizeOf(Newest(pushed, kept + 1)) + size > maxBytes
  {
    KeepFits(pushed, n, size, maxBytes);
  }

  lemma AppendToKept(pushed: seq<RingEntry>, e: RingEntry, maxBytes: nat, kept: nat)
    requires kept <= |pushed|
    requires kept > 0 ==> SizeOf(Newest(pushed, kept)) + EntrySize(e) <= maxBytes
    requires kept < |pushed| ==> SizeOf(Newest(pushed, kept + 1)) + EntrySize(e) > maxBytes
    ensures IsLongestSuffix(pushed + [e], maxBytes, kept + 1)
  {
    SizeWithNew(pushed, kept, e);
    if kept < |pushed| {
      SizeWithNew(pushed, kept + 1, e);
    }
  }

  /** Evicting from the old window and adding the new entry gives the longest
      suffix of everything pushed, the new entry included. */
  lemma PushKeepsLongestSuffix(pushed: seq<RingEntry>, maxBytes: nat, n: nat, e: RingEntry)
    requires IsLongestSuffix(pushed, maxBytes, n)
    ensures IsLongestSuffix(pushed + [e], maxBytes, Keep(pushed, n, EntrySize(e), maxBytes) + 1)
  {
    var kept := Keep(pushed, n, EntrySize(e), maxBytes);
    KeptIsMaximal(pushed, maxBytes, n, EntrySize(e), kept);
    AppendToKept(pushed, e, maxBytes, kept);
  }
}

/** The savefile format: a 24-byte header, then per packet a 16-byte header in
    little-endian order and the captured bytes. */
module Savefile {
  import opened Wire
  import opened PcapWindow

  const GLOBAL_HEADER: bytes := [
    0xD4, 0xC3, 0xB2, 0xA1,
    0x02, 0x00, 0x04, 0x00,
    0x00, 0x00, 0x00, 0x00,
    0x00, 0x00, 0x00, 0x00,
    0xFF, 0xFF, 0x00, 0x00,
    0x01, 0x00, 0x00, 0x00]

  function WriteRecord(e: RingEntry): (b: bytes)
    ensures |b| == EntrySize(e)
  {
    Le32(e.tsSec) + Le32(e.tsUsec) + Le32(e.capLen) + Le32(e.origLen) + e.data
  }

  function WriteRecords(es: seq<RingEntry>): (b: bytes)
    ensures |b| == SizeOf(es)
  {
    if es == [] then [] else WriteRecord(es[0]) + WriteRecords(es[1..])
  }

  function WriteFile(es: seq<RingEntry>): bytes {
    GLOBAL_HEADER + WriteRecords(es)
  }

  function Word(b: bytes, at: nat): u32
    requires at + 4 <= |b|
  {
    FromLe32(b[at], b[at + 1], b[at + 2], b[at + 3])
  }

  /** A reader of the record section; it fails on a record cut short. */
  function ReadRecords(b: bytes): Option<seq<RingEntry>>
    decreases |b|
  {
    if b == [] then Some([])
    else if |b| < RECORD_HEADER then None
    else
      var capLen := Word(b, 8);
      if |b| < RECORD_HEADER + capLen then None
      else
        var rest := ReadRecords(b[RECORD_HEADER + capLen..]);
        if rest.None? then None
        else
          var data := b[RECORD_HEADER..RECORD_HEADER + capLen];
          Some([RingEntry(Word(b, 0), Word(b, 4), capLen, Word(b, 12), data)] + rest.value)
  }

  /** What a savefile says: the fields of its header, and the packets. */
  datatype Capture = Capture(zone: u32, accuracy: u32, snapLen: u32, linkType: u32, packets: seq<RingEntry>)

  const ETHERNET := 1

  /** A reader of little-endian microsecond savefiles, version 2.4. */
  function ReadFile(b: bytes): Option<Capture> {
    if |b| < 24 || Word(b, 0) != 0xA1B2_C3D4 || b[4..8] != [2, 0, 4, 0] then None
    else
      var packets := ReadRecords(b[24..]);
      if packets.None? then None
      else Some(Capture(Word(b, 8), Word(b, 12), Word(b, 16), Word(b, 20), packets.value))
  }

  /** The length field fits: the captured length is the length of the data. */
  predicate LengthsFit(es: seq<RingEntry>) {
    forall i :: 0 <= i < |es| ==> es[i].capLen == |es[i].data|
  }

  lemma FourWords(w: bytes, x: bytes, y: bytes, z: bytes, data: bytes, tail: bytes)
    requires |w| == |x| == |y| == |z| == 4
    ensures var b := w + x + y + z + data + tail;
            && b[0..4] == w && b[4..8] == x && b[8..12] == y && b[12..16] == z
            && b[16..16 + |data|] == data && b[16 + |data|..] == tail
  {
  }

  lemma WordAt(b: bytes, at: nat, n: u32)
    requires at + 4 <= |b| && b[at..at + 4] == Le32(n)
    ensures Word(b, at) == n
  {
    var w := b[at..at + 4];
    Le32RoundTrip(n);
    assert b[at] == w[0] && b[at + 1] == w[1] && b[at + 2] == w[2] && b[at + 3] == w[3];
  }

  lemma WordsOfRecord(e: RingEntry, tail: bytes)
    ensures var b := WriteRecord(e) + tail;
            && Word(b, 0) == e.tsSec && Word(b, 4) == e.tsUsec
            && Word(b, 8) == e.capLen && Word(b, 12) == e.origLen
            && b[RECORD_HEADER..EntrySize(e)] == e.data
            && b[EntrySize(e)..] == tail
  {
    var b := WriteRecord(e) + tail;
    FourWords(Le32(e.tsSec), Le32(e.tsUsec), Le32(e.capLen), Le32(e.origLen), e.data, tail);
    WordAt(b, 0, e.tsSec);
    WordAt(b, 4, e.tsUsec);
    WordAt(b, 8, e.capLen);
    WordAt(b, 12, e.origLen);
  }

  lemma {:induction false} RecordsRoundTrip(es: seq<RingEntry>)
    requires LengthsFit(es)
    ensures ReadRecords(WriteRecords(es)) == Some(es)
  {
    if es != [] {
      var tail := WriteRecords(es[1..]);
      WordsOfRecord(es[0], tail);
      RecordsRoundTrip(es[1..]);
      assert es == [es[0]] + es[1..];
    }
  }

  lemma WordIs(b: bytes, at: nat, w: byte, x: byte, y: byte, z: byte)
    requires at + 4 <= |b| && b[at] == w && b[at + 1] == x && b[at + 2] == y && b[at + 3] == z
    ensures Word(b, at) == FromLe32(w, x, y, z)
  {
  }

  lemma HeaderBytes(b: bytes)
    requires |b| >= 24 && b[..24] == GLOBAL_HEADER
    ensures forall i :: 0 <= i < 24 ==> b[i] == GLOBAL_HEADER[i]
    ensures b[4..8] == [2, 0, 4, 0]
  {
    forall i | 0 <= i < 24 ensures b[i] == GLOBAL_HEADER[i] {
      assert b[i] == b[..24][i];
    }
    assert b[4..8] == b[..24][4..8] == GLOBAL_HEADER[4..8];
  }

  /** The header announces Ethernet frames of at most 65535 bytes, in UTC. */
  lemma HeaderWords(b: bytes)
    requires |b| >= 24 && b[..24] == GLOBAL_HEADER
    ensures Word(b, 0) == 0xA1B2_C3D4 && b[4..8] == [2, 0, 4, 0]
    ensures Word(b, 8) == 0 && Word(b, 12) == 0 && Word(b, 16) == 65535 && Word(b, 20) == ETHERNET
  {
    HeaderBytes(b);
    WordIs(b, 0, 0xD4, 0xC3, 0xB2, 0xA1);
    WordIs(b, 8, 0, 0, 0, 0);
    WordIs(b, 12, 0, 0, 0, 0);
    WordIs(b, 16, 0xFF, 0xFF, 0, 0);
    WordIs(b, 20, 1, 0, 0, 0);
  }

  /** Reading a written savefile gives back every entry: time stamps, both
      lengths and data. */
  lemma FileRoundTrip(es: seq<RingEntry>)
    requires LengthsFit(es)
    ensures ReadFile(WriteFile(es)) == Some(Capture(0, 0, 65535, ETHERNET, es))
    ensures |WriteFile(es)| == 24 + SizeOf(es)
  {
    RecordsRoundTrip(es);
    assert WriteFile(es)[24..] == WriteRecords(es);
    assert WriteFile(es)[..24] == GLOBAL_HEADER;
    HeaderWords(WriteFile(es));
  }

  lemma {:induction false} WriteRecordsAppend(es: seq<RingEntry>, e: RingEntry)
    ensures WriteRecords(es + [e]) == WriteRecords(es) + WriteRecord(e)
  {
    if es != [] {
      WriteRecordsAppend(es[1..], e);
      assert (es + [e])[1..] == es[1..] + [e];
    }
  }

  lemma WriteFileAppend(es: seq<RingEntry>, e: RingEntry)
    ensures WriteFile(es + [e]) == WriteFile(es) + WriteRecord(e)
  {
    WriteRecordsAppend(es, e);
  }

  lemma WriteFileEmpty()
    ensures WriteFile([]) == GLOBAL_HEADER
  {
  }

  /** Different entries give different savefiles. */
  lemma WriteFileInjective(es: seq<RingEntry>, fs: seq<RingEntry>)
    requires LengthsFit(es) && LengthsFit(fs) && WriteFile(es) == WriteFile(fs)
    ensures es == fs
  {
    FileRoundTrip(es);
    FileRoundTrip(fs);
  }
}

module PcapRing {
  import opened Wire
  import opened PcapWindow
  import opened Savefile

  lemma ModSmall(x: nat, m: nat)
    requires x < m
    ensures x % m == x
  {
  }

  /** A second lap of the ring starts at the first slot. */
  lemma ModLap(x: nat, m: nat)
    requires x < m
    ensures (m + x) % m == x
  {
  }

  /** The entries a flush walks over: `count` steps from `start`, wrapping round. */
  function Walk(entries: seq<RingEntry>, start: nat, count: nat): seq<RingEntry>
    requires count <= |entries|
  {
    seq(count, i requires 0 <= i < count => entries[(start + i) % |entries|])
  }

  lemma AllMadeAppend(pushed: seq<RingEntry>, e: RingEntry)
    requires AllMade(pushed) && Made(e)
    ensures AllMade(pushed + [e])
  {
    forall i | 0 <= i < |pushed| ensures Made((pushed + [e])[i]) {
      assert Made(pushed[i]);
    }
  }

  /** A walk from the first slot, or from the one behind the last, meets the slots
      in order. */
  lemma FlushIndex(start: nat, i: nat, len: nat)
    requires i < len && (start == 0 || start == len)
    ensures (start + i) % len == i
  {
    if start == 0 {
      ModSmall(i, len);
    } else {
      ModLap(i, len);
    }
  }

  /** The newest `n` entries are the live window, `total` their exact size, and
      every entry was built by `push`. */
  predicate Live(es: seq<RingEntry>, maxBytes: nat, n: nat, total: nat) {
    && IsLongestSuffix(es, maxBytes, n)
    && total == SizeOf(Newest(es, n))
    && AllMade(es)
  }

  /** The window after a push. */
  lemma PushedWindow(pushed: seq<RingEntry>, n: nat, total: nat, e: RingEntry, maxBytes: nat, kept: nat)
    requires Live(pushed, maxBytes, n, total) && Made(e) && kept == Keep(pushed, n, EntrySize(e), maxBytes)
    ensures Live(pushed + [e], maxBytes, kept + 1, SizeOf(Newest(pushed, kept)) + EntrySize(e))
    ensures Newest(pushed + [e], kept + 1) == Newest(pushed, kept) + [e]
  {
    PushKeepsLongestSuffix(pushed, maxBytes, n, e);
    SizeWithNew(pushed, kept, e);
    AllMadeAppend(pushed, e);
  }

  class PacketRingBuffer {
    var entries: seq<RingEntry>
    var writePos: nat
    var count: nat
    var totalBytes: nat
    const maxBytes: nat

    /** `entries` is the whole push history, and the live window is its longest
        suffix that fits. */
    ghost predicate Valid()
      reads this
    {
      && writePos == |entries|
      && Live(entries, maxBytes, count, totalBytes)
    }

    function Window(): seq<RingEntry>
      requires count <= |entries|
      reads this
    {
      Newest(entries, count)
    }

    constructor (maxBytes: nat)
      ensures Valid() && entries == [] && this.maxBytes == maxBytes
    {
      entries := [];
      writePos := 0;
      count := 0;
      totalBytes := 0;
      this.maxBytes := maxBytes;
    }

    /** Evict oldest entries until `entrySize` more bytes fit or none is left. */
    method Evict(entrySize: nat)
      requires writePos == |entries| && count <= |entries|
      requires totalBytes == SizeOf(Newest(entries, count))
      modifies this`totalBytes, this`count
      ensures count == Keep(entries, old(count), entrySize, maxBytes)
      ensures totalBytes == SizeOf(Newest(entries, count))
    {
      ghost var kept := Keep(entries, count, entrySize, maxBytes);
      while totalBytes + entrySize > maxBytes && count > 0
        invariant count <= |entries|
        invariant totalBytes == SizeOf(Newest(entries, count))
        invariant Keep(entries, count, entrySize, maxBytes) == kept
        decreases count
      {
        var oldestIdx := if writePos >= count then writePos - count else |entries| - (count - writePos);
        var evictedSize := |entries[oldestIdx].data| + 16;
        assert oldestIdx == |entries| - count;
        NewestHead(entries, count);
        totalBytes := SaturatingSub(totalBytes, evictedSize);
        count := count - 1;
      }
    }

    /** Push a packet, evicting the oldest live ones until it fits. */
    method Push(tsSec: u32, tsUsec: u32, data: bytes)
      requires Valid()
      modifies this
      ensures Valid()
      ensures entries == old(entries) + [MakeEntry(tsSec, tsUsec, data)]
      ensures var e := entries[|old(entries)|]; e.tsSec == tsSec && e.tsUsec == tsUsec && e.data == data
      ensures Window() == Newest(old(entries), Keep(old(entries), old(count), |data| + RECORD_HEADER, maxBytes))
                          + [MakeEntry(tsSec, tsUsec, data)]
    {
      var entrySize := |data| + 16;
      Evict(entrySize);

      var entry := MakeEntry(tsSec, tsUsec, data);
      PushedWindow(entries, old(count), old(totalBytes), entry, maxBytes, count);
      Append(entry, entrySize);
    }

    /** Store an entry behind the live window. */
    method Append(entry: RingEntry, entrySize: nat)
      requires writePos <= |entries| && count <= |entries|
      modifies this
      ensures entries == if old(writePos) < |old(entries)| then old(entries)[old(writePos) := entry]
                         else old(entries) + [entry]
      ensures count == Min(old(count) + 1, |entries|) && totalBytes == old(totalBytes) + entrySize
      ensures old(writePos) == |old(entries)| ==> writePos == |entries|
    {
      if writePos < |entries| {
        entries := entries[writePos := entry];
      } else {
        entries := entries + [entry];
      }

      totalBytes := totalBytes + entrySize;
      count := Min(count + 1, |entries|);
      // The allocator picks any capacity that holds the entries.
      var capacity: nat :| capacity >= |entries|;
      if writePos < |entries| {
        ModSmall(writePos + 1, Max(capacity, |entries| + 1));
      }
      writePos := (writePos + 1) % Max(capacity, |entries| + 1);
    }

    /** Write the savefile; returns its bytes and the number of packets. */
    method FlushToPcap() returns (file: bytes, packetsWritten: nat)
      requires writePos == |entries| && count <= |entries|
      ensures file == WriteFile(entries[..count]) && packetsWritten == count
    {
      file := GLOBAL_HEADER;
      packetsWritten := 0;
      var start := if count < |entries| then 0 else writePos;
      WriteFileEmpty();
      assert entries[..0] == [];
      for i := 0 to Min(count, |entries|)
        invariant packetsWritten == i
        invariant file == WriteFile(entries[..i])
      {
        FlushIndex(start, i, |entries|);
        var idx := (start + i) % |entries|;
        var entry := entries[idx];
        file := WriteEntry(file, entry, entries[..i]);
        assert entries[..i + 1] == entries[..i] + [entries[i]];
        packetsWritten := packetsWritten + 1;
      }
    }

    /** One record header and its data. */
    static method WriteEntry(file: bytes, entry: RingEntry, ghost written: seq<RingEntry>) returns (out: bytes)
      requires file == WriteFile(written)
      ensures out == file + WriteRecord(entry) == WriteFile(written + [entry])
    {
      out := file + Le32(entry.tsSec);
      out := out + Le32(entry.tsUsec);
      out := out + Le32(entry.capLen);
      out := out + Le32(entry.origLen);
      out := out + entry.data;
      WriteFileAppend(written, entry);
    }

    /** Current number of packets. */
    function Len(): (n: nat)
      requires Valid()
      reads this
      ensures n == |Window()|
    {
      Min(count, |entries|)
    }

    /** Current byte usage: the record headers and data of the live window. */
    function BytesUsed(): (n: nat)
      requires Valid()
      reads this
      ensures n == SizeOf(Window())
      ensures n <= maxBytes || |Window()| == 1
    {
      totalBytes
    }
  }

  /** The number of live packets after a whole sequence of pushes. */
  function LiveAfter(pushed: seq<RingEntry>, maxBytes: nat): (n: nat)
    ensures n <= |pushed|
  {
    if pushed == [] then 0
    else
      var before := pushed[..|pushed| - 1];
      Keep(before, LiveAfter(before, maxBytes), EntrySize(pushed[|pushed| - 1]), maxBytes) + 1
  }

  /** Longest-suffix refinement: after any sequence of pushes the live window is
      the longest suffix that fits, or the newest packet alone. */
  lemma {:induction false} WindowIsLongestSuffix(pushed: seq<RingEntry>, maxBytes: nat)
    ensures IsLongestSuffix(pushed, maxBytes, LiveAfter(pushed, maxBytes))
  {
    if pushed != [] {
      var before := pushed[..|pushed| - 1];
      var e := pushed[|pushed| - 1];
      assert pushed == before + [e];
      WindowIsLongestSuffix(before, maxBytes);
      PushKeepsLongestSuffix(before, maxBytes, LiveAfter(before, maxBytes), e);
    }
  }

  /** The method and the function agree: a valid ring's count is `LiveAfter`. */
  lemma RingCount(ring: PacketRingBuffer)
    requires ring.Valid()
    ensures ring.count == LiveAfter(ring.entries, ring.maxBytes)
  {
    WindowIsLongestSuffix(ring.entries, ring.maxBytes);
    LongestSuffixUnique(ring.entries, ring.maxBytes, ring.count, LiveAfter(ring.entries, ring.maxBytes));
  }

  predicate DataFits(es: seq<RingEntry>) {
    forall i :: 0 <= i < |es| ==> |es[i].data| < 0x1_0000_0000
  }

  lemma MadeLengthsFit(es: seq<RingEntry>)
    requires AllMade(es) && DataFits(es)
    ensures LengthsFit(es)
    ensures forall i :: 0 <= i < |es| ==> es[i].origLen == |es[i].data|
  {
    forall i | 0 <= i < |es| ensures es[i].capLen == es[i].origLen == |es[i].data| {
      assert Made(es[i]);
    }
  }

  /** What a reader finds in a flushed file: the oldest `count` packets ever
      pushed. */
  lemma FlushRoundTrip(ring: PacketRingBuffer)
    requires ring.Valid() && DataFits(ring.entries)
    ensures ReadFile(WriteFile(ring.entries[..ring.count]))
         == Some(Capture(0, 0, 65535, ETHERNET, ring.entries[..ring.count]))
    ensures forall i :: 0 <= i < ring.count ==>
              ring.entries[i].capLen == ring.entries[i].origLen == |ring.entries[i].data|
  {
    MadeLengthsFit(ring.entries);
    FileRoundTrip(ring.entries[..ring.count]);
  }

  /** The first `c` entries are the last `c` only if there are no others, unless
      the newest entry equals the one at the end of the first `c`. */
  lemma PrefixIsSuffixIff(es: seq<RingEntry>, c: nat)
    requires c <= |es| && (es != [] ==> c > 0)
    requires c < |es| ==> es[c - 1] != es[|es| - 1]
    ensures es[..c] == Newest(es, c) <==> c == |es|
  {
    if c < |es| {
      assert Newest(es, c)[c - 1] == es[|es| - 1];
      assert es[..c][c - 1] == es[c - 1];
    }
  }

  /** When the newest packet differs from the last one a flush reaches, the flushed
      file holds the live window exactly while nothing has ever been evicted. */
  lemma FlushIsWindowIff(ring: PacketRingBuffer)
    requires ring.Valid() && DataFits(ring.entries)
    requires ring.count < |ring.entries| ==> ring.entries[ring.count - 1] != ring.entries[|ring.entries| - 1]
    ensures WriteFile(ring.entries[..ring.count]) == WriteFile(ring.Window()) <==> ring.count == |ring.entries|
  {
    var es, c := ring.entries, ring.count;
    PrefixIsSuffixIff(es, c);
    MadeLengthsFit(es);
    if WriteFile(es[..c]) == WriteFile(Newest(es, c)) {
      WriteFileInjective(es[..c], Newest(es, c));
    }
  }

  /** In eviction-free states the file is the whole window and its size is the
      global header plus the bytes in use. */
  lemma FlushWithoutEviction(ring: PacketRingBuffer)
    requires ring.Valid() && ring.count == |ring.entries|
    ensures WriteFile(ring.entries[..ring.count]) == WriteFile(ring.Window())
    ensures |WriteFile(ring.Window())| == 24 + ring.BytesUsed()
  {
    assert ring.entries[..ring.count] == ring.Window();
  }

  lemma WalkIndex(entries: seq<RingEntry>, start: nat, count: nat, i: nat)
    requires start + count <= |entries| && i < count
    ensures Walk(entries, start, count)[i] == entries[start + i]
  {
    ModSmall(start + i, |entries|);
  }

  /** A walk from `len - count` is the live window in every reachable state. */
  lemma WalkFromOldest(ring: PacketRingBuffer)
    requires ring.Valid()
    ensures Walk(ring.entries, |ring.entries| - ring.count, ring.count) == ring.Window()
  {
    var es, c := ring.entries, ring.count;
    var walked, live := Walk(es, |es| - c, c), Newest(es, c);
    forall i | 0 <= i < c ensures walked[i] == live[i] {
      WalkIndex(es, |es| - c, c, i);
    }
  }

  /** Three one-byte packets in a ring of forty bytes: two are live, and a walk
      from index 0 shows the evicted one and hides the newest. */
  lemma FlushAfterEvictionWitness()
    ensures var a, b, c := MakeEntry(1, 0, [1]), MakeEntry(2, 0, [2]), MakeEntry(3, 0, [3]);
            && LiveAfter([a, b, c], 40) == 2
            && Newest([a, b, c], 2) == [b, c]
            && Walk([a, b, c], 0, 2) == [a, b]
  {
    var a, b, c := MakeEntry(1, 0, [1]), MakeEntry(2, 0, [2]), MakeEntry(3, 0, [3]);
    assert [a, b, c][..2] == [a, b] && [a, b][..1] == [a] && [a][..0] == [];
    assert Newest([a], 1) == [a] && Newest([a, b], 1) == [b] && Newest([a, b], 2) == [a, b];
    assert SizeOf([]) == 0 && SizeOf([a]) == 17 && SizeOf([b]) == 17;
    assert [a, b][1..] == [b] && SizeOf([a, b]) == 34;
    assert LiveAfter([a], 40) == Keep([], 0, 17, 40) + 1 == 1;
    assert LiveAfter([a, b], 40) == Keep([a], 1, 17, 40) + 1 == 2;
    assert LiveAfter([a, b, c], 40) == Keep([a, b], 2, 17, 40) + 1 == Keep([a, b], 1, 17, 40) + 1 == 2;
  }
}
