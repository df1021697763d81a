# ge-sensor verification model

ge-sensor is a packet pipeline: it captures frames, dissects them, tracks flows, asks a rule
engine for a verdict, keeps a ring of recent packets for PCAP captures, and spools failed events
to a dead-letter queue. This project models those components in Dafny and proves what they
guarantee over whole runs and for arbitrary input bytes.

| file | models | source |
|---|---|---|
| `Wire.dfy`, `Text.dfy` | bytes, fixed-width integers, UTF-8, sums over maps | shared |
| `FlowKeys.dfy` | addresses and normalised keys | `src/flow/tracker.rs` |
| `FlowTracker.dfy`, `Lru.dfy`, `FlowLru.dfy`, `FlowRecords.dfy`, `FlowAccounting.dfy` | the flow table, exact LRU, record meaning, conservation, inclusion | `src/flow/tracker.rs` |
| `PcapRing.dfy` | the byte-bounded ring and its savefile | `src/pcap_store/ring_buffer.rs` |
| `Tls.dfy` | the ClientHello walker | `src/dissectors/tls.rs` |
| `Dns.dfy` | the name decompressor | `src/dissectors/dns.rs` |
| `Dlq.dfy`, `DlqReach.dfy` | the circuit breaker under concurrency, and what interleavings can reach | `src/output/dlq.rs` |
| `Dissect.dfy`, `Encapsulation.dfy`, `Names.dfy`, `Pipeline.dfy` | layered dissection, its inverse, protocol names, and their use | `src/dissectors/`, `src/main.rs` |
| `Ips.dfy` | the rule engine and its books | `src/ips/mod.rs`, `src/utils/dashboard.rs` |
| `CaptureSwitch.dfy` | the interface-switch handshake | `src/main.rs`, `src/utils/dashboard.rs` |
| `Features.dfy` | bounds on the statistical features | `src/flow/features.rs`, `src/utils/dashboard.rs` |

Objects the source updates in place are classes (`FlowTracker`, `PacketRingBuffer`,
`PacketMetadata`, `IpsEngine`, `DeadLetterQueue`); loops are loops. Each method is proved against
a specification function or step relation, and the theorems are about those. Protocols between
threads are state machines whose steps are single shared accesses, run under arbitrary schedules.

## Where the code and its documentation differ

The model follows the code; each point below is a lemma.

- Keys: the comment at `src/flow/tracker.rs:22` promises bidirectional matching. The second
  disjunct of line 30 is implied by the first, so the two directions of a conversation of one
  address with itself keep different keys (`FlowKeys.SameKeyIff`).
- Ring: "oldest entries are overwritten" (`src/pcap_store/ring_buffer.rs:4`). The write position
  always equals the number of stored entries, so nothing is ever overwritten and storage holds the
  whole push history. A flush starts at index 0 and therefore writes the oldest `count` packets ever pushed;
  that is the live window exactly while nothing has been evicted (`PcapRing.FlushIsWindowIff`,
  with a concrete ring in `PcapRing.FlushAfterEvictionWitness`). From index `len - count` it would be
  the live window always (`PcapRing.WalkFromOldest`).
- TLS: RFC 5246 lets a hello omit the extensions block; the walker then answers nothing rather than
  an empty name (`TlsTheorems.RoundTrip`).
- DNS: the counter at `src/dissectors/dns.rs:63` is meant to stop pointer loops, but it is local to
  each recursive call and counts labels. The parser returns if and only if the pointer chain never
  comes back to an offset (`DnsTermination.ReturnsIffAcyclic`); a 14-byte query on which it does not
  return is `DnsTermination.SelfPointerWitness`. What the counter does is refuse an eleventh label in
  a segment, so a longer name is refused or cut short, and a label followed by pointers to the bare
  root gains a trailing dot (`DnsNames.ExactNameAndOffset`). After labels followed by a pointer the
  reported offset is two bytes short, so the query type is then read from the pointer
  (`DnsNames.QueryTypeIff`); `DnsNames.PointerAsTypeWitness` is one message that shows both the dot
  and the type.
- Dead-letter queue: "reset circuit breaker if below threshold" (`src/output/dlq.rs:105`). The byte
  count never falls, so one call after another never gets there (`Dlq.ResetUnreachable`), and
  overlapping calls that do get there close the breaker of a full queue
  (`DlqReachability.ResetReachableIff`, `DlqReachability.ResetClosesFullQueue`).
- IPS: "in tap mode it only generates alerts" (`src/ips/mod.rs:5`). An unmatched packet gets the
  default action unchanged, in either mode, and is counted as passed (`IpsRules.TapDropsIff`,
  `IpsRuns.CountedAsReturned`). The sensor itself always builds its engine with a default of Pass
  (`src/main.rs:155`), where neither shows; both concern other users of the public constructor.
- Interface switch: a `set_interface` call that falls between the loop's read and its clear of the
  flag is missed until another call, a pause or a device failure
  (`CaptureSwitch.MissedSwitchWitness`, `CaptureSwitch.StuckStays`).

## Model

| member | source | states |
|---|---|---|
| FlowKeys.SameKeyIff | src/flow/tracker.rs:23-47 | two 5-tuples share a key iff identical, or mirror images between two different addresses |
| FlowKeys.IpByRank | src/flow/tracker.rs:30 | addresses are ordered as numbers, every IPv4 address below every IPv6 address |
| FlowKeys.KeyExact | src/flow/tracker.rs:23-47 | a key names the numerically lower address first, with its port: the 5-tuple itself, or between different addresses both ends exchanged |
| FlowKeys.NormalizedIdempotent | src/flow/tracker.rs:23-47 | normalising a normalised key changes nothing, and it is in forward order |
| FlowKeys.MirrorFlipsDirection | src/flow/tracker.rs:159 | the two directions are told apart iff the addresses differ |
| FlowTracker.FlowTracker.constructor | src/flow/tracker.rs:136-141 | a new tracker is empty |
| FlowTracker.FlowTracker.Update | src/flow/tracker.rs:145-211 | one packet is one arrival step of the table, with the eviction it causes |
| FlowTracker.FlowTracker.RecordPacket | src/flow/tracker.rs:180-208 | the in-place record update equals the specification's, sample caps included |
| FlowTracker.FlowTracker.EvictIdle | src/flow/tracker.rs:214-232 | removes exactly the idle flows and reports each once |
| FlowTracker.FlowTracker.FindOldestFlow | src/flow/tracker.rs:245-250 | none iff the table is empty, otherwise a flow with the least last-seen time |
| FlowTracker.StepKeepsKeyed | src/flow/tracker.rs:175-178 | every record stays filed under its own key |
| Lru.CachedIsPrefix | src/flow/tracker.rs:163-178 | whatever was touched after a cached key is cached: the cache is a prefix of the move-to-front list |
| Lru.StepKeepsExact | src/flow/tracker.rs:163-178 | one step of a cache that only knows time stamps keeps it equal to the reference definition |
| FlowLru.ExactLru | src/flow/tracker.rs:163-232 | after any run at increasing clock readings a key is active iff seen, not expired by a later sweep, and fewer than capacity distinct keys were seen since |
| FlowLru.VictimIsLeastRecent | src/flow/tracker.rs:164-172 | a capacity victim is the tail of the move-to-front list of active keys |
| FlowLru.ActiveCountBounded | src/flow/tracker.rs:235-237 | at most max(1, max_flows) flows on every run, whatever the clock does |
| FlowRecords.RecordIsSummary | src/flow/tracker.rs:175-208 | on every run an active record is the summary of its key's packets since insertion: packets and bytes from the lower and from the higher address, union of flags, first samples, first sixteen queries |
| FlowRecords.DirectionsByAddress | src/flow/tracker.rs:158-196 | forward counters are what the numerically lower address sent in the session, reverse counters what the other sent; none when both are one address |
| FlowRecords.GapsSpanSession | src/flow/tracker.rs:181-188 | the recorded gaps add up to last packet time minus first packet time iff no gap was discarded |
| FlowAccounting.EmittedExactlyOnce | src/flow/tracker.rs:163-232 | a flow is reported in a step iff it leaves the table in that step, and then once, with its last record and the reason |
| FlowAccounting.KeyConservation | src/flow/tracker.rs:163-232 | per key and counter: active plus reported equals what the key's packets brought |
| FlowAccounting.CounterConservation | src/flow/tracker.rs:163-232 | the same over the whole table, for each counter |
| FlowAccounting.Conservation | src/flow/tracker.rs:145-232 | packets in active flows plus packets in emitted events equal the update calls; bytes likewise |
| FlowAccounting.ActiveInclusion | src/flow/tracker.rs:145-232 | on the same events the smaller tracker's active keys are active in the larger |
| FlowAccounting.Inclusion | src/flow/tracker.rs:145-232 | and its counters and flags never exceed the larger tracker's |
| PcapWindow.LongestSuffixUnique | src/pcap_store/ring_buffer.rs:52-84 | the reference definition of the live window has one solution |
| PcapWindow.KeepFits | src/pcap_store/ring_buffer.rs:55-65 | the eviction loop keeps as much as fits and no more |
| PcapWindow.PushKeepsLongestSuffix | src/pcap_store/ring_buffer.rs:52-84 | evicting and appending gives the longest fitting suffix of the longer history |
| PcapRing.PacketRingBuffer.constructor | src/pcap_store/ring_buffer.rs:40-49 | a new ring is empty and valid |
| PcapRing.PacketRingBuffer.Evict | src/pcap_store/ring_buffer.rs:55-65 | evicts down to what fits, and the byte total stays the exact sum of the window |
| PcapRing.PacketRingBuffer.Append | src/pcap_store/ring_buffer.rs:75-83 | stores the entry; the write position stays at the end for every capacity the allocator may choose |
| PcapRing.PacketRingBuffer.Push | src/pcap_store/ring_buffer.rs:52-84 | the history grows by one entry and the live window is the longest suffix again |
| PcapRing.PacketRingBuffer.WriteEntry | src/pcap_store/ring_buffer.rs:119-124 | one record of the savefile |
| PcapRing.PacketRingBuffer.FlushToPcap | src/pcap_store/ring_buffer.rs:87-136 | the file holds the oldest `count` entries ever pushed |
| PcapRing.PacketRingBuffer.Len | src/pcap_store/ring_buffer.rs:139-141 | the length of the live window |
| PcapRing.PacketRingBuffer.BytesUsed | src/pcap_store/ring_buffer.rs:144-146 | the size of the live window, within the limit unless one packet alone exceeds it |
| PcapRing.WindowIsLongestSuffix | src/pcap_store/ring_buffer.rs:52-84 | after any sequence of pushes the window is the longest fitting suffix, or the newest packet alone |
| PcapRing.RingCount | src/pcap_store/ring_buffer.rs:82 | the ring object's count is the count after its push history |
| Savefile.RecordsRoundTrip | src/pcap_store/ring_buffer.rs:115-127 | a reader recovers every written record |
| Savefile.FileRoundTrip | src/pcap_store/ring_buffer.rs:95-127 | a savefile reader recovers the header fields, time stamps, lengths and data; the file has 24 bytes plus the entry sizes |
| Savefile.HeaderWords | src/pcap_store/ring_buffer.rs:95-102 | the header announces Ethernet frames of at most 65535 bytes, in UTC, in a little-endian microsecond file |
| Wire.EncodedValues | src/pcap_store/ring_buffer.rs:119-122 | the byte encodings denote the numbers they encode |
| PcapRing.FlushRoundTrip | src/pcap_store/ring_buffer.rs:109-127 | a reader of the flushed file finds the oldest `count` packets, captured and original length equal to the data's |
| PcapRing.FlushIsWindowIff | src/pcap_store/ring_buffer.rs:109-117 | when the newest packet differs from the last one the flush reaches, the flush is the live window iff nothing was ever evicted |
| PcapRing.FlushWithoutEviction | src/pcap_store/ring_buffer.rs:95-127 | without eviction the file is the whole window and 24 plus the bytes in use long |
| PcapRing.WalkFromOldest | src/pcap_store/ring_buffer.rs:115-117 | starting at `len - count` the walk is the live window in every reachable state |
| PcapRing.FlushAfterEvictionWitness | src/pcap_store/ring_buffer.rs:109-117 | a ring of three packets whose flush shows the evicted one and hides the newest |
| Text.AsciiIsUtf8 | src/dissectors/tls.rs:120-122 | ASCII names always decode |
| Text.Utf8Iff | src/dissectors/tls.rs:120-122 | exactly the concatenations of encoded scalar values decode |
| Text.DecodeExact | src/dissectors/tls.rs:120-122 | decoding gives the bytes themselves whenever they decode, whatever their number, and the default otherwise |
| Tls.DissectTls | src/dissectors/tls.rs:27-142 | on arbitrary bytes every index is in bounds and the result is that of the specification |
| Tls.FindSni | src/dissectors/tls.rs:103-134 | the extension loop equals its recursive specification |
| TlsTheorems.HostOfExtension | src/dissectors/tls.rs:105-131 | a complete extension yields its first entry's host name iff that entry has name type 0 and is not a single empty name |
| TlsTheorems.WalkFindsSni | src/dissectors/tls.rs:103-134 | on the front of an extension list the walk finds the true name or nothing; on the whole list, the true name |
| TlsTheorems.StartOfBlock | src/dissectors/tls.rs:64-101 | the nested lengths lead to the extensions block exactly when enough of the hello is shown |
| TlsTheorems.RoundTrip | src/dissectors/tls.rs:27-142 | on an encoded hello at any offset, followed by anything, the true server name is returned; nothing when the hello has no extensions block |
| TlsTheorems.Truncation | src/dissectors/tls.rs:65-133 | on any prefix: nothing, no name, or the true name |
| TlsTheorems.SniExact | src/dissectors/tls.rs:103-134 | the reported name is, byte for byte, the first name of the first extension that names a host first when it decodes, so every ASCII name of any length; otherwise empty |
| TlsTheorems.SniAbsent | src/dissectors/tls.rs:103-134 | no name is reported when no extension names a host first |
| TlsTheorems.HeaderDecides | src/dissectors/tls.rs:30-54 | on arbitrary bytes an answer is given only to handshake records, and a handshake other than a ClientHello has no name |
| TlsTheorems.RecordConfines | src/dissectors/tls.rs:60-101 | whatever follows the first record plays no part in the answer |
| Dns.ParseDnsName | src/dissectors/dns.rs:61-113 | on every input whose pointer chain ends, the label loop and recursion equal the specification |
| Dns.DissectDns | src/dissectors/dns.rs:29-57 | the header, first name and type fields as specified, on arbitrary bytes whose chain ends |
| DnsTermination.ReturnsIffAcyclic | src/dissectors/dns.rs:61-97 | on arbitrary bytes the recursion ends iff the pointer chain never comes back to an offset |
| DnsTermination.ReturnsIffWithinMaxHops | src/dissectors/dns.rs:84-97 | which following 16384 pointers decides |
| DnsTermination.BackwardHalts | src/dissectors/dns.rs:84-97 | pointers strictly before their own segment make it end |
| DnsTermination.CycleNeverHalts | src/dissectors/dns.rs:63-97 | a chain that comes back to an offset never ends |
| DnsTermination.SelfPointerWitness | src/dissectors/dns.rs:29-97 | a query message on which it does not end |
| DnsNames.SegmentOfName | src/dissectors/dns.rs:66-110 | the label loop reads the labels of the first segment of a written name, up to ten |
| DnsNames.SegmentTooLong | src/dissectors/dns.rs:66-69 | and refuses a segment with more |
| DnsNames.OffsetOfName | src/dissectors/dns.rs:61-113 | on every written name: refused iff more than ten labels precede the first pointer, otherwise the reported offset |
| DnsNames.Decompression | src/dissectors/dns.rs:61-113 | with at most ten labels per segment, the dotted labels along the whole pointer chain |
| DnsNames.ExactNameAndOffset | src/dissectors/dns.rs:61-113 | on every written name: exactly the dotted labels iff no segment has more than ten and no label is followed by pointers to the bare root; exactly the end iff no labels precede the first pointer |
| DnsNames.PriorOccurrenceIsBackward | src/dissectors/dns.rs:84-97 | pointers to a prior occurrence are the backward pointers that make the parser return |
| DnsNames.EncodedIsWritten | src/dissectors/dns.rs:66-110 | the encoder lays a name out as the parser's input grammar describes |
| DnsNames.QueryRoundTrip | src/dissectors/dns.rs:29-57 | every field of an encoded query is given back |
| DnsNames.DotsSeparate | src/dissectors/dns.rs:112 | cut at its dots, the dotted name gives the labels back |
| DnsNames.NoQuestionRead | src/dissectors/dns.rs:36-46 | a message without questions gives its header fields, no name and no type |
| DnsNames.RefusedNameRead | src/dissectors/dns.rs:45-54 | a refused name leaves name and type empty |
| DnsNames.MessageIff | src/dissectors/dns.rs:29-34 | anything of twelve bytes or more is taken for a message |
| DnsNames.QueryTypeIff | src/dissectors/dns.rs:46-53 | the type behind a written name is right iff no labels precede the name's first pointer or the type equals that pointer; behind a refused name, iff it is 0 |
| DnsNames.PointerAsTypeWitness | src/dissectors/dns.rs:46-53 | a query of type 1 for "a" answered as "a." of type 0xC000 |
| DlqProtocol.EveryInterleaving | src/output/dlq.rs:88-135 | in every interleaving of n callers: the byte bound, breaker open only at the threshold, bytes and event counters match the files on disk |
| DlqProtocol.LateCallsNeverWrite | src/output/dlq.rs:89-103 | once the threshold is reached no call that has not passed the check writes |
| DlqProtocol.LateFilesBounded | src/output/dlq.rs:89-126 | after that at most the calls already past the check add a file |
| DlqProtocol.FilesKept | src/output/dlq.rs:111-121 | a spooled file is never overwritten |
| DlqProtocol.StepUnique | src/output/dlq.rs:111 | a sequence number is used for at most one file |
| Dlq.DeadLetterQueue.constructor | src/output/dlq.rs:62-85 | starts closed with the bytes found on disk |
| Dlq.DeadLetterQueue.Spool | src/output/dlq.rs:88-135 | a call with nothing interleaved equals the sequential specification |
| Dlq.SoloIsProtocol | src/output/dlq.rs:88-135 | the sequential specification is the protocol run without interruption |
| Dlq.ThresholdExact | src/output/dlq.rs:90 | the threshold is the share of the limit, rounded down |
| Dlq.OutcomeIff | src/output/dlq.rs:88-135 | in sequential runs a call is dropped iff the bytes accepted before it reach the threshold, and otherwise accepted iff its file is written |
| Dlq.SequentialBooks | src/output/dlq.rs:88-135 | byte count, spooled count, sequence number and breaker after a sequential run, from the outcomes of its calls |
| Dlq.AcceptedIsStored | src/output/dlq.rs:111-121 | every accepted payload is on disk under the number of writes tried before it |
| Dlq.ResetUnreachable | src/output/dlq.rs:105-109 | in sequential runs the reset branch is never taken |
| Dlq.DropsAreFinal | src/output/dlq.rs:92-103 | in sequential runs every accepted event precedes every dropped one |
| DlqReachability.BoundIsReachedIff | src/output/dlq.rs:89-125 | for every number of callers, the byte bound is reached iff the queue starts at it, or below the threshold with a caller and a payload to write |
| DlqReachability.ResetReachableIff | src/output/dlq.rs:105-109 | some interleaving takes the reset branch iff two callers, a payload of a byte and an initial count below half the threshold |
| DlqReachability.ResetClosesFullQueue | src/output/dlq.rs:105-109 | whenever it is taken, the queue is at or above the threshold |
| Dissect.DissectPacket | src/dissectors/mod.rs:85-190 | on arbitrary bytes the metadata is that of the layered specification |
| Dissect.DissectIpv4 | src/dissectors/mod.rs:193-225 | header length, addresses, protocol, or nothing |
| Dissect.DissectIpv6 | src/dissectors/mod.rs:228-246 | fixed header fields, or nothing |
| Dissect.DissectTransport | src/dissectors/mod.rs:132-147 | dispatch on the protocol number |
| Dissect.DissectTcp | src/dissectors/tcp.rs:9-41 | ports, sequence numbers, flags, window and payload bounds |
| Dissect.DissectUdp | src/dissectors/udp.rs:11-29 | ports and a payload capped by declared and actual length |
| Dissect.DissectIcmp | src/dissectors/icmp.rs:11-29 | type, code and a clamped payload start |
| Dissect.AppNameSymmetric | src/dissectors/mod.rs:152-187 | the protocol name does not depend on the direction |
| Dissect.PayloadInsideFrame | src/dissectors/mod.rs:85-190 | a non-empty payload lies inside the frame, for arbitrary bytes |
| Dissect.PayloadBehindHeader | src/dissectors/tcp.rs:31-40 | whatever its length fields say, a non-empty payload starts behind the fixed header; a short ICMP message has its payload start clamped |
| Encapsulation.LinkRead | src/dissectors/mod.rs:92-107 | MAC addresses, optional 802.1Q tag and ethertype are read back |
| Encapsulation.NetworkRead | src/dissectors/mod.rs:193-246 | the network header of any packet is read back and the next layer found, for every option length |
| Encapsulation.PacketRead | src/dissectors/mod.rs:85-147 | both headers of any IP packet are read back, and what it carries reaches the transport parsers |
| Encapsulation.TcpRead | src/dissectors/tcp.rs:16-40 | a TCP segment with data offset 5 to 15 is read back with its payload |
| Encapsulation.UdpRead | src/dissectors/udp.rs:17-28 | a UDP datagram is read back with its payload, whatever trails it |
| Encapsulation.IcmpRead | src/dissectors/icmp.rs:17-28 | an ICMP message is read back with its payload |
| Encapsulation.DissectUndoesEncapsulation | src/dissectors/mod.rs:85-246 | for every well-formed frame the encoded fields and a slice equal to the payload come back |
| ProtocolNames.PacketName | src/dissectors/mod.rs:132-187 | the protocol name of any IP packet, one iff per name, from protocol number, ports and payload length; a cut transport header leaves its fields zero |
| ProtocolNames.FrameName | src/dissectors/mod.rs:152-187 | the same for frames with a whole segment, in the segment's own terms |
| ProtocolNames.NonIpName | src/dissectors/mod.rs:124-128 | a frame without IP is named "other" and nothing behind its link header is read |
| ProtocolNames.CutIpName | src/dissectors/mod.rs:108-123 | name and addresses stay empty iff the IP header is not whole |
| ProtocolNames.RefusedIff | src/dissectors/mod.rs:85-104 | no metadata iff the frame is shorter than its link header |
| Pipeline.MirroredFramesMeet | src/main.rs:338-344 | a frame and its mirror image between two addresses get one key and opposite directions |
| Pipeline.BothDirectionsCounted | src/main.rs:338-344 | fed to any tracker they land in one record, one packet per direction, with the flags of both |
| Pipeline.FramePacket | src/main.rs:338-355 | the packet the tracker and the probe the rule engine get from an encoded frame, field by field |
| Pipeline.FlagBytesAccumulate | src/flow/tracker.rs:202 | flag bytes add up in a record under bitwise or |
| Pipeline.XmasFrameDropped | src/main.rs:350-355 | with the built-in rules inline, a TCP frame with FIN, PSH and URG is dropped |
| IpsRules.FirstMatchIff | src/ips/mod.rs:217-249 | the first enabled matching rule decides |
| IpsRules.NoMatchIff | src/ips/mod.rs:217-252 | no rule decides iff no enabled rule matches |
| IpsRules.FieldMeaning | src/ips/mod.rs:269-311 | what each criterion asks for on its own |
| IpsRules.MaskMeaning | src/ips/mod.rs:294-298 | a flag criterion is met iff bitwise and of flag byte and mask gives the value |
| IpsRules.MatchesByField | src/ips/mod.rs:256-314 | all criteria together ask for what each asks for |
| IpsRules.VerdictTable | src/ips/mod.rs:217-252 | the verdict from mode, default and the deciding rule's action, in every case |
| IpsRules.CoversExact | src/ips/mod.rs:256-314 | one rule's criteria subsume another's iff the latter match nothing or the former are pointwise weaker, flag masks compared bit by bit |
| IpsRules.RemoveShadowed | src/ips/mod.rs:217-249 | removing a shadowed rule changes no verdict |
| IpsRules.SwapNeighbours | src/ips/mod.rs:217-249 | swapping neighbours changes the outcome on a packet iff both match it, they differ and no earlier rule decides |
| IpsRules.TapAgainstInline | src/ips/mod.rs:228-252 | a matched Tap verdict is the Inline verdict with Drop replaced by Alert |
| IpsRules.TapDropsIff | src/ips/mod.rs:228-252 | Tap mode drops exactly unmatched packets under a default of Drop |
| Ips.IpsEngine.constructor | src/ips/mod.rs:95-109 | a new engine has no rules and no counts |
| Ips.IpsEngine.AddRule | src/ips/mod.rs:112-121 | appends the rule, keeping any hits already filed under its id |
| Ips.IpsEngine.Evaluate | src/ips/mod.rs:204-253 | the verdict and rule of the first match, and the counters that move |
| Ips.IpsEngine.SetMode | src/ips/mod.rs:327-332 | only the mode changes |
| Ips.IpsEngine.RemoveRule | src/ips/mod.rs:345-354 | removes every rule with the id and forgets its hits; true iff there was one |
| Ips.IpsEngine.Retain | src/ips/mod.rs:347 | keeps the other rules in order |
| Ips.WithoutExact | src/ips/mod.rs:347 | wherever a rule stands, it stays in its place iff it has another id |
| Ips.IpsEngine.LoadDefaultRules | src/ips/mod.rs:124-201 | adds the five built-in rules in order |
| Ips.BuiltInVerdicts | src/ips/mod.rs:124-201 | which packets the built-in rules drop or alert on, and under which rule, in both modes |
| IpsRuns.Accounting | src/ips/mod.rs:204-253 | over any run: inspected = passed + dropped + alerted; matches = hits held plus hits forgotten; counters for exactly the loaded ids |
| IpsRuns.CountersExact | src/ips/mod.rs:204-253 | each counter after any run is the number of evaluations of its kind, by mode and deciding rule's action; a rule's hits are its matches since it was last removed |
| IpsRuns.TapNeverCountsDrops | src/ips/mod.rs:228-243 | the drop counter does not move while the engine stays in Tap mode |
| IpsRuns.CountedAsReturned | src/ips/mod.rs:239-252 | the counter that moves is the returned verdict's iff a rule matched or the default is Pass |
| IpsRuns.ShadowedNeverHit | src/ips/mod.rs:217-249 | a shadowed rule gains no hit in any run that keeps the earlier rule |
| IpsRuns.DashboardTotals | src/utils/dashboard.rs:551-635 | in every run ids stay unique and the dashboard's hit total is the sum of all hit counters |
| CaptureSwitch.AttentiveIff | src/main.rs:248-287 | every state of a run is attentive iff the flag is never cleared over an out-of-date read with no setter between its stores |
| CaptureSwitch.QuietWindowAttentive | src/main.rs:248-287 | with no whole `set_interface` call between read and clear, a loop on the wrong interface always has the flag set or a setter between its stores |
| CaptureSwitch.RequestedSwitchHappens | src/main.rs:241-287 | after such a run a loop that captures, enabled and with no setter between its stores, is on the requested interface after six more accesses |
| CaptureSwitch.SwitchHappensIff | src/main.rs:241-287 | left alone while enabled, six accesses put the loop on the requested interface iff the state is attentive and not about to miss |
| CaptureSwitch.RestartActedOn | src/main.rs:276-287 | with the flag set a capturing loop moves to the requested interface within six accesses; with it clear it stays |
| CaptureSwitch.CallSwitches | src/utils/dashboard.rs:839-845 | one whole `set_interface` call moves a capturing loop to its interface |
| CaptureSwitch.ToggleObeyed | src/main.rs:242-281 | a pause stops the loop within four accesses, and a restarted loop captures what is requested |
| CaptureSwitch.FailureReadsAgain | src/main.rs:260-271 | a device that cannot be opened makes the loop read the request again |
| CaptureSwitch.ClearFirstAttentive | src/main.rs:248-251 | with the clear before the read this holds in every interleaving |
| CaptureSwitch.StuckStays | src/main.rs:276-287 | a missed update stays missed until another call, a pause or a device failure |
| CaptureSwitch.MissedSwitchWitness | src/utils/dashboard.rs:839-845 | one call between the read and the clear is missed |
| Features.TcpFlagAnomaly | src/flow/features.rs:170-194 | the accumulated score equals its closed form |
| Features.ExtractFeatures | src/flow/features.rs:36-92 | fills the fourteen features in their places |
| Features.FeaturePositions | src/flow/features.rs:17-32 | which feature stands where, and the stubs' constants |
| Features.VarianceBound | src/flow/features.rs:156-166 | the variance is at most a quarter of the squared range |
| Features.PacketSizeVarianceBound | src/flow/features.rs:156-166 | the same for the reported packet-size feature |
| Features.PacketSizeVarianceExact | src/flow/features.rs:156-166 | from two packets on, the mean of the squared sizes less the square of their mean; before, zero |
| Features.ConnRateExact | src/flow/features.rs:41-46 | packets over the life of the flow, at least a millisecond, so at most a thousand per packet, reached iff it is no longer |
| Features.IatMeanExact | src/flow/features.rs:147-153 | the mean gap in milliseconds times their number is the sum of the gaps |
| FlowFeatures.MeanGapOfFlow | src/flow/features.rs:147-153 | in any run of the tracker without discarded gaps, the mean gap times the number of gaps is last packet time minus first |
| Features.BytesRatioExact | src/flow/features.rs:65-68 | times the packets it is the bytes; zero without packets |
| Features.BeaconingBounds | src/flow/features.rs:125-144 | the score is in [0, 1], and past the guards 1 iff all gaps are equal |
| Features.BeaconingExact | src/flow/features.rs:125-144 | past the guards one minus the score is the relative deviation, capped at one; before them the score is zero |
| Features.AsymmetryBounds | src/flow/features.rs:57-60 | in [0, 1], and 1 iff exactly one direction carried bytes |
| Features.AsymmetryExact | src/flow/features.rs:57-60 | the larger direction's bytes beyond the smaller's, as a share of all; the same with directions exchanged |
| Features.FlagAnomalyBounds | src/flow/features.rs:170-194 | in [0, 1], and 1 iff SYN, FIN, PSH and URG were all seen |
| Features.FlagAnomalyTable | src/flow/features.rs:170-194 | every value of the score and when it is taken |
| Features.CompositeNeverClips | src/utils/dashboard.rs:877-884 | the weighted score is in [0, 0.9], so its cap at 1 never acts |
| Features.ScoreExact | src/utils/dashboard.rs:877-884 | the weights in hundredths, and 0.9 iff all five live features are at their limit |

## Left out

- Integer width: the 64-bit packet, byte and event counters and `usize` lengths are unbounded numbers; wrap-around is not modelled. The 16- and 32-bit casts of lengths are.
- Clock: a reading is a number of nanoseconds passed in per call. An insertion uses two readings, as the code does. The exact-LRU and inclusion theorems assume strictly increasing readings at packet arrivals; conservation, record meaning and the size bound do not.
- Hash order: which of several equally old flows is evicted, and the order of a sweep's report, are left open.
- Memory ordering: the queue's relaxed atomics and the handshake's shared cells are modelled as sequentially consistent accesses.
- Dlq.Threshold: a real product rounded down; floating-point rounding is not modelled.
- DlqProtocol: file names' time stamps and queue contents from earlier processes are not modelled beyond the initial byte count.
- PcapRing.PacketRingBuffer.FlushToPcap: returns the file's bytes; directory creation and write errors are not modelled.
- Savefile.ReadFile: a reader of little-endian microsecond savefiles that reports the snap length and does not enforce it; packets above 65535 bytes exceed what the header announces.
- TlsWire.EncodeHello: hellos in a single record; a hello split over records is not modelled.
- Text.DecodeOr: a string is its UTF-8 bytes, and decoding is a validity check.
- Dns.ParseDnsName: requires a pointer chain that ends, which is exactly when the source returns; stack depth is not modelled.
- Dissect.DissectPacket: the HTTP heuristic's answer is a parameter, and the discarded result of the TLS walker is not computed.
- Encapsulation.DissectUndoesEncapsulation: TCP and ICMP payloads run to the end of the frame, trailing bytes included, because the code ignores the IP total length.
- CaptureSwitch: only the enable flag, the restart flag and the requested interface; device listing is not modelled.
- Features: reals instead of 32-bit floats; the standard deviation is any root of the variance, the query entropy any non-negative real, and the stub features are their constants.
- IpsEngine logging, the dashboard's string parsing and the event rings are not modelled.
- HTTP, OT, NetFlow, SNMP and syslog parsers, Kafka output, metrics, configuration and capture back ends are not modelled.
